/** The three string built-ins the chat page relies on: `toLowerCase`,
    `includes` and `trim`, as functions over `string` (a sequence of
    Unicode scalar values). */
module Text {

  /** The letters `toLowerCase` changes in this model: ASCII 'A' to 'Z'. */
  predicate IsUpper(c: char) {
    'A' <= c <= 'Z'
  }

  function LowerChar(c: char): (d: char)
    ensures !IsUpper(d)
    ensures IsUpper(c) ==> d as int == c as int + 32
    ensures !IsUpper(c) ==> d == c
  {
    if IsUpper(c) then (c as int + 32) as char else c
  }

  /** `s.toLowerCase()`, restricted to ASCII letters. */
  function Lower(s: string): (r: string)
    ensures |r| == |s|
    ensures forall i :: 0 <= i < |s| ==> !IsUpper(r[i])
    ensures forall i :: 0 <= i < |s| ==> r[i] == s[i] || (IsUpper(s[i]) && r[i] as int == s[i] as int + 32)
  {
    seq(|s|, i requires 0 <= i < |s| => LowerChar(s[i]))
  }

  /** `s` and `t` differ at most in the case of ASCII letters. */
  predicate EqualIgnoringCase(s: string, t: string) {
    |s| == |t| && forall i :: 0 <= i < |s| ==> LowerChar(s[i]) == LowerChar(t[i])
  }

  /** Two strings lower-case to the same string exactly when they differ
      only in the case of ASCII letters. */
  lemma LowerSameIffEqualIgnoringCase(s: string, t: string)
    ensures Lower(s) == Lower(t) <==> EqualIgnoringCase(s, t)
  {
    if Lower(s) == Lower(t) {
      forall i | 0 <= i < |s|
        ensures LowerChar(s[i]) == LowerChar(t[i])
      {
        LowerAt(s, i);
        LowerAt(t, i);
      }
    }
    if EqualIgnoringCase(s, t) {
      forall i | 0 <= i < |s|
        ensures Lower(s)[i] == Lower(t)[i]
      {
        LowerAt(s, i);
        LowerAt(t, i);
      }
      assert Lower(s) == Lower(t);
    }
  }

  /** Character `i` of `Lower(s)` is character `i` of `s`, lower-cased. */
  lemma LowerAt(s: string, i: nat)
    requires i < |s|
    ensures Lower(s)[i] == LowerChar(s[i])
  {
  }

  /** `w` occurs in `s` starting at index `i`. */
  ghost predicate OccursAt(s: string, w: string, i: nat) {
    i + |w| <= |s| && s[i..i + |w|] == w
  }

  /** `s.includes(w)`: true exactly when `w` occurs somewhere in `s`
      (the empty string occurs everywhere). */
  function Contains(s: string, w: string): (r: bool)
    ensures r <==> exists i: nat :: OccursAt(s, w, i)
    decreases |s|
  {
    if |w| > |s| then
      false
    else if s[..|w|] == w then
      assert OccursAt(s, w, 0);
      true
    else
      OccursLater(s, w);
      Contains(s[1..], w)
  }

  /** When `w` is not a prefix of `s`, it occurs in `s` exactly when it
      occurs in `s` without its first character. */
  lemma OccursLater(s: string, w: string)
    requires |w| <= |s| && s[..|w|] != w
    ensures (exists i: nat :: OccursAt(s, w, i)) <==> (exists j: nat :: OccursAt(s[1..], w, j))
  {
    if j: nat :| OccursAt(s[1..], w, j) {
      assert s[j + 1..j + 1 + |w|] == s[1..][j..j + |w|];
      assert OccursAt(s, w, j + 1);
    }
    if i: nat :| OccursAt(s, w, i) {
      assert i != 0;
      assert s[1..][i - 1..i - 1 + |w|] == s[i..i + |w|];
      assert OccursAt(s[1..], w, i - 1);
    }
  }

  /** Whoever contains a word contains each of its prefixes. */
  lemma ContainsPrefix(s: string, w: string, n: nat)
    requires n <= |w|
    requires Contains(s, w)
    ensures Contains(s, w[..n])
  {
    var i: nat :| OccursAt(s, w, i);
    assert s[i..i + n] == w[..n];
    assert OccursAt(s, w[..n], i);
  }

  /** A word holding a character that `s` lacks does not occur in `s`. */
  lemma AbsentCharNotContained(s: string, w: string, j: nat)
    requires j < |w| && w[j] !in s
    ensures !Contains(s, w)
  {
  }

  /** When the character `w[j]` occurs in `s` only at index `q`, an
      occurrence of `w` can only start at `q - j`, so character `m` of `w`
      must then be found at `q - j + m`. */
  lemma PinnedOccurrence(s: string, w: string, j: nat, q: nat, m: nat)
    requires j < |w| && m < |w| && q < |s| && s[q] == w[j]
    requires forall i :: 0 <= i < |s| && i != q ==> s[i] != w[j]
    ensures Contains(s, w) ==> q >= j && q - j + m < |s| && s[q - j + m] == w[m]
  {
    if Contains(s, w) {
      var i: nat :| OccursAt(s, w, i);
      assert s[i + j] == w[j];
      assert s[i + m] == w[m];
    }
  }

  /** The characters `String.prototype.trim` removes: the ECMAScript
      WhiteSpace and LineTerminator code points. */
  predicate IsSpace(c: char) {
    c == '\t' || c == '\n' || c == '\U{000B}' || c == '\U{000C}' || c == '\r' ||
    c == ' ' || c == '\U{00A0}' || c == '\U{1680}' ||
    ('\U{2000}' <= c <= '\U{200A}') ||
    c == '\U{2028}' || c == '\U{2029}' || c == '\U{202F}' || c == '\U{205F}' ||
    c == '\U{3000}' || c == '\U{FEFF}'
  }

  /** Every character of `s` is white space (so is the empty string). */
  predicate IsBlank(s: string) {
    forall i :: 0 <= i < |s| ==> IsSpace(s[i])
  }

  /** Drops the leading white space: the longest suffix that does not start with it. */
  function TrimStart(s: string): (r: string)
    ensures |r| <= |s| && r == s[|s| - |r|..]
    ensures r == [] || !IsSpace(r[0])
    ensures IsBlank(s[..|s| - |r|])
  {
    if s != [] && IsSpace(s[0]) then TrimStart(s[1..]) else s
  }

  /** Drops the trailing white space: the longest prefix that does not end with it. */
  function TrimEnd(s: string): (r: string)
    ensures |r| <= |s| && r == s[..|r|]
    ensures r == [] || !IsSpace(r[|r| - 1])
    ensures IsBlank(s[|r|..])
  {
    if s != [] && IsSpace(s[|s| - 1]) then TrimEnd(s[..|s| - 1]) else s
  }

  /** `s.trim()`: `TrimStart` and `TrimEnd` state what each half removes,
      and `TrimEmptyIffBlank` when nothing is left. */
  function Trim(s: string): string {
    TrimEnd(TrimStart(s))
  }

  /** `s.trim()` is empty, the falsy value `handleSend` returns on,
      exactly when `s` is blank. */
  lemma TrimEmptyIffBlank(s: string)
    ensures Trim(s) == [] <==> IsBlank(s)
  {
    var t := TrimStart(s);
    if Trim(s) == [] {
      assert IsBlank(t) by { assert t[0..] == t; }
      assert s == s[..|s| - |t|] + t;
    }
  }
}
