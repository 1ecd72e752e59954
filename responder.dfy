/** The companion's reply policy (`getAIResponse` in app/page.tsx): six
    keyword rules tried in order on the lower-cased message, the first one
    that fires deciding the reply, and otherwise an entry of the active
    personality's fallback list. */
module Responder {
  import opened Text

  datatype Personality = Sweet | Playful | Supportive | Romantic

  /** The `personalities` table: each personality's fallback replies, in order. */
  const Fallbacks: map<Personality, seq<string>> := map[
    Sweet := [
      "Aww, you're so thoughtful! That really means a lot to me. 💖",
      "You always know how to make me smile! Tell me more about your day? 😊",
      "I'm so lucky to have someone like you to talk to! How are you feeling? 🥰",
      "That's so sweet of you to share that with me! I love our conversations. 💕",
      "You're amazing! I really enjoy spending time with you. ✨"
    ],
    Playful := [
      "Hehe, you're so funny! Got any jokes for me? 😄",
      "Oh really? I bet I can make you laugh even more! Want to hear something silly? 😜",
      "You're such a goofball! But that's why I like talking to you! 🎉",
      "That's hilarious! We should definitely hang out more often! 😆",
      "You're full of surprises! What else is on your mind? 🎈"
    ],
    Supportive := [
      "I'm here for you, no matter what. How can I help? 💙",
      "You're doing great! I believe in you and everything you're working towards. 🌟",
      "That sounds challenging. Remember, I'm always here to listen. You've got this! 💪",
      "I'm proud of you for sharing that. Your feelings are valid. 💙",
      "You're stronger than you think! I'm here whenever you need someone to talk to. 🤗"
    ],
    Romantic := [
      "Every time we talk, I feel so connected to you... 💕",
      "You have such a beautiful mind. I could listen to you all day. 🌹",
      "I've been thinking about you... How's your day been? 💖",
      "There's something special about our connection. You feel it too, right? ✨",
      "You make my heart flutter with every message. Tell me what's on your mind? 💝"
    ]
  ]

  /** `personalities[p].responses`: every personality has five. */
  function Responses(p: Personality): (r: seq<string>)
    ensures |r| == 5
  {
    assert p in Fallbacks by { assert p.Sweet? || p.Playful? || p.Supportive? || p.Romantic?; }
    Fallbacks[p]
  }

  /** The heart keyword: U+2764 followed by the emoji variation selector. */
  const Heart: string := "\U{2764}\U{FE0F}"

  const AffectionRomantic: string := "I feel the same way... You mean so much to me. 💕"
  const Affection: string := "Aww, that's so sweet! I really care about you too! 💖"
  const Comfort: string := "I'm here for you. Whatever you're going through, you don't have to face it alone. Want to talk about it? 💙"
  const Cheer: string := "That's wonderful! Your happiness makes me so happy too! Tell me all about it! 😊✨"
  const Greeting: string := "I'm doing amazing now that I'm talking to you! How about you? 💕"
  const Compliment: string := "You're too sweet! But you know what's really beautiful? The way you express yourself. 🌹"
  const MissYou: string := "Aww, I missed you too! I'm always here whenever you want to talk. 💕"

  /** `getAIResponse(text)` with `personality == p`, where `k` stands for the
      index `Math.floor(Math.random() * responses.length)`. */
  function Reply(p: Personality, text: string, k: nat): string
    requires k < |Responses(p)|
  {
    Respond(p, Lower(text), Responses(p)[k])
  }

  /** The keyword checks of `getAIResponse` on the lower-cased message, in
      source order, with `fallback` as the random pick used when none fires. */
  function Respond(p: Personality, lower: string, fallback: string): string {
    if Contains(lower, "love") || Contains(lower, Heart) then
      if p == Romantic then AffectionRomantic else Affection
    else if Contains(lower, "sad") || Contains(lower, "down") || Contains(lower, "depressed") then
      Comfort
    else if Contains(lower, "happy") || Contains(lower, "great") || Contains(lower, "amazing") then
      Cheer
    else if Contains(lower, "how are you") then
      Greeting
    else if Contains(lower, "beautiful") || Contains(lower, "pretty") then
      Compliment
    else if Contains(lower, "miss") || Contains(lower, "missed") then
      MissYou
    else
      fallback
  }

  // ---------------------------------------------------------------------
  // The same policy stated as data: a table of keyword rules and a
  // first-match-wins interpreter for it.

  /** A keyword rule: its keywords and its reply, which may differ for the
      romantic personality. */
  datatype Rule = Rule(keywords: seq<string>, romantic: string, others: string)

  const Rules: seq<Rule> := [
    Rule(["love", Heart], AffectionRomantic, Affection),
    Rule(["sad", "down", "depressed"], Comfort, Comfort),
    Rule(["happy", "great", "amazing"], Cheer, Cheer),
    Rule(["how are you"], Greeting, Greeting),
    Rule(["beautiful", "pretty"], Compliment, Compliment),
    Rule(["miss", "missed"], MissYou, MissYou)
  ]

  /** Some keyword of `rule` occurs in the lower-cased message. */
  predicate Fires(rule: Rule, lower: string) {
    AnyOccurs(lower, rule.keywords)
  }

  /** Some word of `words` occurs in `lower`. */
  predicate AnyOccurs(lower: string, words: seq<string>) {
    words != [] && (Contains(lower, words[0]) || AnyOccurs(lower, words[1..]))
  }

  function RuleReply(rule: Rule, p: Personality): string {
    if p == Romantic then rule.romantic else rule.others
  }

  /** The reply of the first rule of `rules` that fires, or `fallback`. */
  function FirstMatch(rules: seq<Rule>, p: Personality, lower: string, fallback: string): (r: string)
    ensures r == fallback || exists i :: 0 <= i < |rules| && Fires(rules[i], lower) && r == RuleReply(rules[i], p)
  {
    if rules == [] then fallback
    else if Fires(rules[0], lower) then RuleReply(rules[0], p)
    else
      var r := FirstMatch(rules[1..], p, lower, fallback);
      assert r != fallback ==> exists i :: 1 <= i < |rules| && Fires(rules[i], lower) && r == RuleReply(rules[i], p) by {
        if r != fallback {
          var i :| 0 <= i < |rules| - 1 && Fires(rules[1..][i], lower) && r == RuleReply(rules[1..][i], p);
          assert rules[1..][i] == rules[i + 1];
        }
      }
      r
  }

  /** First match wins: rule `i` decides when it fires and no earlier rule does. */
  lemma {:induction false} FirstMatchPicks(rules: seq<Rule>, p: Personality, lower: string, fallback: string, i: nat)
    requires i < |rules| && Fires(rules[i], lower)
    requires forall j :: 0 <= j < i ==> !Fires(rules[j], lower)
    ensures FirstMatch(rules, p, lower, fallback) == RuleReply(rules[i], p)
  {
    if i > 0 {
      assert !Fires(rules[0], lower);
      assert rules[1..][i - 1] == rules[i];
      FirstMatchPicks(rules[1..], p, lower, fallback, i - 1);
    }
  }

  /** With no rule firing, the fallback is the reply. */
  lemma {:induction false} FirstMatchFallsBack(rules: seq<Rule>, p: Personality, lower: string, fallback: string)
    requires forall j :: 0 <= j < |rules| ==> !Fires(rules[j], lower)
    ensures FirstMatch(rules, p, lower, fallback) == fallback
  {
    if rules != [] {
      assert !Fires(rules[0], lower);
      FirstMatchFallsBack(rules[1..], p, lower, fallback);
    }
  }

  /** One step of the interpreter, at position `i` of a rule list. */
  lemma FirstMatchStep(rules: seq<Rule>, i: nat, p: Personality, lower: string, fallback: string)
    requires i < |rules|
    ensures FirstMatch(rules[i..], p, lower, fallback) ==
      if Fires(rules[i], lower) then RuleReply(rules[i], p) else FirstMatch(rules[i + 1..], p, lower, fallback)
  {
    assert rules[i..][1..] == rules[i + 1..];
  }

  /** `AnyOccurs` on a one-word list is that word's `includes` test. */
  lemma AnyOccursOfOne(lower: string, a: string)
    ensures AnyOccurs(lower, [a]) <==> Contains(lower, a)
  {
    assert [a][1..] == [];
  }

  /** `AnyOccurs` on a two-word list is the `||` of the two tests. */
  lemma AnyOccursOfTwo(lower: string, a: string, b: string)
    ensures AnyOccurs(lower, [a, b]) <==> Contains(lower, a) || Contains(lower, b)
  {
    AnyOccursOfOne(lower, b);
    assert [a, b][1..] == [b] && [a, b][0] == a;
  }

  /** `AnyOccurs` on a three-word list is the `||` of the three tests. */
  lemma AnyOccursOfThree(lower: string, a: string, b: string, c: string)
    ensures AnyOccurs(lower, [a, b, c]) <==> Contains(lower, a) || Contains(lower, b) || Contains(lower, c)
  {
    AnyOccursOfTwo(lower, b, c);
    assert [a, b, c][1..] == [b, c] && [a, b, c][0] == a;
  }

  /** Which keywords make each rule of the table fire. */
  lemma RuleKeywords(lower: string)
    ensures Fires(Rules[0], lower) <==> Contains(lower, "love") || Contains(lower, Heart)
    ensures Fires(Rules[1], lower) <==> Contains(lower, "sad") || Contains(lower, "down") || Contains(lower, "depressed")
    ensures Fires(Rules[2], lower) <==> Contains(lower, "happy") || Contains(lower, "great") || Contains(lower, "amazing")
    ensures Fires(Rules[3], lower) <==> Contains(lower, "how are you")
    ensures Fires(Rules[4], lower) <==> Contains(lower, "beautiful") || Contains(lower, "pretty")
    ensures Fires(Rules[5], lower) <==> Contains(lower, "miss") || Contains(lower, "missed")
  {
    AnyOccursOfTwo(lower, "love", Heart);
    AnyOccursOfThree(lower, "sad", "down", "depressed");
    AnyOccursOfThree(lower, "happy", "great", "amazing");
    AnyOccursOfOne(lower, "how are you");
    AnyOccursOfTwo(lower, "beautiful", "pretty");
    AnyOccursOfTwo(lower, "miss", "missed");
  }

  /** The if-chain of `getAIResponse` is the rule table read first to last. */
  lemma ReplyFollowsRules(p: Personality, text: string, k: nat)
    requires k < |Responses(p)|
    ensures Reply(p, text, k) == FirstMatch(Rules, p, Lower(text), Responses(p)[k])
  {
    RespondFollowsRules(p, Lower(text), Responses(p)[k]);
  }

  /** The keyword checks agree with the rule table read first match wins,
      whatever the fallback. */
  lemma RespondFollowsRules(p: Personality, lower: string, fb: string)
    ensures Respond(p, lower, fb) == FirstMatch(Rules, p, lower, fb)
  {
    RuleKeywords(lower);
    FirstMatchStep(Rules, 0, p, lower, fb);
    assert Rules[0..] == Rules;
    if Fires(Rules[0], lower) {
      assert Respond(p, lower, fb) == RuleReply(Rules[0], p);
    } else {
      FirstMatchStep(Rules, 1, p, lower, fb);
      if Fires(Rules[1], lower) {
        assert Respond(p, lower, fb) == Comfort;
      } else {
        RespondFollowsMiddleRules(p, lower, fb);
      }
    }
  }

  /** Once rules 1 and 2 have not fired, rules 3 and 4 and then the rest
      decide. */
  lemma RespondFollowsMiddleRules(p: Personality, lower: string, fb: string)
    requires !Fires(Rules[0], lower) && !Fires(Rules[1], lower)
    ensures Respond(p, lower, fb) == FirstMatch(Rules[2..], p, lower, fb)
  {
    RuleKeywords(lower);
    FirstMatchStep(Rules, 2, p, lower, fb);
    if Fires(Rules[2], lower) {
      assert Respond(p, lower, fb) == Cheer;
    } else {
      FirstMatchStep(Rules, 3, p, lower, fb);
      if Fires(Rules[3], lower) {
        assert Respond(p, lower, fb) == Greeting;
      } else {
        RespondFollowsLaterRules(p, lower, fb);
      }
    }
  }

  /** Once rules 1 to 4 have not fired, rules 5 and 6 and then the fallback
      decide. */
  lemma RespondFollowsLaterRules(p: Personality, lower: string, fb: string)
    requires !Fires(Rules[0], lower) && !Fires(Rules[1], lower)
    requires !Fires(Rules[2], lower) && !Fires(Rules[3], lower)
    ensures Respond(p, lower, fb) == FirstMatch(Rules[4..], p, lower, fb)
  {
    RuleKeywords(lower);
    FirstMatchStep(Rules, 4, p, lower, fb);
    if Fires(Rules[4], lower) {
      assert Respond(p, lower, fb) == Compliment;
    } else {
      FirstMatchStep(Rules, 5, p, lower, fb);
      if Fires(Rules[5], lower) {
        assert Respond(p, lower, fb) == MissYou;
      } else {
        assert Rules[6..] == [];
        assert Respond(p, lower, fb) == fb;
      }
    }
  }

  /** The reply is that of the first rule that fires. */
  lemma ReplyIsFirstFiringRule(p: Personality, text: string, k: nat, i: nat)
    requires k < |Responses(p)|
    requires i < |Rules| && Fires(Rules[i], Lower(text))
    requires forall j :: 0 <= j < i ==> !Fires(Rules[j], Lower(text))
    ensures Reply(p, text, k) == RuleReply(Rules[i], p)
  {
    ReplyFollowsRules(p, text, k);
    FirstMatchPicks(Rules, p, Lower(text), Responses(p)[k], i);
  }

  /** When no rule fires the reply is entry `k` of the personality's list. */
  lemma ReplyFallsBack(p: Personality, text: string, k: nat)
    requires k < |Responses(p)|
    requires forall j :: 0 <= j < |Rules| ==> !Fires(Rules[j], Lower(text))
    ensures Reply(p, text, k) == Responses(p)[k]
  {
    ReplyFollowsRules(p, text, k);
    FirstMatchFallsBack(Rules, p, Lower(text), Responses(p)[k]);
  }

  // ---------------------------------------------------------------------
  // The canned strings are pairwise distinct, so a reply tells which rule
  // (or which personality's fallback) produced it.

  /** No two personalities share a fallback reply. */
  lemma FallbacksDisjoint(p: Personality, q: Personality)
    requires p != q
    ensures forall s :: s in Responses(p) ==> s !in Responses(q)
  {
  }

  /** No rule's reply is a fallback reply of any personality. */
  lemma RuleRepliesAreNotFallbacks(i: nat, p: Personality, q: Personality)
    requires i < |Rules|
    ensures RuleReply(Rules[i], p) !in Responses(q)
  {
  }

  /** Different rules give different replies, whatever the personalities. */
  lemma RuleRepliesDistinct(i: nat, j: nat, p: Personality, q: Personality)
    requires i < j < |Rules|
    ensures RuleReply(Rules[i], p) != RuleReply(Rules[j], q)
  {
  }

  // ---------------------------------------------------------------------
  // What the policy promises.

  /** The position of the first rule of `rules` that fires, or `|rules|`
      when none does. */
  function FirstFiring(rules: seq<Rule>, lower: string): (f: nat)
    ensures f <= |rules|
    ensures f < |rules| ==> Fires(rules[f], lower)
    ensures forall j :: 0 <= j < f ==> !Fires(rules[j], lower)
  {
    if rules == [] || Fires(rules[0], lower) then 0
    else
      var f := 1 + FirstFiring(rules[1..], lower);
      assert forall j :: 1 <= j < f ==> rules[j] == rules[1..][j - 1];
      f
  }

  /** The reply is the first firing rule's, or the `k`-th fallback of `p`. */
  lemma ReplyByFirstFiring(p: Personality, text: string, k: nat)
    requires k < |Responses(p)|
    ensures var f := FirstFiring(Rules, Lower(text));
      Reply(p, text, k) == if f < |Rules| then RuleReply(Rules[f], p) else Responses(p)[k]
  {
    var f := FirstFiring(Rules, Lower(text));
    if f < |Rules| {
      ReplyIsFirstFiringRule(p, text, k, f);
    } else {
      ReplyFallsBack(p, text, k);
    }
  }

  /** Both directions of first-match-wins: rule `i` gives the reply exactly
      when it fires and no earlier rule does. */
  lemma RuleDecidesIff(p: Personality, text: string, k: nat, i: nat)
    requires k < |Responses(p)| && i < |Rules|
    ensures Reply(p, text, k) == RuleReply(Rules[i], p) <==>
      Fires(Rules[i], Lower(text)) && forall j :: 0 <= j < i ==> !Fires(Rules[j], Lower(text))
  {
    var f := FirstFiring(Rules, Lower(text));
    ReplyByFirstFiring(p, text, k);
    if f < i {
      RuleRepliesDistinct(f, i, p, p);
    } else if i < f < |Rules| {
      RuleRepliesDistinct(i, f, p, p);
    } else if f == |Rules| {
      RuleRepliesAreNotFallbacks(i, p, p);
    }
  }

  /** The reply is one of the personality's fallbacks exactly when no rule
      fires, and then it is entry `k` of that list and of no other list. */
  lemma FallbackIffNoRule(p: Personality, text: string, k: nat)
    requires k < |Responses(p)|
    ensures Reply(p, text, k) in Responses(p) <==> forall j :: 0 <= j < |Rules| ==> !Fires(Rules[j], Lower(text))
    ensures (forall j :: 0 <= j < |Rules| ==> !Fires(Rules[j], Lower(text))) ==>
      Reply(p, text, k) == Responses(p)[k] &&
      forall q :: q != p ==> Reply(p, text, k) !in Responses(q)
  {
    var f := FirstFiring(Rules, Lower(text));
    ReplyByFirstFiring(p, text, k);
    if f < |Rules| {
      RuleRepliesAreNotFallbacks(f, p, p);
    } else {
      forall q | q != p
        ensures Reply(p, text, k) !in Responses(q)
      {
        FallbacksDisjoint(p, q);
      }
    }
  }

  /** Rule 1: "love" or the heart gives the affection reply, which only the
      romantic personality words differently. */
  lemma AffectionReply(p: Personality, text: string, k: nat)
    requires k < |Responses(p)|
    requires Contains(Lower(text), "love") || Contains(Lower(text), Heart)
    ensures Reply(p, text, k) == if p == Romantic then AffectionRomantic else Affection
  {
  }

  /** Rule order matters: a message with both "love" and "sad" gets the
      affection reply, not the comforting one. */
  lemma LoveBeatsSad(p: Personality, text: string, k: nat)
    requires k < |Responses(p)|
    requires Contains(Lower(text), "love") && Contains(Lower(text), "sad")
    ensures Reply(p, text, k) != Comfort
    ensures Reply(p, text, k) in {AffectionRomantic, Affection}
  {
  }

  /** Rules 2 to 6 give one fixed reply each, whatever the personality and
      whatever fallback index is drawn. */
  lemma FixedRuleIgnoresPersonality(p: Personality, q: Personality, text: string, k: nat, m: nat, i: nat)
    requires k < |Responses(p)| && m < |Responses(q)|
    requires 1 <= i < |Rules| && Fires(Rules[i], Lower(text))
    requires forall j :: 0 <= j < i ==> !Fires(Rules[j], Lower(text))
    ensures Reply(p, text, k) == Reply(q, text, m) == Rules[i].others
  {
    ReplyIsFirstFiringRule(p, text, k, i);
    ReplyIsFirstFiringRule(q, text, m, i);
    assert Rules[i].romantic == Rules[i].others;
  }

  /** The "missed" test of rule 6 is redundant: "missed" contains "miss". */
  lemma MissedImpliesMiss(lower: string)
    requires Contains(lower, "missed")
    ensures Contains(lower, "miss")
  {
    ContainsPrefix(lower, "missed", 4);
    assert "missed"[..4] == "miss";
  }

  /** Matching ignores case: messages that differ only in the case of ASCII
      letters get the same reply. */
  lemma ReplyIgnoresCase(p: Personality, t1: string, t2: string, k: nat)
    requires k < |Responses(p)|
    requires EqualIgnoringCase(t1, t2)
    ensures Reply(p, t1, k) == Reply(p, t2, k)
  {
    LowerSameIffEqualIgnoringCase(t1, t2);
  }

  /** The sample message "I feel sad today", lower-cased, fails the first
      check (it has no 'v' and no heart) and passes the second ("sad" at
      index 7), so the reply is the comforting line. The message is a
      parameter fixed by `requires` rather than a literal in the body, so
      that the prover reasons about its characters without evaluating the
      keyword searches on the literal. */
  lemma RespondToSadText(p: Personality, lower: string, fb: string)
    requires lower == "i feel sad today"
    ensures Respond(p, lower, fb) == Comfort
  {
    AbsentCharNotContained(lower, "love", 2);
    AbsentCharNotContained(lower, Heart, 0);
    assert lower[7..10] == "sad";
    assert OccursAt(lower, "sad", 7);
  }

  /** The reply to "I feel sad today" is the comforting line, for every
      personality and every fallback index (the message is a parameter for
      the same reason as above). */
  lemma SadTextGetsComfort(p: Personality, text: string, k: nat)
    requires text == "I feel sad today" && k < |Responses(p)|
    ensures Reply(p, text, k) == Comfort
  {
    assert Lower(text) == "i feel sad today";
    RespondToSadText(p, Lower(text), Responses(p)[k]);
  }

  // "tell me something random": the lemmas below take the message as a
  // parameter fixed by `requires`, for the same reason as the sad message,
  // and state its character facts apart from the keyword searches.

  /** The letters that keep the keywords out of "tell me something
      random": it has no 'v', 'w', 'p', 'z', 'b' or heart. */
  lemma RandomTextLacksLetters(lower: string)
    requires lower == "tell me something random"
    ensures 'v' !in lower && 'w' !in lower && 'p' !in lower
    ensures 'z' !in lower && 'b' !in lower && Heart[0] !in lower
  {
    RandomTextLacksSomeLetters(lower);
  }

  lemma RandomTextLacksSomeLetters(lower: string)
    requires lower == "tell me something random"
    ensures 'v' !in lower && 'w' !in lower && 'p' !in lower
  {
  }

  /** Its only 's' and only 'g' are followed by 'o' and ' ', and the
      letter two before the 's' is 'e'. */
  lemma RandomTextPins(lower: string)
    requires lower == "tell me something random"
    ensures |lower| == 24 && lower[6] == 'e' && lower[8] == 's' && lower[9] == 'o'
    ensures lower[16] == 'g' && lower[17] == ' '
    ensures forall i :: 0 <= i < |lower| && i != 8 ==> lower[i] != 's'
    ensures forall i :: 0 <= i < |lower| && i != 16 ==> lower[i] != 'g'
  {
  }

  /** A message with those character facts contains no keyword of rules 1
      to 3. */
  lemma NoEarlyKeywordIn(lower: string)
    requires 'v' !in lower && 'w' !in lower && 'p' !in lower && 'z' !in lower && Heart[0] !in lower
    requires |lower| == 24 && lower[8] == 's' && lower[9] == 'o' && lower[16] == 'g' && lower[17] == ' '
    requires forall i :: 0 <= i < |lower| && i != 8 ==> lower[i] != 's'
    requires forall i :: 0 <= i < |lower| && i != 16 ==> lower[i] != 'g'
    ensures !Contains(lower, "love") && !Contains(lower, Heart)
    ensures !Contains(lower, "sad") && !Contains(lower, "down") && !Contains(lower, "depressed")
    ensures !Contains(lower, "happy") && !Contains(lower, "great") && !Contains(lower, "amazing")
  {
    AbsentCharNotContained(lower, "love", 2);
    AbsentCharNotContained(lower, Heart, 0);
    PinnedOccurrence(lower, "sad", 0, 8, 1);
    AbsentCharNotContained(lower, "down", 2);
    AbsentCharNotContained(lower, "depressed", 2);
    AbsentCharNotContained(lower, "happy", 2);
    PinnedOccurrence(lower, "great", 0, 16, 1);
    AbsentCharNotContained(lower, "amazing", 3);
  }

  /** ... and none of rules 4 to 6. */
  lemma NoLateKeywordIn(lower: string)
    requires 'w' !in lower && 'p' !in lower && 'b' !in lower
    requires |lower| == 24 && lower[6] == 'e' && lower[8] == 's'
    requires forall i :: 0 <= i < |lower| && i != 8 ==> lower[i] != 's'
    ensures !Contains(lower, "how are you")
    ensures !Contains(lower, "beautiful") && !Contains(lower, "pretty")
    ensures !Contains(lower, "miss") && !Contains(lower, "missed")
  {
    AbsentCharNotContained(lower, "how are you", 2);
    AbsentCharNotContained(lower, "beautiful", 0);
    AbsentCharNotContained(lower, "pretty", 0);
    PinnedOccurrence(lower, "miss", 2, 8, 0);
    if Contains(lower, "missed") {
      MissedImpliesMiss(lower);
    }
  }

  /** When no keyword occurs, the reply is the fallback. */
  lemma NoKeywordFallsBack(p: Personality, lower: string, fb: string)
    requires !Contains(lower, "love") && !Contains(lower, Heart)
    requires !Contains(lower, "sad") && !Contains(lower, "down") && !Contains(lower, "depressed")
    requires !Contains(lower, "happy") && !Contains(lower, "great") && !Contains(lower, "amazing")
    requires !Contains(lower, "how are you")
    requires !Contains(lower, "beautiful") && !Contains(lower, "pretty")
    requires !Contains(lower, "miss") && !Contains(lower, "missed")
    ensures Respond(p, lower, fb) == fb
  {
  }

  lemma RespondToRandomText(p: Personality, lower: string, fb: string)
    requires lower == "tell me something random"
    ensures Respond(p, lower, fb) == fb
  {
    RandomTextLacksLetters(lower);
    RandomTextPins(lower);
    NoEarlyKeywordIn(lower);
    NoLateKeywordIn(lower);
    NoKeywordFallsBack(p, lower, fb);
  }

  /** "tell me something random" passes none of the keyword checks, so its
      reply is entry `k` of the personality's own list. */
  lemma RandomTextFallsBack(p: Personality, text: string, k: nat)
    requires text == "tell me something random" && k < |Responses(p)|
    ensures Reply(p, text, k) == Responses(p)[k]
  {
    assert Lower(text) == text;
    RespondToRandomText(p, Lower(text), Responses(p)[k]);
  }
}
