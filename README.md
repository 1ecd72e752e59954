# AI companion chat page — a Dafny model

The page (`app/page.tsx`) is a single React component. It shows a
conversation with a scripted companion. The user types a message and sends
it. After a short delay the companion answers. The answer comes from a
fixed keyword policy, and when no keyword matches it is a random entry of
the active personality's list of five canned replies. The user can switch
between four personalities (sweet, playful, supportive, romantic) at any
time.

The model has three modules:

- `Text` (text.dfy) covers the string built-ins the page uses.
  `toLowerCase` is `Lower`, restricted to ASCII letters. `includes` is
  `Contains`, specified by an explicit occurrence index. `trim` is `Trim`,
  over the exact ECMAScript white-space set.
- `Responder` (responder.dfy) covers the personality table and
  `getAIResponse`.
  - `Reply(p, text, k)` is the reply to `text` under personality `p`. The
    random draw `Math.floor(Math.random() * 5)` is replaced by the
    parameter `k`.
  - `Respond` holds the keyword checks in source order, with the fallback
    as a parameter.
  - The same policy is also written as data: a table `Rules` of six
    keyword rules and a first-match-wins interpreter `FirstMatch`. The
    lemmas prove that the two agree. They then derive first-match-wins in
    both directions, the fallback behaviour and case-insensitivity from
    the table.
- `Conversation` (conversation.dfy) covers the component state and its
  handlers.
  - The handlers are pure steps over a `Chat` value: `SendStep`,
    `DeliverStep`/`Answer`, `TypeStep` and `PickStep`.
  - The class `Session` holds the state as fields. Its methods `Type`,
    `SetPersonality`, `Send` and `Deliver` update those fields. Each method
    is proved to perform exactly the matching step and to keep `Valid()`.
  - The invariant says four things. The seed message comes first. Message
    ids equal their positions. User and companion messages alternate after
    the seed. Exactly one reply is pending while the typing indicator
    shows, and it answers the message just sent.

A reply callback scheduled by `handleSend` closes over the values of that
render: the input text, `messages.length + 1` and the `getAIResponse`
that reads the personality then in force. The model stores these three
values in a `Pending` record when the message is sent. `Deliver` uses only
that record. As a result, a personality picked while a reply is pending
does not change that reply (`TurnUsesSendTimePersonality`). Some
descriptions of the page say instead that the reply uses the personality
active when it is delivered. The model follows the code.

Sending is only possible while `isTyping` is false. The input and the
button are both `disabled={isTyping}`. `Session.Send` and `Session.Type`
therefore require `!isTyping`. The pure `SendStep` has no guard, like
`handleSend` itself. `UnguardedSendsDuplicateIds` shows what the guard
prevents: without it, two messages would share an id.

## Model

| member | source | states |
|---|---|---|
| Text.LowerChar | app/page.tsx:74 | Lower-cases one character: an ASCII capital moves up by 32; everything else is unchanged; the result is never a capital |
| Text.Lower | app/page.tsx:74 | `toLowerCase` keeps the length, leaves no ASCII capital, and changes a character only by lower-casing a capital |
| Text.LowerSameIffEqualIgnoringCase | app/page.tsx:74 | Two messages lower-case to the same string if and only if they differ only in letter case |
| Text.LowerAt | app/page.tsx:74 | Character i of the lower-cased message is character i lower-cased |
| Text.Contains | app/page.tsx:78 | `includes(w)` is true if and only if w equals the slice of s of its length at some index i |
| Text.OccursLater | app/page.tsx:78 | When w is not a prefix of s, w occurs in s if and only if it occurs in s without its first character |
| Text.ContainsPrefix | app/page.tsx:100 | A string that contains a word contains every prefix of that word |
| Text.AbsentCharNotContained | app/page.tsx:78 | A word with a character the message lacks is not included in the message |
| Text.TrimStart | app/page.tsx:110 | The result is a suffix that does not start with white space, and what was dropped is all white space |
| Text.TrimEnd | app/page.tsx:110 | The result is a prefix that does not end with white space, and what was dropped is all white space |
| Text.TrimEmptyIffBlank | app/page.tsx:110 | `input.trim()` is empty (falsy) if and only if the input is all white space |
| Text.Trim | app/page.tsx:110 | `input.trim()` as `TrimEnd` after `TrimStart`; its contract is carried by `TrimStart`, `TrimEnd` (what each half removes) and `TrimEmptyIffBlank` (empty exactly for blank input) |
| Text.PinnedOccurrence | app/page.tsx:78 | When a character of a word occurs only once in the message, any occurrence of the word is anchored there, which fixes where each other character of the word must be |
| Responder.Responses | app/page.tsx:13-54 | Every personality has exactly five fallback replies |
| Responder.FirstMatch | app/page.tsx:77-106 | The interpreter returns the fallback or the reply of some rule that fires |
| Responder.FirstMatchPicks | app/page.tsx:77-102 | When rule i fires and no earlier rule fires, rule i's reply is returned |
| Responder.FirstMatchFallsBack | app/page.tsx:104-106 | When no rule fires, the fallback is returned |
| Responder.FirstMatchStep | app/page.tsx:77-106 | One step of the interpreter: try rule i, otherwise go on to the rules after it |
| Responder.AnyOccursOfOne | app/page.tsx:92 | "Some keyword occurs" for a one-keyword rule is that keyword's `includes` test |
| Responder.AnyOccursOfTwo | app/page.tsx:78 | "Some keyword occurs" for a two-keyword rule is the disjunction of its two `includes` tests |
| Responder.AnyOccursOfThree | app/page.tsx:84 | "Some keyword occurs" for a three-keyword rule is the disjunction of its three `includes` tests |
| Responder.RuleKeywords | app/page.tsx:78-102 | Each rule of the table fires exactly on the `includes` tests that the matching `if` makes |
| Responder.Reply | app/page.tsx:73-107 | `getAIResponse(text)` under personality p with draw k; its contract is carried by `ReplyFollowsRules` (first-match-wins over the rule table), `RuleDecidesIff` and `FallbackIffNoRule` (which rule or fallback answers, in both directions) and `ReplyIgnoresCase` |
| Responder.Respond | app/page.tsx:77-106 | The keyword checks in source order on the lower-cased message with the fallback as a parameter; its contract is carried by `RespondFollowsRules` (it agrees with the rule table for every fallback) |
| Responder.ReplyFollowsRules | app/page.tsx:73-107 | `getAIResponse` equals the first-match-wins reading of the rule table, with the k-th fallback |
| Responder.RespondFollowsRules | app/page.tsx:77-106 | The keyword checks in source order agree with the rule table for every fallback |
| Responder.RespondFollowsMiddleRules | app/page.tsx:88-106 | After rules 1 and 2 fail, the checks agree with the table from rule 3 on |
| Responder.RespondFollowsLaterRules | app/page.tsx:96-106 | After rules 1 to 4 fail, the checks agree with the table from rule 5 on |
| Responder.ReplyIsFirstFiringRule | app/page.tsx:77-102 | The reply is the reply of the first rule that fires |
| Responder.ReplyFallsBack | app/page.tsx:104-106 | When no rule fires, the reply is entry k of the personality's list |
| Responder.FallbacksDisjoint | app/page.tsx:13-54 | No two personalities share a fallback reply |
| Responder.RuleRepliesAreNotFallbacks | app/page.tsx:78-106 | No keyword reply is in any personality's fallback list |
| Responder.RuleRepliesDistinct | app/page.tsx:78-102 | Different rules give different replies, whatever the personalities |
| Responder.FirstFiring | app/page.tsx:77-102 | Returns the index of the first rule that fires (no earlier rule fires), or the table length when none fires |
| Responder.ReplyByFirstFiring | app/page.tsx:73-107 | The reply is the first firing rule's reply, or entry k of the fallback list when none fires |
| Responder.RuleDecidesIff | app/page.tsx:77-102 | Rule i produces the reply if and only if it fires and no earlier rule fires |
| Responder.FallbackIffNoRule | app/page.tsx:104-106 | The reply is a fallback if and only if no rule fires; it is then entry k of p's list and of no other personality's list |
| Responder.AffectionReply | app/page.tsx:78-82 | "love" or the heart gives the affection reply; only the romantic personality words it differently |
| Responder.LoveBeatsSad | app/page.tsx:78-86 | A message with both "love" and "sad" gets the affection reply, not the comforting one |
| Responder.FixedRuleIgnoresPersonality | app/page.tsx:84-102 | Rules 2 to 6 give the same reply for every personality and every random draw |
| Responder.MissedImpliesMiss | app/page.tsx:100 | The "missed" test is redundant because "missed" contains "miss" |
| Responder.ReplyIgnoresCase | app/page.tsx:74 | Messages that differ only in letter case get the same reply |
| Responder.RespondToSadText | app/page.tsx:78-86 | "i feel sad today" fails the love/heart test and passes the sad test, so it gets the comforting reply |
| Responder.SadTextGetsComfort | app/page.tsx:73-86 | "I feel sad today" gets the comforting reply under every personality and every draw |
| Responder.RandomTextLacksSomeLetters | app/page.tsx:104-106 | "tell me something random" has no 'v', 'w' or 'p' |
| Responder.RandomTextLacksLetters | app/page.tsx:104-106 | "tell me something random" has none of 'v', 'w', 'p', 'z', 'b' and the heart |
| Responder.RandomTextPins | app/page.tsx:104-106 | "tell me something random" has 24 characters, its only 's' at index 8 and its only 'g' at index 16, with the neighbours that rule out "sad", "great" and "miss" |
| Responder.NoEarlyKeywordIn | app/page.tsx:78-90 | A message with those character facts includes none of the keywords of the first three rules |
| Responder.NoLateKeywordIn | app/page.tsx:92-102 | A message with those character facts includes none of the keywords of the last three rules |
| Responder.NoKeywordFallsBack | app/page.tsx:77-106 | A message that includes none of the keywords gets the fallback |
| Responder.RespondToRandomText | app/page.tsx:77-106 | "tell me something random" fails every keyword test, so it gets the fallback |
| Responder.RandomTextFallsBack | app/page.tsx:73-106 | "tell me something random" gets entry k of the personality's own list under every personality and every draw |
| Conversation.Invariant | app/page.tsx:57-62 | The seed comes first, ids equal positions, user and companion messages alternate after the seed, and `isTyping` holds exactly when one reply is pending that answers the last message; `StartSatisfiesInvariant`, `SendKeepsInvariant`, `AnswerKeepsInvariant` and `TypeAndPickKeepInvariant` show every reachable state keeps it |
| Conversation.SendStep | app/page.tsx:109-121 | `handleSend` on the state; its contract is carried by `BlankSendIsNoOp` (blank input changes nothing), `SendAppendsUserMessage` (the whole new state of a non-blank send) and `SendKeepsInvariant` |
| Conversation.DeliverStep | app/page.tsx:123-131 | The timeout callback with draw k; its contract is carried by `DeliverAnswersCapturedReply` (the reply uses the text and personality captured at send time) and `TurnUsesSendTimePersonality` |
| Conversation.Answer | app/page.tsx:123-131 | Appending the companion's reply and clearing `isTyping`; its contract is carried by `AnswerKeepsInvariant` |
| Conversation.TypeStep | app/page.tsx:189 | The input's `onChange`; its contract is carried by `TypeAndPickKeepInvariant` |
| Conversation.PickStep | app/page.tsx:155 | A personality button's `onClick`; its contract is carried by `TypeAndPickKeepInvariant` and `TurnUsesSendTimePersonality` |
| Conversation.StartSatisfiesInvariant | app/page.tsx:57-62 | The initial state (seed message, empty input, sweet, not typing) satisfies the invariant |
| Conversation.BlankSendIsNoOp | app/page.tsx:110 | Sending blank input leaves the state unchanged |
| Conversation.SendAppendsUserMessage | app/page.tsx:109-131 | A non-blank send appends the untrimmed input as a user message with id equal to the old length, clears the input, sets isTyping and schedules one reply that carries the input, the next id and the current personality |
| Conversation.SendKeepsInvariant | app/page.tsx:109-131 | A send while no reply is pending keeps the invariant |
| Conversation.AnswerKeepsInvariant | app/page.tsx:123-131 | The callback appends a companion message with id one more than the user message's, clears isTyping, drops the timer and restores the invariant |
| Conversation.DeliverAnswersCapturedReply | app/page.tsx:123-131 | The delivered reply is `getAIResponse` of the sent text with the personality captured at send time |
| Conversation.TypeAndPickKeepInvariant | app/page.tsx:155 | Typing and picking a personality keep the invariant |
| Conversation.TurnShape | app/page.tsx:109-131 | A full turn appends the user message and then the reply, with consecutive ids, whatever personality is picked in between |
| Conversation.TurnUsesSendTimePersonality | app/page.tsx:123-126 | A personality picked while a reply is pending does not change that reply |
| Conversation.UnguardedSendsDuplicateIds | app/page.tsx:192-194 | Without the disabled guard, a second send gives its message the id promised to the pending reply, and the invariant breaks |
| Conversation.FirstTurnShape | app/page.tsx:57-131 | From the initial screen with personality p picked and text typed, a send schedules one reply carrying text, id 2 and p, and answering it with r gives messages [seed, text, r] |
| Conversation.FirstTurn | app/page.tsx:57-131 | From the initial screen with personality p picked, a sent message becomes message 1 and its reply under p becomes message 2 |
| Conversation.SadTurn | app/page.tsx:57-131 | The turn "I feel sad today" ends with messages [seed, the user's text, the comforting reply] with ids 0, 1 and 2 |
| Conversation.PlayfulFallbackTurn | app/page.tsx:57-131 | With the playful personality, the turn "tell me something random" ends with [seed, the user's text, entry k of the playful list] |
| Conversation.Session.constructor | app/page.tsx:57-62 | A new page is in the initial state and valid |
| Conversation.Session.Type | app/page.tsx:186-192 | Typing replaces only the input, is possible only while not typing, and keeps the page valid |
| Conversation.Session.SetPersonality | app/page.tsx:152-155 | Picking a personality replaces only the personality and keeps the page valid |
| Conversation.Session.Send | app/page.tsx:109-132 | `handleSend` performs exactly `SendStep`, is allowed only while not typing, and keeps the page valid |
| Conversation.Session.Deliver | app/page.tsx:123-131 | The callback performs exactly `DeliverStep` on the pending timer and keeps the page valid |

## Left out

- Rendering (the JSX), scrolling to the newest message (`scrollToBottom` and its `useEffect`) and the personality buttons' display names: they do not affect the state.
- The delay of 1000–2000 ms before a reply: the model does not model time. A reply is a separate `Deliver` step that may come after any number of `SetPersonality` steps.
- `Math.random()`: it is a floating-point source of randomness. The fallback index it yields is the parameter `k < 5`.
- `handleKeyPress`: Enter without Shift calls `handleSend`, so it is the same `Send` step. The input is disabled while typing, so that route is guarded too.
- Text.Lower: only ASCII letters are lower-cased. The six keyword groups are ASCII, or the heart, which has no case, so full Unicode case mapping could only matter for letters outside ASCII.
- `includes` in JavaScript compares UTF-16 code units. The model compares Unicode scalar values, which is the same for the heart keyword and every ASCII keyword.
- React's batching of state updates: each handler is one atomic step. The functional `prev =>` updates make the appended messages independent of render timing.
