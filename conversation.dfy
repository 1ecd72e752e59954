/** The chat page's conversation state (the `messages`, `input`,
    `isTyping` and `personality` hooks of app/page.tsx) and its transitions:
    `handleSend`, the reply callback it schedules with `setTimeout`, typing
    into the input and picking a personality. */
module Conversation {
  import opened Text
  import opened Responder

  datatype Sender = User | Ai

  datatype Message = Message(id: nat, text: string, sender: Sender)

  /** A reply callback scheduled by `handleSend` and not yet run, with what
      it closed over when it was created: the input text, the id it will give
      the reply (`messages.length + 1` of that render) and the personality
      `getAIResponse` reads. */
  datatype Pending = Pending(text: string, id: nat, personality: Personality)

  /** The component's state, plus the scheduled callbacks in the order they
      were scheduled. */
  datatype Chat = Chat(
    messages: seq<Message>,
    input: string,
    isTyping: bool,
    personality: Personality,
    timers: seq<Pending>)

  const Seed: Message := Message(0, "Hey there! I'm so happy to see you! How's your day going? 💕", Ai)

  /** The state of a freshly mounted page. */
  const Start: Chat := Chat([Seed], "", false, Sweet, [])

  /** What the page keeps true while its controls are used as rendered:
      the seed first, ids equal to positions, user and companion turns
      alternating after the seed, and a reply pending exactly while the
      typing indicator shows, for the user message just sent. */
  predicate Invariant(c: Chat) {
    |c.messages| >= 1 && c.messages[0] == Seed &&
    (forall i :: 0 <= i < |c.messages| ==> c.messages[i].id == i) &&
    (forall i :: 1 <= i < |c.messages| ==> c.messages[i].sender == if i % 2 == 1 then User else Ai) &&
    (c.isTyping <==> |c.messages| % 2 == 0) &&
    |c.timers| == (if c.isTyping then 1 else 0) &&
    (c.isTyping ==>
      c.timers[0].id == |c.messages| &&
      c.timers[0].text == c.messages[|c.messages| - 1].text)
  }

  /** `handleSend`. It does not look at `isTyping`: only the `disabled`
      attributes of the input and the button keep it from running while a
      reply is pending. */
  function SendStep(c: Chat): Chat {
    if Trim(c.input) == [] then c
    else
      c.(messages := c.messages + [Message(|c.messages|, c.input, User)],
         input := "",
         isTyping := true,
         timers := c.timers + [Pending(c.input, |c.messages| + 1, c.personality)])
  }

  /** Runs scheduled callback `i`, with `k` for the random fallback index:
      it computes the reply from what the callback captured and answers. */
  function DeliverStep(c: Chat, i: nat, k: nat): Chat
    requires i < |c.timers| && k < |Responses(c.timers[i].personality)|
  {
    var t := c.timers[i];
    Answer(c, i, Reply(t.personality, t.text, k))
  }

  /** The rest of callback `i` once its reply text `r` is known: append the
      reply under the callback's id, clear `isTyping`, drop the callback. */
  function Answer(c: Chat, i: nat, r: string): Chat
    requires i < |c.timers|
  {
    c.(messages := c.messages + [Message(c.timers[i].id, r, Ai)],
       isTyping := false,
       timers := c.timers[..i] + c.timers[i + 1..])
  }

  /** The input's `onChange`. */
  function TypeStep(c: Chat, s: string): Chat {
    c.(input := s)
  }

  /** A personality button's `onClick`. */
  function PickStep(c: Chat, p: Personality): Chat {
    c.(personality := p)
  }

  // ---------------------------------------------------------------------
  // Properties of the transitions.

  lemma StartSatisfiesInvariant()
    ensures Invariant(Start)
  {
  }

  /** Sending blank input changes nothing. */
  lemma BlankSendIsNoOp(c: Chat)
    requires IsBlank(c.input)
    ensures SendStep(c) == c
  {
    TrimEmptyIffBlank(c.input);
  }

  /** Sending non-blank input appends one user message whose id is the old
      length and whose text is the input as typed, clears the input, shows the
      typing indicator and schedules one reply carrying the input, the next
      id and the current personality. */
  lemma SendAppendsUserMessage(c: Chat)
    requires !IsBlank(c.input)
    ensures var d := SendStep(c);
      d.messages == c.messages + [Message(|c.messages|, c.input, User)] &&
      d.input == "" && d.isTyping && d.personality == c.personality &&
      d.timers == c.timers + [Pending(c.input, |c.messages| + 1, c.personality)]
  {
    TrimEmptyIffBlank(c.input);
  }

  /** A send made while no reply is pending keeps the invariant. */
  lemma SendKeepsInvariant(c: Chat)
    requires Invariant(c) && !c.isTyping
    ensures Invariant(SendStep(c))
  {
    TrimEmptyIffBlank(c.input);
  }

  /** Answering the pending callback with any text `r` appends one
      companion message whose id is the user message's id plus one, turns
      the indicator off and restores the invariant. */
  lemma AnswerKeepsInvariant(c: Chat, r: string)
    requires Invariant(c) && c.isTyping
    ensures var d := Answer(c, 0, r);
      var n := |c.messages|;
      d.messages == c.messages + [Message(c.messages[n - 1].id + 1, r, Ai)] &&
      !d.isTyping && d.input == c.input && d.personality == c.personality && d.timers == [] &&
      Invariant(d)
  {
    assert c.timers[..0] + c.timers[1..] == [];
  }

  /** Delivering the pending reply answers with the reply to the text and
      the personality captured at send time. */
  lemma DeliverAnswersCapturedReply(c: Chat, k: nat)
    requires Invariant(c) && c.isTyping
    requires k < |Responses(c.timers[0].personality)|
    ensures var n := |c.messages|;
      c.timers[0].text == c.messages[n - 1].text &&
      DeliverStep(c, 0, k) == Answer(c, 0, Reply(c.timers[0].personality, c.messages[n - 1].text, k))
  {
  }

  /** Typing and picking a personality keep the invariant. */
  lemma TypeAndPickKeepInvariant(c: Chat, s: string, p: Personality)
    requires Invariant(c)
    ensures Invariant(TypeStep(c, s)) && Invariant(PickStep(c, p))
  {
  }

  /** A whole turn answered with text `r`: the user message and then the
      reply, with consecutive ids, whatever personality is picked meanwhile. */
  lemma TurnShape(c: Chat, q: Personality, r: string)
    requires Invariant(c) && !c.isTyping && !IsBlank(c.input)
    ensures var s := PickStep(SendStep(c), q);
      var n := |c.messages|;
      s.isTyping && s.timers == [Pending(c.input, n + 1, c.personality)] &&
      var d := Answer(s, 0, r);
      d.messages == c.messages + [Message(n, c.input, User), Message(n + 1, r, Ai)] &&
      d.personality == q && !d.isTyping && Invariant(d)
  {
    SendAppendsUserMessage(c);
    SendKeepsInvariant(c);
    var s := PickStep(SendStep(c), q);
    AnswerKeepsInvariant(s, r);
  }

  /** A whole turn: the reply is computed with the personality in force when
      the message was sent, even if another one is picked while it is
      pending. */
  lemma TurnUsesSendTimePersonality(c: Chat, q: Personality, k: nat)
    requires Invariant(c) && !c.isTyping && !IsBlank(c.input)
    requires k < |Responses(c.personality)|
    ensures var d := DeliverStep(PickStep(SendStep(c), q), 0, k);
      var n := |c.messages|;
      d.messages == c.messages + [Message(n, c.input, User), Message(n + 1, Reply(c.personality, c.input, k), Ai)] &&
      d.personality == q && !d.isTyping && Invariant(d)
  {
    TurnShape(c, q, Reply(c.personality, c.input, k));
  }

  /** Without the `disabled` guard, a second send while a reply is pending
      gives its user message the id already promised to the pending reply:
      once that reply arrives, two messages share an id, whatever the reply
      says. */
  lemma UnguardedSendsDuplicateIds(c: Chat, a: string, b: string, r: string)
    requires Invariant(c) && !c.isTyping && !IsBlank(a) && !IsBlank(b)
    ensures var n := |c.messages|;
      var s1 := SendStep(TypeStep(c, a));
      var s2 := SendStep(TypeStep(s1, b));
      |s2.timers| == 2 &&
      var s3 := Answer(s2, 0, r);
      |s3.messages| == n + 3 &&
      s3.messages[n + 1] == Message(n + 1, b, User) &&
      s3.messages[n + 2] == Message(n + 1, r, Ai) &&
      !Invariant(s3)
  {
    var n := |c.messages|;
    var s1 := SendStep(TypeStep(c, a));
    SendAppendsUserMessage(TypeStep(c, a));
    SendAppendsUserMessage(TypeStep(s1, b));
    var s3 := Answer(SendStep(TypeStep(s1, b)), 0, r);
    assert s3.messages[n + 2].id != n + 2;
  }

  /** The first turn from the opening screen after picking personality
      `p`, answered with text `r`: the typed text becomes message 1 and `r`
      message 2. */
  lemma FirstTurnShape(p: Personality, text: string, r: string)
    requires !IsBlank(text)
    ensures var s := SendStep(TypeStep(PickStep(Start, p), text));
      s.timers == [Pending(text, 2, p)] &&
      Answer(s, 0, r).messages == [Seed, Message(1, text, User), Message(2, r, Ai)]
  {
    var c := TypeStep(PickStep(Start, p), text);
    StartSatisfiesInvariant();
    TypeAndPickKeepInvariant(Start, text, p);
    TypeAndPickKeepInvariant(PickStep(Start, p), text, p);
    TurnShape(c, p, r);
    assert PickStep(SendStep(c), p) == SendStep(c);
  }

  /** The first turn from the opening screen after picking personality
      `p`: the typed text becomes message 1 and the reply to it under `p`
      message 2. */
  lemma FirstTurn(p: Personality, text: string, k: nat)
    requires !IsBlank(text) && k < |Responses(p)|
    ensures DeliverStep(SendStep(TypeStep(PickStep(Start, p), text)), 0, k).messages ==
      [Seed, Message(1, text, User), Message(2, Reply(p, text, k), Ai)]
  {
    var r := Reply(p, text, k);
    FirstTurnShape(p, text, r);
    var s := SendStep(TypeStep(PickStep(Start, p), text));
    assert DeliverStep(s, 0, k) == Answer(s, 0, r);
  }

  /** The first sample turn: with the default sweet personality, sending
      "I feel sad today" shows it as message 1, and the reply delivered
      after it, message 2, is the comforting line. */
  lemma SadTurn(text: string, k: nat)
    requires text == "I feel sad today" && k < |Responses(Sweet)|
    ensures DeliverStep(SendStep(TypeStep(Start, text)), 0, k).messages ==
      [Seed, Message(1, text, User), Message(2, Comfort, Ai)]
  {
    assert !IsBlank(text) by { assert !IsSpace(text[0]); }
    assert PickStep(Start, Sweet) == Start;
    FirstTurn(Sweet, text, k);
    SadTextGetsComfort(Sweet, text, k);
  }

  /** The second sample turn: after picking the playful personality,
      sending "tell me something random" matches no keyword, so the reply,
      message 2, is entry `k` of the playful list. The message is a
      parameter for the same reason as in `SadTurn`. */
  lemma PlayfulFallbackTurn(text: string, k: nat)
    requires text == "tell me something random" && k < |Responses(Playful)|
    ensures DeliverStep(SendStep(TypeStep(PickStep(Start, Playful), text)), 0, k).messages ==
      [Seed, Message(1, text, User), Message(2, Responses(Playful)[k], Ai)]
  {
    assert !IsBlank(text) by { assert !IsSpace(text[0]); }
    FirstTurn(Playful, text, k);
    RandomTextFallsBack(Playful, text, k);
  }

  // ---------------------------------------------------------------------
  // The page as an object whose fields the handlers update.

  class Session {
    var messages: seq<Message>
    var input: string
    var isTyping: bool
    var personality: Personality
    var timers: seq<Pending>

    function State(): Chat
      reads this
    {
      Chat(messages, input, isTyping, personality, timers)
    }

    predicate Valid()
      reads this
    {
      Invariant(State())
    }

    constructor ()
      ensures State() == Start && Valid()
    {
      messages := [Seed];
      input := "";
      isTyping := false;
      personality := Sweet;
      timers := [];
    }

    /** The input's `onChange`; the input is disabled while a reply is pending. */
    method Type(s: string)
      requires Valid() && !isTyping
      modifies this
      ensures State() == TypeStep(old(State()), s) && Valid()
    {
      input := s;
    }

    /** A personality button's `onClick`, allowed at any time. */
    method SetPersonality(p: Personality)
      requires Valid()
      modifies this
      ensures State() == PickStep(old(State()), p) && Valid()
    {
      personality := p;
    }

    /** `handleSend`, reachable only while the button and input are enabled. */
    method Send()
      requires Valid() && !isTyping
      modifies this
      ensures State() == SendStep(old(State())) && Valid()
    {
      ghost var before := State();
      SendKeepsInvariant(before);
      if Trim(input) == [] {
        return;
      }
      messages, input, isTyping, timers :=
        messages + [Message(|messages|, input, User)], "", true,
        timers + [Pending(input, |messages| + 1, personality)];
      assert State() == SendStep(before);
    }

    /** The pending `setTimeout` callback fires; `k` is the fallback index
        the random draw produced. */
    method Deliver(k: nat)
      requires Valid() && isTyping
      requires k < |Responses(timers[0].personality)|
      modifies this
      ensures State() == DeliverStep(old(State()), 0, k)
      ensures Valid()
    {
      ghost var before := State();
      DeliverAnswersCapturedReply(before, k);
      var callback := timers[0];
      var reply := Reply(callback.personality, callback.text, k);
      AnswerKeepsInvariant(before, reply);
      messages, isTyping, timers := messages + [Message(callback.id, reply, Ai)], false, timers[1..];
      assert timers == before.timers[..0] + before.timers[1..];
      assert State() == Answer(before, 0, reply);
      assert Invariant(State());
    }
  }
}
