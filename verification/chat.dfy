/** The chat widget's conversation: a transcript, the input box, the
    typing indicator, and the replies whose timers have not fired yet.
    Sending appends the user's text at once and schedules a reply; each
    timer later appends the matcher's answer to the text it was scheduled
    with. Nothing stops a second send while a reply is pending. */
module Chat {
  import opened Opt
  import opened Text
  import opened Faq

  datatype Role = User | Assistant

  /** `id` is the clock reading the widget stamps on the message; it is
      supplied by the caller and need not be unique. */
  datatype Message = Message(id: string, content: string, role: Role)

  /** `pending` holds the submitted texts of the scheduled replies, oldest
      first: the timers share one delay, so they fire in the order they
      were set. */
  datatype ChatState = ChatState(messages: seq<Message>, input: string, isTyping: bool, pending: seq<string>)

  const GreetingText := "Hi there! How can I help you with software license reselling today?"

  const Greeting := Message("1", GreetingText, Assistant)

  /** The widget as mounted: the greeting alone, an empty input box. */
  const Initial := ChatState([Greeting], "", false, [])

  /** The input box's change handler. */
  function Edit(s: ChatState, value: string): (t: ChatState)
    ensures t.input == value
    ensures t.messages == s.messages && t.isTyping == s.isTyping && t.pending == s.pending
  {
    s.(input := value)
  }

  /** `handleSendMessage`: a blank input is ignored; otherwise the raw text
      (not trimmed) is appended as a user message, the box is cleared, the
      indicator set and a reply scheduled for that text. */
  function Send(s: ChatState, id: string): (t: ChatState)
    ensures IsBlank(s.input) ==> t == s
    ensures !IsBlank(s.input) ==>
      && t.messages == s.messages + [Message(id, s.input, User)]
      && t.input == "" && t.isTyping
      && t.pending == s.pending + [s.input]
  {
    TrimSpec(s.input);
    if Trim(s.input) == "" then s
    else ChatState(s.messages + [Message(id, s.input, User)], "", true, s.pending + [s.input])
  }

  /** The oldest reply timer fires: the answer to its text is appended and
      the indicator cleared, even when later replies are still pending. */
  function Reply(s: ChatState, id: string): (t: ChatState)
    requires s.pending != []
    ensures t.messages == s.messages + [Message(id, GetResponse(s.pending[0]), Assistant)]
    ensures !t.isTyping && t.input == s.input && t.pending == s.pending[1..]
  {
    ChatState(s.messages + [Message(id, GetResponse(s.pending[0]), Assistant)], s.input, false, s.pending[1..])
  }

  /** What can happen to the widget. */
  datatype Event = Type(value: string) | Submit(id: string) | TimerFires(id: string)

  /** One event; a timer can only fire while a reply is pending. */
  function Step(s: ChatState, e: Event): (r: Option<ChatState>)
    ensures r.None? <==> e.TimerFires? && s.pending == []
    ensures r.Some? ==> s.messages <= r.value.messages
  {
    match e
    case Type(v) => Some(Edit(s, v))
    case Submit(id) => Some(Send(s, id))
    case TimerFires(id) => if s.pending == [] then None else Some(Reply(s, id))
  }

  /** A sequence of events, or None if some timer fires with none pending. */
  function Run(s: ChatState, events: seq<Event>): Option<ChatState>
    decreases |events|
  {
    if events == [] then Some(s)
    else match Step(s, events[0])
      case None => None
      case Some(t) => Run(t, events[1..])
  }

  lemma RunFirst(s: ChatState, events: seq<Event>)
    requires events != [] && Step(s, events[0]).Some?
    ensures Run(s, events) == Run(Step(s, events[0]).value, events[1..])
  {
  }

  /** The transcript only grows: every state's messages are a prefix of the
      messages of any state reached from it. */
  lemma {:induction false} RunAppendOnly(s: ChatState, events: seq<Event>)
    requires Run(s, events).Some?
    ensures s.messages <= Run(s, events).value.messages
    decreases |events|
  {
    if events != [] {
      var t := Step(s, events[0]).value;
      RunAppendOnly(t, events[1..]);
    }
  }

  /** The contents of the user messages, in order. */
  function UserTexts(ms: seq<Message>): seq<string> {
    if ms == [] then []
    else UserTexts(ms[..|ms| - 1]) + (if ms[|ms| - 1].role == User then [ms[|ms| - 1].content] else [])
  }

  /** The contents of the assistant messages, in order. */
  function AssistantTexts(ms: seq<Message>): seq<string> {
    if ms == [] then []
    else AssistantTexts(ms[..|ms| - 1]) + (if ms[|ms| - 1].role == Assistant then [ms[|ms| - 1].content] else [])
  }

  lemma UserTextsAppend(ms: seq<Message>, m: Message)
    ensures UserTexts(ms + [m]) == UserTexts(ms) + (if m.role == User then [m.content] else [])
  {
    assert (ms + [m])[..|ms|] == ms;
  }

  lemma AssistantTextsAppend(ms: seq<Message>, m: Message)
    ensures AssistantTexts(ms + [m]) == AssistantTexts(ms) + (if m.role == Assistant then [m.content] else [])
  {
    assert (ms + [m])[..|ms|] == ms;
  }

  /** The matcher's answers to `questions`, in order. */
  function Answers(questions: seq<string>): (r: seq<string>)
    ensures |r| == |questions|
  {
    if questions == [] then [] else Answers(questions[..|questions| - 1]) + [GetResponse(questions[|questions| - 1])]
  }

  lemma AnswersAppend(questions: seq<string>, q: string)
    ensures Answers(questions + [q]) == Answers(questions) + [GetResponse(q)]
  {
    assert (questions + [q])[..|questions|] == questions;
  }

  /** The questions asked, the assistant texts shown and the questions
      still waiting agree: the waiting ones are the last questions asked,
      and the assistant texts are the greeting followed by the answers to
      all earlier questions, in the order they were asked. */
  ghost predicate Conversation(questions: seq<string>, shown: seq<string>, waiting: seq<string>) {
    && |waiting| <= |questions|
    && questions[|questions| - |waiting|..] == waiting
    && shown == [GreetingText] + Answers(questions[..|questions| - |waiting|])
  }

  ghost predicate AllNonBlank(texts: seq<string>) {
    forall i :: 0 <= i < |texts| ==> !IsBlank(texts[i])
  }

  /** What every reachable state satisfies: the greeting opens the
      transcript, questions and answers agree as above, no user message is
      blank, and the indicator is on only while some reply is pending. */
  ghost predicate Valid(s: ChatState) {
    && |s.messages| > 0 && s.messages[0] == Greeting
    && Conversation(UserTexts(s.messages), AssistantTexts(s.messages), s.pending)
    && AllNonBlank(UserTexts(s.messages))
    && (s.isTyping ==> s.pending != [])
  }

  /** Asking a question adds it at the end of both the asked and the
      waiting questions. */
  lemma ConversationAsk(questions: seq<string>, shown: seq<string>, waiting: seq<string>, q: string)
    requires Conversation(questions, shown, waiting)
    ensures Conversation(questions + [q], shown, waiting + [q])
  {
    var k := |questions| - |waiting|;
    assert (questions + [q])[k..] == questions[k..] + [q];
    assert (questions + [q])[..k] == questions[..k];
  }

  /** Answering the oldest waiting question appends its answer. */
  lemma ConversationAnswer(questions: seq<string>, shown: seq<string>, waiting: seq<string>)
    requires Conversation(questions, shown, waiting) && waiting != []
    ensures Conversation(questions, shown + [GetResponse(waiting[0])], waiting[1..])
  {
    var k := |questions| - |waiting|;
    assert questions[k] == waiting[0] by {
      assert questions[k..][0] == questions[k];
    }
    assert questions[k + 1..] == waiting[1..] by {
      assert questions[k..][1..] == questions[k + 1..];
    }
    assert questions[..k + 1] == questions[..k] + [waiting[0]];
    AnswersAppend(questions[..k], waiting[0]);
  }

  lemma ValidInitial()
    ensures Valid(Initial)
  {
    assert [Greeting][..0] == [];
  }

  /** Editing the input box keeps the invariant. */
  lemma EditValid(s: ChatState, value: string)
    requires Valid(s)
    ensures Valid(Edit(s, value))
  {
  }

  /** Sending keeps the invariant: the new text is both the last user text
      and the last pending one, and no answer changes. */
  lemma SendValid(s: ChatState, id: string)
    requires Valid(s)
    ensures Valid(Send(s, id))
  {
    if !IsBlank(s.input) {
      var t := Send(s, id);
      var m := Message(id, s.input, User);
      assert t.messages == s.messages + [m];
      UserTextsAppend(s.messages, m);
      AssistantTextsAppend(s.messages, m);
      var users := UserTexts(s.messages);
      assert UserTexts(t.messages) == users + [s.input];
      assert AssistantTexts(t.messages) == AssistantTexts(s.messages);
      ConversationAsk(users, AssistantTexts(s.messages), s.pending, s.input);
      NonBlankAppend(users, s.input);
      assert t.messages[0] == Greeting;
    }
  }

  lemma NonBlankAppend(texts: seq<string>, text: string)
    requires AllNonBlank(texts) && !IsBlank(text)
    ensures AllNonBlank(texts + [text])
  {
    forall i | 0 <= i < |texts| + 1 ensures !IsBlank((texts + [text])[i]) {
      if i < |texts| {
        assert (texts + [text])[i] == texts[i];
      }
    }
  }

  /** A reply keeps the invariant: the oldest pending text is the first
      unanswered user text, and its answer is appended after the others. */
  lemma ReplyValid(s: ChatState, id: string)
    requires Valid(s) && s.pending != []
    ensures Valid(Reply(s, id))
  {
    var t := Reply(s, id);
    var m := Message(id, GetResponse(s.pending[0]), Assistant);
    assert t.messages == s.messages + [m];
    UserTextsAppend(s.messages, m);
    AssistantTextsAppend(s.messages, m);
    var users := UserTexts(s.messages);
    assert UserTexts(t.messages) == users;
    assert AssistantTexts(t.messages) == AssistantTexts(s.messages) + [GetResponse(s.pending[0])];
    ConversationAnswer(users, AssistantTexts(s.messages), s.pending);
    assert t.messages[0] == Greeting;
  }

  lemma StepValid(s: ChatState, e: Event)
    requires Valid(s) && Step(s, e).Some?
    ensures Valid(Step(s, e).value)
  {
    match e
    case Type(v) => EditValid(s, v);
    case Submit(id) => SendValid(s, id);
    case TimerFires(id) => ReplyValid(s, id);
  }

  /** Every state the widget can reach from mounting satisfies the
      invariant. */
  lemma {:induction false} RunValid(s: ChatState, events: seq<Event>)
    requires Valid(s) && Run(s, events).Some?
    ensures Valid(Run(s, events).value)
    decreases |events|
  {
    if events != [] {
      StepValid(s, events[0]);
      RunValid(Step(s, events[0]).value, events[1..]);
    }
  }

  /** With nothing pending, every question asked has been answered, in
      order, after the greeting. */
  lemma {:induction false} SettledTranscript(events: seq<Event>)
    requires Run(Initial, events).Some? && Run(Initial, events).value.pending == []
    ensures var s := Run(Initial, events).value;
      AssistantTexts(s.messages) == [GreetingText] + Answers(UserTexts(s.messages))
  {
    ValidInitial();
    RunValid(Initial, events);
    SettledValid(Run(Initial, events).value);
  }

  lemma SettledValid(s: ChatState)
    requires Valid(s) && s.pending == []
    ensures AssistantTexts(s.messages) == [GreetingText] + Answers(UserTexts(s.messages))
  {
    var users := UserTexts(s.messages);
    assert users[..|users| - 0] == users;
  }

  /** From a settled state, a send followed by its timer leaves the raw
      question and then its answer at the end of the transcript, with the
      input box empty and nothing pending. */
  lemma SendThenReply(s: ChatState, id1: string, id2: string)
    requires s.pending == [] && !IsBlank(s.input)
    ensures var r := Run(s, [Submit(id1), TimerFires(id2)]);
      && r.Some?
      && r.value.messages == s.messages + [Message(id1, s.input, User), Message(id2, GetResponse(s.input), Assistant)]
      && r.value.input == "" && !r.value.isTyping && r.value.pending == []
  {
    var events := [Submit(id1), TimerFires(id2)];
    var s1 := Send(s, id1);
    RunFirst(s, events);
    RunFirst(s1, events[1..]);
    assert events[1..][1..] == [];
  }

  /** Two questions sent back to back from a settled state: the first
      reply turns the indicator off while the second reply is still
      pending. */
  lemma IndicatorClearsEarly(s: ChatState, a: string, b: string, id1: string, id2: string, id3: string)
    requires s.pending == [] && !IsBlank(a) && !IsBlank(b)
    ensures var r := Run(s, [Type(a), Submit(id1), Type(b), Submit(id2), TimerFires(id3)]);
      r.Some? && !r.value.isTyping && r.value.pending == [b]
  {
    var events := [Type(a), Submit(id1), Type(b), Submit(id2), TimerFires(id3)];
    var s1 := Edit(s, a);
    var s2 := Send(s1, id1);
    var s3 := Edit(s2, b);
    var s4 := Send(s3, id2);
    var s5 := Reply(s4, id3);
    RunFirst(s, events);
    RunFirst(s1, events[1..]);
    RunFirst(s2, events[2..]);
    RunFirst(s3, events[3..]);
    RunFirst(s4, events[4..]);
    assert events[1..][1..] == events[2..];
    assert events[2..][1..] == events[3..];
    assert events[3..][1..] == events[4..];
    assert events[4..][1..] == [];
  }
}
