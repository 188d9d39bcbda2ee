/** The conversation engine: the persona introduction, the per-persona
    question/answer history kept in the session, one question put to one
    persona, and the "Ask GPT" action that puts a question to the selected
    persona or to every listed persona in turn. */
module Conversation {
  import opened Wrappers
  import opened Text
  import opened Personas
  import opened Messages

  // ---------------------------------------------------------------------------
  // The persona introduction.
  // ---------------------------------------------------------------------------

  /** The introduction `ask_persona` sends as the first user message. */
  function Intro(p: Persona): string {
    "You are " + p.name + ", a " + Decimal(p.age) + "-year\U{2011}old " + p.occupation
      + " from " + p.location + ". " + "Your values: " + Join(p.values, ", ")
      + ". Respond as this individual."
  }

  /** The introduction names the persona and states its age, occupation,
      location and every one of its values. */
  lemma IntroMentions(p: Persona)
    ensures Contains(Intro(p), p.name)
    ensures Contains(Intro(p), Decimal(p.age))
    ensures Contains(Intro(p), p.occupation)
    ensures Contains(Intro(p), p.location)
    ensures forall k :: 0 <= k < |p.values| ==> Contains(Intro(p), p.values[k])
  {
    var age, values := Decimal(p.age), Join(p.values, ", ");
    var x1 := "You are " + p.name;
    var x2 := x1 + ", a ";
    var x3 := x2 + age;
    var x4 := x3 + "-year\U{2011}old ";
    var x5 := x4 + p.occupation;
    var x6 := x5 + " from ";
    var x7 := x6 + p.location;
    var x8 := x7 + ". ";
    var x9 := x8 + "Your values: ";
    var x10 := x9 + values;
    var x11 := x10 + ". Respond as this individual.";
    assert Intro(p) == x11;
    ContainsAtEnd("You are ", p.name);
    ContainsExtend(x1, p.name, ", a ");
    ContainsExtend(x2, p.name, age);
    ContainsAtEnd(x2, age);
    ContainsExtend(x3, p.name, "-year\U{2011}old ");
    ContainsExtend(x3, age, "-year\U{2011}old ");
    ContainsExtend(x4, p.name, p.occupation);
    ContainsExtend(x4, age, p.occupation);
    ContainsAtEnd(x4, p.occupation);
    ContainsExtend(x5, p.name, " from ");
    ContainsExtend(x5, age, " from ");
    ContainsExtend(x5, p.occupation, " from ");
    ContainsExtend(x6, p.name, p.location);
    ContainsExtend(x6, age, p.location);
    ContainsExtend(x6, p.occupation, p.location);
    ContainsAtEnd(x6, p.location);
    ContainsExtend(x7, p.name, ". ");
    ContainsExtend(x7, age, ". ");
    ContainsExtend(x7, p.occupation, ". ");
    ContainsExtend(x7, p.location, ". ");
    ContainsExtend(x8, p.name, "Your values: ");
    ContainsExtend(x8, age, "Your values: ");
    ContainsExtend(x8, p.occupation, "Your values: ");
    ContainsExtend(x8, p.location, "Your values: ");
    ContainsExtend(x9, p.name, values);
    ContainsExtend(x9, age, values);
    ContainsExtend(x9, p.occupation, values);
    ContainsExtend(x9, p.location, values);
    ContainsAtEnd(x9, values);
    ContainsExtend(x10, p.name, ". Respond as this individual.");
    ContainsExtend(x10, age, ". Respond as this individual.");
    ContainsExtend(x10, p.occupation, ". Respond as this individual.");
    ContainsExtend(x10, p.location, ". Respond as this individual.");
    ContainsExtend(x10, values, ". Respond as this individual.");
    forall k | 0 <= k < |p.values| ensures Contains(x11, p.values[k]) {
      JoinContains(p.values, ", ", k);
      ContainsWithin(x11, values, p.values[k]);
    }
  }

  // ---------------------------------------------------------------------------
  // The language-model service.
  // ---------------------------------------------------------------------------

  /** What one call to the model gives back: the (stripped) answer text, or the
      exception raised by the call. */
  datatype Reply = Answer(text: string) | Error(message: string)

  /** The hosted chat-completion service, seen from outside: the `n`-th call
      gets `script(n)`, whatever it is sent. Every behaviour of the real service
      over a session is some `script`. */
  class ChatService {
    const script: nat -> Reply
    /** Every request sent so far, oldest first. */
    var sent: seq<seq<Message>>

    constructor (script: nat -> Reply)
      ensures this.script == script && sent == []
    {
      this.script := script;
      sent := [];
    }

    /** `_ask_llm(messages)`. */
    method Complete(messages: seq<Message>) returns (reply: Reply)
      modifies this
      ensures sent == old(sent) + [messages]
      ensures reply == script(|old(sent)|)
    {
      reply := script(|sent|);
      sent := sent + [messages];
    }
  }

  // ---------------------------------------------------------------------------
  // Per-persona history.
  // ---------------------------------------------------------------------------

  /** `chat_history`: persona name to the exchanges with that persona. */
  type History = map<string, seq<Exchange>>

  /** `chat_history.get(name, [])`. */
  function HistoryOf(h: History, name: string): seq<Exchange> {
    if name in h then h[name] else []
  }

  /** `chat_history.setdefault(name, []).append(e)`. */
  function Record(h: History, name: string, e: Exchange): History {
    h[name := HistoryOf(h, name) + [e]]
  }

  /** Recording an exchange gives the persona a list if it had none and
      appends the exchange at the end of that list. */
  lemma RecordEffect(h: History, name: string, e: Exchange)
    ensures name in Record(h, name, e)
    ensures HistoryOf(Record(h, name, e), name) == HistoryOf(h, name) + [e]
  {
  }

  /** Recording an exchange for one persona leaves every other persona's list,
      and whether it has one, untouched. */
  lemma RecordKeepsOthers(h: History, name: string, e: Exchange, other: string)
    requires other != name
    ensures other in Record(h, name, e) <==> other in h
    ensures HistoryOf(Record(h, name, e), other) == HistoryOf(h, other)
  {
  }

  /** Calls `start`, ..., `start + k - 1` all answered. */
  ghost predicate AnsweredFrom(script: nat -> Reply, start: nat, k: nat) {
    forall j :: start <= j < start + k ==> script(j).Answer?
  }

  /** One more answered call extends a run of answered calls. */
  lemma AnsweredStep(script: nat -> Reply, start: nat, k: nat)
    requires AnsweredFrom(script, start, k) && script(start + k).Answer?
    ensures AnsweredFrom(script, start, k + 1)
  {
  }

  /** The history after the first `k` personas of `ts` have each been asked
      `question`, call `start + j` answering persona `j`. */
  ghost function HistoryAfter(h: History, ts: seq<Persona>, question: string,
                              script: nat -> Reply, start: nat, k: nat): History
    requires k <= |ts| && AnsweredFrom(script, start, k)
  {
    if k == 0 then h
    else
      Record(HistoryAfter(h, ts, question, script, start, k - 1),
             ts[k - 1].name, Exchange(question, script(start + k - 1).text))
  }

  /** How many of the first `k` personas of `ts` are named `name`. */
  function Occurrences(ts: seq<Persona>, name: string, k: nat): nat
    requires k <= |ts|
  {
    if k == 0 then 0 else Occurrences(ts, name, k - 1) + (if ts[k - 1].name == name then 1 else 0)
  }

  /** Histories only grow: each persona's earlier exchanges are kept as a prefix,
      and it gains one exchange per time it was asked. */
  lemma {:induction false} HistoryAfterGrows(h: History, ts: seq<Persona>, question: string,
                                             script: nat -> Reply, start: nat, k: nat, name: string)
    requires k <= |ts| && AnsweredFrom(script, start, k)
    ensures var after := HistoryAfter(h, ts, question, script, start, k);
      && HistoryOf(h, name) <= HistoryOf(after, name)
      && |HistoryOf(after, name)| == |HistoryOf(h, name)| + Occurrences(ts, name, k)
  {
    if k > 0 {
      var before := HistoryAfter(h, ts, question, script, start, k - 1);
      var e := Exchange(question, script(start + k - 1).text);
      HistoryAfterGrows(h, ts, question, script, start, k - 1, name);
      assert HistoryAfter(h, ts, question, script, start, k) == Record(before, ts[k - 1].name, e);
      if ts[k - 1].name == name {
        RecordEffect(before, name, e);
      } else {
        RecordKeepsOthers(before, ts[k - 1].name, e, name);
      }
    }
  }

  /** A persona has a history list after asking a run of personas exactly when
      it had one before or was among the personas asked. */
  lemma {:induction false} HistoryAfterKeys(h: History, ts: seq<Persona>, question: string,
                                            script: nat -> Reply, start: nat, k: nat, name: string)
    requires k <= |ts| && AnsweredFrom(script, start, k)
    ensures name in HistoryAfter(h, ts, question, script, start, k) <==>
      name in h || exists j :: 0 <= j < k && ts[j].name == name
  {
    if k > 0 {
      var before := HistoryAfter(h, ts, question, script, start, k - 1);
      var e := Exchange(question, script(start + k - 1).text);
      HistoryAfterKeys(h, ts, question, script, start, k - 1, name);
      assert HistoryAfter(h, ts, question, script, start, k) == Record(before, ts[k - 1].name, e);
      if ts[k - 1].name == name {
        RecordEffect(before, name, e);
      } else {
        RecordKeepsOthers(before, ts[k - 1].name, e, name);
      }
      if exists j :: 0 <= j < k && ts[j].name == name {
        var j :| 0 <= j < k && ts[j].name == name;
        if j < k - 1 {
          assert exists j' :: 0 <= j' < k - 1 && ts[j'].name == name;
        }
      }
    }
  }

  /** Personas with pairwise different names. */
  ghost predicate DistinctNames(ts: seq<Persona>) {
    forall i, j :: 0 <= i < j < |ts| ==> ts[i].name != ts[j].name
  }

  /** A persona whom none of the personas `m .. k-1` of `ts` is named after
      gains nothing while they are asked. */
  lemma {:induction false} UnaskedSince(h: History, ts: seq<Persona>, question: string,
                                        script: nat -> Reply, start: nat, m: nat, k: nat, name: string)
    requires m <= k <= |ts| && AnsweredFrom(script, start, k)
    requires forall j :: m <= j < k ==> ts[j].name != name
    ensures HistoryOf(HistoryAfter(h, ts, question, script, start, k), name) ==
      HistoryOf(HistoryAfter(h, ts, question, script, start, m), name)
    decreases k - m
  {
    if m < k {
      UnaskedSince(h, ts, question, script, start, m, k - 1, name);
      RecordKeepsOthers(HistoryAfter(h, ts, question, script, start, k - 1), ts[k - 1].name,
                        Exchange(question, script(start + k - 1).text), name);
    }
  }

  /** A persona that none of the first `k` asked personas is named after keeps
      its history. */
  lemma NeverAsked(h: History, ts: seq<Persona>, question: string,
                   script: nat -> Reply, start: nat, k: nat, name: string)
    requires k <= |ts| && AnsweredFrom(script, start, k)
    requires forall i :: 0 <= i < k ==> ts[i].name != name
    ensures HistoryOf(HistoryAfter(h, ts, question, script, start, k), name) == HistoryOf(h, name)
  {
    UnaskedSince(h, ts, question, script, start, 0, k, name);
  }

  /** A persona asked once, as persona `i < k`, has gained exactly its own
      answer once the first `k` personas were asked. */
  lemma AskedEarlier(h: History, ts: seq<Persona>, question: string,
                     script: nat -> Reply, start: nat, k: nat, i: nat)
    requires i < k <= |ts| && AnsweredFrom(script, start, k)
    requires forall j :: 0 <= j < k && j != i ==> ts[j].name != ts[i].name
    ensures HistoryOf(HistoryAfter(h, ts, question, script, start, k), ts[i].name) ==
      HistoryOf(h, ts[i].name) + [Exchange(question, script(start + i).text)]
  {
    var name := ts[i].name;
    NeverAsked(h, ts, question, script, start, i, name);
    RecordEffect(HistoryAfter(h, ts, question, script, start, i), name, Exchange(question, script(start + i).text));
    UnaskedSince(h, ts, question, script, start, i + 1, k, name);
  }

  /** With distinct names, persona `i` of `ts` has gained exactly its own answer
      once the first `k` personas were asked, if `i < k`, and nothing otherwise. */
  lemma AskedOnce(h: History, ts: seq<Persona>, question: string,
                  script: nat -> Reply, start: nat, k: nat, i: nat)
    requires DistinctNames(ts)
    requires k <= |ts| && AnsweredFrom(script, start, k) && i < |ts|
    ensures HistoryOf(HistoryAfter(h, ts, question, script, start, k), ts[i].name) ==
      HistoryOf(h, ts[i].name) + (if i < k then [Exchange(question, script(start + i).text)] else [])
  {
    if k <= i {
      NeverAsked(h, ts, question, script, start, k, ts[i].name);
      assert HistoryOf(h, ts[i].name) + [] == HistoryOf(h, ts[i].name);
    } else {
      AskedEarlier(h, ts, question, script, start, k, i);
    }
  }

  /** When "ask all" stops after `k` answered calls (because call `k` failed, or
      because every persona was asked), each of the first `k` personas has
      gained exactly its own answer, and every other persona's history is as
      before. */
  lemma AskedPrefixOnly(h: History, ts: seq<Persona>, question: string,
                        script: nat -> Reply, start: nat, k: nat)
    requires DistinctNames(ts)
    requires k <= |ts| && AnsweredFrom(script, start, k)
    ensures var after := HistoryAfter(h, ts, question, script, start, k);
      forall i :: 0 <= i < k ==>
        HistoryOf(after, ts[i].name) == HistoryOf(h, ts[i].name) + [Exchange(question, script(start + i).text)]
    ensures var after := HistoryAfter(h, ts, question, script, start, k);
      forall i :: k <= i < |ts| ==> HistoryOf(after, ts[i].name) == HistoryOf(h, ts[i].name)
    ensures var after := HistoryAfter(h, ts, question, script, start, k);
      forall n :: (forall i :: 0 <= i < |ts| ==> ts[i].name != n) ==> HistoryOf(after, n) == HistoryOf(h, n)
  {
    forall i | 0 <= i < |ts| {
      AskedOnce(h, ts, question, script, start, k, i);
    }
    forall n | forall i :: 0 <= i < |ts| ==> ts[i].name != n {
      NeverAsked(h, ts, question, script, start, k, n);
    }
  }

  // ---------------------------------------------------------------------------
  // The session.
  // ---------------------------------------------------------------------------

  /** What pressing "Ask GPT" shows: a warning for a blank question or a missing
      selection, nothing more when every call answered, or the error of the
      call that failed. */
  datatype AskOutcome = BlankQuestion | NoPersonaSelected | Answered | Failed(error: string)

  /** The request sent to persona `i` of a round: its introduction, its history
      as it stands after the personas before it were asked, and the question. */
  ghost function RoundPrompt(h0: History, ts: seq<Persona>, question: string,
                             script: nat -> Reply, start: nat, i: nat): seq<Message>
    requires i < |ts| && AnsweredFrom(script, start, i)
  {
    Prompt(Intro(ts[i]), HistoryOf(HistoryAfter(h0, ts, question, script, start, i), ts[i].name), question)
  }

  /** The requests sent during a round in which the first `k` personas of
      `ts` have been asked, `sent0` having been sent before it: the earlier
      requests untouched, then one request per persona asked, in order, each
      carrying that persona's history as it stood just before its call. */
  ghost predicate SentSoFar(h0: History, sent0: seq<seq<Message>>, ts: seq<Persona>, question: string,
                            script: nat -> Reply, k: nat, sent: seq<seq<Message>>)
    requires k <= |ts| && AnsweredFrom(script, |sent0|, k)
  {
    && |sent| == |sent0| + k
    && sent[..|sent0|] == sent0
    && forall j :: |sent0| <= j < |sent| ==> sent[j] == RoundPrompt(h0, ts, question, script, |sent0|, j - |sent0|)
  }

  /** Sending persona `k`'s request, once its call has answered, extends the
      requests of the round by one. */
  lemma SentExtend(h0: History, sent0: seq<seq<Message>>, ts: seq<Persona>, question: string,
                   script: nat -> Reply, k: nat, sent: seq<seq<Message>>)
    requires k < |ts| && AnsweredFrom(script, |sent0|, k + 1)
    requires SentSoFar(h0, sent0, ts, question, script, k, sent)
    ensures SentSoFar(h0, sent0, ts, question, script, k + 1,
                      sent + [RoundPrompt(h0, ts, question, script, |sent0|, k)])
  {
    var next := sent + [RoundPrompt(h0, ts, question, script, |sent0|, k)];
    assert next[..|sent0|] == sent[..|sent0|];
    forall j | |sent0| <= j < |next|
      ensures next[j] == RoundPrompt(h0, ts, question, script, |sent0|, j - |sent0|)
    {
      if j < |sent| {
        assert next[j] == sent[j];
      }
    }
  }

  /** How a round of asking the personas `ts` in turn ended, the history having
      been `h0` and the requests sent `sent0` before it: the first `answered`
      calls answered and each added its exchange to its persona's history and,
      if a persona is left, the call after them was sent, failed and its error
      is the outcome; nothing else was sent or recorded. */
  ghost predicate Round(h0: History, sent0: seq<seq<Message>>, ts: seq<Persona>, question: string,
                        script: nat -> Reply, answered: nat, outcome: AskOutcome,
                        sent: seq<seq<Message>>, h: History)
  {
    var start := |sent0|;
    && answered <= |ts|
    && AnsweredFrom(script, start, answered)
    && h == HistoryAfter(h0, ts, question, script, start, answered)
    && if answered < |ts| then
         && script(start + answered).Error?
         && outcome == Failed(script(start + answered).message)
         && |sent| > 0
         && SentSoFar(h0, sent0, ts, question, script, answered, sent[..|sent| - 1])
         && sent[|sent| - 1] == RoundPrompt(h0, ts, question, script, start, answered)
       else
         && outcome == Answered
         && SentSoFar(h0, sent0, ts, question, script, answered, sent)
  }

  /** The personas of the listed entries, in order. */
  function PersonasOf(filtered: seq<Entry>): (ps: seq<Persona>)
    ensures |ps| == |filtered| && forall i :: 0 <= i < |ps| ==> ps[i] == filtered[i].persona
  {
    if filtered == [] then [] else PersonasOf(filtered[..|filtered| - 1]) + [filtered[|filtered| - 1].persona]
  }

  /** The personas one press of "Ask GPT" is meant to ask, in order. */
  function Targets(askAll: bool, filtered: seq<Entry>, selected: Option<Persona>): (ts: seq<Persona>)
    ensures askAll ==> |ts| == |filtered| && forall i :: 0 <= i < |ts| ==> ts[i] == filtered[i].persona
    ensures !askAll ==> ts == if selected.Some? then [selected.value] else []
  {
    if askAll then PersonasOf(filtered)
    else if selected.Some? then [selected.value]
    else []
  }

  /** The interactive session's state: the conversation history per persona. */
  class Session {
    var chatHistory: History

    constructor ()
      ensures chatHistory == map[]
    {
      chatHistory := map[];
    }

    /** `ask_persona`: builds the request from the persona's introduction and
        its history so far, calls the model, and only when the call answers
        appends the exchange to that persona's history. */
    method AskPersona(persona: Persona, question: string, llm: ChatService) returns (reply: Reply)
      modifies this, llm
      ensures llm.sent == old(llm.sent) + [Prompt(Intro(persona), HistoryOf(old(chatHistory), persona.name), question)]
      ensures reply == llm.script(|old(llm.sent)|)
      ensures chatHistory == if reply.Answer? then Record(old(chatHistory), persona.name, Exchange(question, reply.text))
                             else old(chatHistory)
    {
      var intro := Intro(persona);
      var hist := HistoryOf(chatHistory, persona.name);
      var messages := BuildMessages(intro, hist, question);
      reply := llm.Complete(messages);
      if reply.Answer? {
        chatHistory := chatHistory[persona.name := HistoryOf(chatHistory, persona.name) + [Exchange(question, reply.text)]];
      }
    }

    /** One pass of the "ask all" loop, asking persona `k` of the round `ts`:
        the round either grows by one answered call or ends with the error of
        this call. */
    method AskNext(persona: Persona, question: string, llm: ChatService, ghost h0: History,
                   ghost sent0: seq<seq<Message>>, ghost ts: seq<Persona>, ghost k: nat)
      returns (reply: Reply)
      requires k < |ts| && persona == ts[k] && AnsweredFrom(llm.script, |sent0|, k)
      requires |llm.sent| == |sent0| + k && SentSoFar(h0, sent0, ts, question, llm.script, k, llm.sent)
      requires chatHistory == HistoryAfter(h0, ts, question, llm.script, |sent0|, k)
      modifies this, llm
      ensures reply.Answer? ==>
        && AnsweredFrom(llm.script, |sent0|, k + 1)
        && |llm.sent| == |sent0| + k + 1
        && SentSoFar(h0, sent0, ts, question, llm.script, k + 1, llm.sent)
        && chatHistory == HistoryAfter(h0, ts, question, llm.script, |sent0|, k + 1)
      ensures reply.Error? ==>
        Round(h0, sent0, ts, question, llm.script, k, Failed(reply.message), llm.sent, chatHistory)
    {
      ghost var sentBefore := llm.sent;
      reply := AskPersona(persona, question, llm);
      assert llm.sent == sentBefore + [RoundPrompt(h0, ts, question, llm.script, |sent0|, k)];
      assert llm.sent[..|llm.sent| - 1] == sentBefore;
      if reply.Answer? {
        AnsweredStep(llm.script, |sent0|, k);
        SentExtend(h0, sent0, ts, question, llm.script, k, sentBefore);
      }
    }

    /** The "ask all" loop: the listed personas are asked one after another
        and the first failed call ends the round. */
    method AskAll(question: string, filtered: seq<Entry>, llm: ChatService)
      returns (outcome: AskOutcome, answered: nat)
      modifies this, llm
      ensures Round(old(chatHistory), old(llm.sent), Targets(true, filtered, None), question, llm.script,
                    answered, outcome, llm.sent, chatHistory)
    {
      ghost var h0, sent0 := chatHistory, llm.sent;
      ghost var ts := Targets(true, filtered, None);
      answered := 0;
      while answered < |filtered|
        invariant answered <= |filtered| && AnsweredFrom(llm.script, |sent0|, answered)
        invariant |llm.sent| == |sent0| + answered
        invariant SentSoFar(h0, sent0, ts, question, llm.script, answered, llm.sent)
        invariant chatHistory == HistoryAfter(h0, ts, question, llm.script, |sent0|, answered)
      {
        var reply := AskNext(filtered[answered].persona, question, llm, h0, sent0, ts, answered);
        if reply.Error? {
          outcome := Failed(reply.message);
          return;
        }
        answered := answered + 1;
      }
      outcome := Answered;
    }

    /** The "Ask GPT" action. A blank question asks nobody; in "ask all" mode
        every listed persona is asked in turn, otherwise the selected one, and a
        missing selection asks nobody. */
    method Ask(question: string, askAll: bool, filtered: seq<Entry>, selected: Option<Persona>, llm: ChatService)
      returns (outcome: AskOutcome, answered: nat)
      modifies this, llm
      ensures Strip(question) == [] ==> outcome == BlankQuestion
      ensures Strip(question) != [] && !askAll && selected.None? ==> outcome == NoPersonaSelected
      ensures outcome == BlankQuestion || outcome == NoPersonaSelected ==>
        answered == 0 && chatHistory == old(chatHistory) && llm.sent == old(llm.sent)
      ensures Strip(question) != [] && (askAll || selected.Some?) ==>
        Round(old(chatHistory), old(llm.sent), Targets(askAll, filtered, selected), question, llm.script,
              answered, outcome, llm.sent, chatHistory)
    {
      if Strip(question) == [] {
        outcome, answered := BlankQuestion, 0;
        return;
      }
      if askAll {
        outcome, answered := AskAll(question, filtered, llm);
      } else {
        if selected.None? {
          outcome, answered := NoPersonaSelected, 0;
          return;
        }
        ghost var start := |llm.sent|;
        var reply := AskPersona(selected.value, question, llm);
        if reply.Error? {
          outcome, answered := Failed(reply.message), 0;
        } else {
          outcome, answered := Answered, 1;
        }
        assert llm.sent[..|llm.sent| - 1] == old(llm.sent);
      }
    }
  }
}
