/** The chat-completion request: a fixed system instruction, the persona's
    introduction, the most recent exchanges with that persona as alternating
    user/assistant turns, and the new question. */
module Messages {

  datatype Role = System | User | Assistant

  /** One role-tagged message of a chat-completion request. */
  datatype Message = Message(role: Role, content: string)

  /** One earlier question put to a persona and the answer it gave. */
  datatype Exchange = Exchange(question: string, answer: string)

  /** The instruction every request opens with. */
  const SystemInstruction := "You are simulating an investor responding in a realistic, conversational tone."

  /** How many earlier exchanges a request carries at most. */
  const MaxTurns := 4

  /** The exchanges a request carries: the oldest ones are dropped until at
      most `MaxTurns` remain. */
  function Window(history: seq<Exchange>): (recent: seq<Exchange>)
    ensures |recent| == if |history| < MaxTurns then |history| else MaxTurns
  {
    if |history| <= MaxTurns then history else Window(history[1..])
  }

  /** The window is `history[-4:]`: the last `MaxTurns` exchanges in their
      original order, or the whole history when it is shorter. */
  lemma {:induction false} WindowIsSuffix(history: seq<Exchange>)
    ensures Window(history) == history[|history| - |Window(history)|..]
    ensures |history| <= MaxTurns ==> Window(history) == history
    ensures |history| > MaxTurns ==> Window(history) == history[|history| - MaxTurns..]
  {
    if |history| > MaxTurns {
      WindowIsSuffix(history[1..]);
      assert history[1..][|history| - 1 - MaxTurns..] == history[|history| - MaxTurns..];
    }
  }

  /** The exchanges as user/assistant message pairs, oldest first. */
  function Turns(exchanges: seq<Exchange>): (turns: seq<Message>)
    ensures |turns| == 2 * |exchanges|
  {
    if exchanges == [] then []
    else
      var last := exchanges[|exchanges| - 1];
      Turns(exchanges[..|exchanges| - 1]) + [Message(User, last.question), Message(Assistant, last.answer)]
  }

  /** The request `build_messages(intro, history, new_q)` produces. */
  function Prompt(intro: string, history: seq<Exchange>, newQuestion: string): seq<Message> {
    [Message(System, SystemInstruction), Message(User, intro)]
      + Turns(Window(history))
      + [Message(User, newQuestion)]
  }

  /** `build_messages`: the message list grown step by step. */
  method BuildMessages(intro: string, history: seq<Exchange>, newQuestion: string) returns (msgs: seq<Message>)
    ensures msgs == Prompt(intro, history, newQuestion)
  {
    msgs := [Message(System, SystemInstruction), Message(User, intro)];
    var recent := Window(history);
    for i := 0 to |recent|
      invariant msgs == [Message(System, SystemInstruction), Message(User, intro)] + Turns(recent[..i])
    {
      assert recent[..i + 1][..i] == recent[..i];
      msgs := msgs + [Message(User, recent[i].question), Message(Assistant, recent[i].answer)];
    }
    assert recent[..|recent|] == recent;
    msgs := msgs + [Message(User, newQuestion)];
  }

  /** Exchange `k` becomes messages `2k` (its question, from the user) and
      `2k + 1` (its answer, from the assistant). */
  lemma {:induction false} TurnsAt(exchanges: seq<Exchange>, k: nat)
    requires k < |exchanges|
    ensures Turns(exchanges)[2 * k] == Message(User, exchanges[k].question)
    ensures Turns(exchanges)[2 * k + 1] == Message(Assistant, exchanges[k].answer)
  {
    var init := exchanges[..|exchanges| - 1];
    if k < |init| {
      TurnsAt(init, k);
      assert exchanges[k] == init[k];
    }
  }

  /** A request holds 3 messages plus two per remembered exchange, and at most
      four exchanges are remembered. */
  lemma PromptLength(intro: string, history: seq<Exchange>, newQuestion: string)
    ensures |Prompt(intro, history, newQuestion)| == 3 + 2 * (if |history| < MaxTurns then |history| else MaxTurns)
    ensures |Prompt(intro, history, newQuestion)| <= 3 + 2 * MaxTurns
  {
  }

  /** The system instruction opens the request, the persona's introduction comes
      next as a user message, and the new question closes it. */
  lemma PromptEnds(intro: string, history: seq<Exchange>, newQuestion: string)
    ensures var p := Prompt(intro, history, newQuestion);
      |p| >= 3 &&
      p[0] == Message(System, SystemInstruction) &&
      p[1] == Message(User, intro) &&
      p[|p| - 1] == Message(User, newQuestion)
  {
  }

  /** Between the introduction and the new question, pair `k` is the `k`-th of
      the last (at most four) exchanges, oldest first: its question as a user
      message at position `2 + 2k`, then its answer as an assistant message. */
  lemma PromptTurn(intro: string, history: seq<Exchange>, newQuestion: string, k: nat)
    requires k < |Window(history)|
    ensures var p, w := Prompt(intro, history, newQuestion), Window(history);
      && |p| == 3 + 2 * |w|
      && p[2 + 2 * k] == Message(User, history[|history| - |w| + k].question)
      && p[3 + 2 * k] == Message(Assistant, history[|history| - |w| + k].answer)
  {
    var p, w := Prompt(intro, history, newQuestion), Window(history);
    var t := Turns(w);
    WindowIsSuffix(history);
    TurnsAt(w, k);
    assert p[2 + 2 * k] == t[2 * k];
    assert p[3 + 2 * k] == t[2 * k + 1];
  }

  /** Positions 2 .. |p| - 2 of a request hold the turns. */
  lemma PromptMiddle(intro: string, history: seq<Exchange>, newQuestion: string)
    ensures var p, t := Prompt(intro, history, newQuestion), Turns(Window(history));
      |p| == |t| + 3 && forall i :: 0 <= i < |t| ==> p[2 + i] == t[i]
  {
  }

  /** Between the introduction and the new question, the roles alternate:
      user at even positions, assistant at odd ones. */
  lemma PromptAlternates(intro: string, history: seq<Exchange>, newQuestion: string)
    ensures var p := Prompt(intro, history, newQuestion);
      forall k :: 2 <= k < |p| - 1 ==> p[k].role == if k % 2 == 0 then User else Assistant
  {
    var t := Turns(Window(history));
    TurnsRoles(Window(history));
    PromptMiddle(intro, history, newQuestion);
    var p := Prompt(intro, history, newQuestion);
    forall k | 2 <= k < |p| - 1
      ensures p[k].role == if k % 2 == 0 then User else Assistant
    {
      assert p[2 + (k - 2)] == t[k - 2];
      assert (k - 2) % 2 == k % 2;
    }
  }

  /** Turns alternate user, assistant, user, ... */
  lemma {:induction false} TurnsRoles(exchanges: seq<Exchange>)
    ensures var t := Turns(exchanges);
      forall i :: 0 <= i < |t| ==> t[i].role == if i % 2 == 0 then User else Assistant
  {
    if exchanges != [] {
      var init := exchanges[..|exchanges| - 1];
      TurnsRoles(init);
      var t := Turns(exchanges);
      forall i | 0 <= i < |t|
        ensures t[i].role == if i % 2 == 0 then User else Assistant
      {
        var n := |init|;
        if i == 2 * n {
          assert i % 2 == 0;
        } else if i == 2 * n + 1 {
          assert i % 2 == 1;
        } else {
          assert t[i] == Turns(init)[i];
        }
      }
    }
  }

  /** Without earlier exchanges the request is the instruction, the
      introduction and the question, nothing more. */
  lemma PromptWithoutHistory(intro: string, newQuestion: string)
    ensures Prompt(intro, [], newQuestion) ==
      [Message(System, SystemInstruction), Message(User, intro), Message(User, newQuestion)]
  {
  }

  /** After one more exchange is recorded, the next request's window ends with
      it and drops the oldest exchange once four are remembered. */
  lemma WindowAfterAppend(history: seq<Exchange>, e: Exchange)
    ensures Window(history + [e]) ==
      (if |history| < MaxTurns then history else Window(history)[1..]) + [e]
  {
    var h := history + [e];
    WindowIsSuffix(history);
    WindowIsSuffix(h);
    if |history| >= MaxTurns {
      assert Window(h) == Window(history)[1..] + [e];
    }
  }
}
