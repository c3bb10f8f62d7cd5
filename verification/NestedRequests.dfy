/** Which reply a request of the server gets. The server's activities may be
    nested: while one waits for a reply, a request of the client is performed that
    asks something itself. Replies come back in the order of asking, and the
    innermost activity takes the next one. */
module NestedRequests {
  import opened EventProtocol
  import opened Options

  /** What an activity has waited for, and what it got. */
  datatype Answer = Answer(awaited: nat, got: nat)

  /** The machine with its server requests numbered in the order of asking:
      `toClient` are those on their way, `toServer` those whose replies are on the
      way back, `waiting` those of the waiting activities, the innermost last. */
  datatype Numbered = Numbered(x: System, asked: nat, toClient: seq<nat>, toServer: seq<nat>, waiting: seq<nat>,
                               answers: seq<Answer>)

  /** The client handles a server request in this step. */
  ghost predicate Answers(x: System, step: Step) {
    && (step.ClientReceive? || (step.ClientGet? && !x.c.hasPending && x.c.poll))
    && x.s2c != [] && x.s2c[0].ServerRequest?
  }

  /** The server takes a reply in this step. */
  ghost predicate TakesReply(x: System, step: Step) {
    step.ServerReceive? && x.c2s != [] && x.c2s[0].Ok? && x.s.frames != []
  }

  /** One step with the numbers. The channels keep the order, so the first number
      goes with the first packet of its kind. */
  ghost function DoNumbered(n: Numbered, step: Step): Numbered
    requires Enabled(n.x, step)
  {
    var y := n.(x := Do(n.x, step));
    if step.ServerAsk? then
      y.(asked := n.asked + 1, toClient := n.toClient + [n.asked], waiting := n.waiting + [n.asked])
    else if Answers(n.x, step) && n.toClient != [] then
      y.(toClient := n.toClient[1..], toServer := n.toServer + [n.toClient[0]])
    else if TakesReply(n.x, step) && n.toServer != [] && n.waiting != [] then
      var last := |n.waiting| - 1;
      y.(toServer := n.toServer[1..], waiting := n.waiting[..last],
          answers := n.answers + [Answer(n.waiting[last], n.toServer[0])])
    else y
  }

  ghost function AfterNumbered(n: Numbered, run: seq<Step>): Numbered
    requires Possible(n.x, run)
    decreases |run|
  {
    if run == [] then n else AfterNumbered(DoNumbered(n, run[0]), run[1..])
  }

  ghost function Start(x: System): Numbered {
    Numbered(x, 0, [], [], [], [])
  }

  /** The requests without a reply so far, in the order of asking. */
  ghost function Pending(n: Numbered): seq<nat> {
    n.toServer + n.toClient
  }

  /** The numbers agree with the packets and the activities: there is one number
      for each packet, and each waiting activity has asked one request. Replies
      are taken in the order of asking. */
  ghost predicate NumbersAgree(n: Numbered) {
    && Inv(n.x)
    && |n.toClient| == AsksIn(n.x.s2c) && |n.toServer| == |RepliesIn(n.x.c2s)|
    && |n.waiting| == |Pending(n)| && n.asked == |n.answers| + |Pending(n)|
    && (forall k | 0 <= k < |Pending(n)| :: Pending(n)[k] == |n.answers| + k)
    && (forall k | 0 <= k < |n.answers| :: n.answers[k].got == k)
  }

  /** Every activity got the reply to its own request. */
  ghost predicate OwnReplies(n: Numbered) {
    forall k | 0 <= k < |n.answers| :: n.answers[k].awaited == n.answers[k].got
  }

  /** Whenever the server takes a reply, only one activity is under way. */
  ghost predicate AnsweredAlone(x: System, run: seq<Step>)
    requires Possible(x, run)
    decreases |run|
  {
    run == [] || ((TakesReply(x, run[0]) ==> |x.s.frames| == 1) && AnsweredAlone(Do(x, run[0]), run[1..]))
  }

  /** Whenever the server asks, only one activity is under way. */
  ghost predicate AskedAlone(x: System, run: seq<Step>)
    requires Possible(x, run)
    decreases |run|
  {
    run == [] || ((run[0].ServerAsk? ==> |x.s.frames| == 1) && AskedAlone(Do(x, run[0]), run[1..]))
  }

  /** What a step does to the packets that matter here. */
  ghost predicate Moves(x: System, y: System, asks: nat, answers: nat, takes: nat) {
    && AsksIn(y.s2c) + answers == AsksIn(x.s2c) + asks
    && |RepliesIn(y.c2s)| + takes == |RepliesIn(x.c2s)| + answers
  }

  ghost function One(b: bool): nat {
    if b then 1 else 0
  }

  lemma TakePacketMoves(x: System)
    requires Inv(x) && x.s2c != []
    ensures Moves(x, TakePacket(x), 0, One(x.s2c[0].ServerRequest?), 0)
    ensures x.s2c[0].ServerRequest? ==> 0 < AsksIn(x.s2c)
  {
    hide Inv, EventsIn, RepliesIn, CallsIn, AsksIn, FinishGet;
    Received(x.s2c);
    if x.s2c[0].EventPacket? {
      Sent(x.c2s, EvOk);
    } else if x.s2c[0].ServerRequest? {
      Sent(x.c2s, Ok(Plain));
    }
  }

  lemma PacketsMove(x: System, step: Step)
    requires Inv(x) && Enabled(x, step)
    ensures Moves(x, Do(x, step), One(step.ServerAsk?), One(Answers(x, step)), One(TakesReply(x, step)))
    ensures Answers(x, step) ==> 0 < AsksIn(x.s2c)
    ensures TakesReply(x, step) ==> 0 < |RepliesIn(x.c2s)|
  {
    hide EventsIn, RepliesIn, CallsIn, AsksIn, TakePacket, EndRequest, EndPoll, ReplyOf, ModesAgree, NothingLost,
         CallsBalanced;
    match step {
      case ClientGet =>
        if !x.c.hasPending && x.c.poll && x.s2c != [] {
          TakePacketMoves(x);
        } else {
          Sent(x.c2s, GetDebugEvent);
        }
      case ClientRequest =>
        Sent(x.c2s, Request);
      case ClientReceive =>
        TakePacketMoves(x);
      case ServerReceive =>
        Received(x.c2s);
      case ServerPoll =>
      case ServerAsk =>
        Sent(x.s2c, ServerRequest);
      case PollEnd(answer) =>
        if answer.Some? {
          Sent(x.s2c, EventPacket(answer.value));
        }
      case RequestEnd(answer) =>
        var f := x.s.frames[|x.s.frames| - 1];
        Sent(x.s2c, Ok(ReplyOf(x.s, f.get, answer)));
    }
  }

  lemma NumbersStayAgreed(n: Numbered, step: Step)
    requires NumbersAgree(n) && Enabled(n.x, step)
    ensures NumbersAgree(DoNumbered(n, step))
  {
    hide Inv, AsksIn, RepliesIn, Do, Enabled, Answers, TakesReply;
    StepKeeps(n.x, step);
    PacketsMove(n.x, step);
    StepsApart(n.x, step);
    var m := DoNumbered(n, step);
    if step.ServerAsk? {
      assert Pending(m) == Pending(n) + [n.asked];
    } else if Answers(n.x, step) {
      assert Pending(m) == Pending(n);
    } else if TakesReply(n.x, step) {
      assert Pending(m) == Pending(n)[1..] && Pending(n)[0] == n.toServer[0];
      forall k | 0 <= k < |Pending(m)| ensures Pending(m)[k] == |m.answers| + k {
        assert Pending(m)[k] == Pending(n)[k + 1];
      }
    } else {
      assert Pending(m) == Pending(n);
    }
  }

  lemma StepsApart(x: System, step: Step)
    ensures !(step.ServerAsk? && (Answers(x, step) || TakesReply(x, step)))
            && !(Answers(x, step) && TakesReply(x, step))
  {
  }

  /** Each waiting activity has asked one request. */
  lemma WaitingActivities(n: Numbered)
    requires NumbersAgree(n)
    ensures |n.waiting| == if n.x.s.running then |n.x.s.frames| - 1 else |n.x.s.frames|
  {
  }

  /** As long as everybody got the own reply, the activities wait for the pending
      requests in the order of asking. */
  ghost predicate InStep(n: Numbered) {
    OwnReplies(n) ==> n.waiting == Pending(n)
  }

  /** The innermost activity gets the own reply exactly when no other waits. */
  lemma StepKeepsOwn(n: Numbered, step: Step)
    requires NumbersAgree(n) && InStep(n) && Enabled(n.x, step)
    ensures InStep(DoNumbered(n, step))
    ensures OwnReplies(DoNumbered(n, step)) <==> OwnReplies(n) && (TakesReply(n.x, step) ==> |n.x.s.frames| == 1)
  {
    hide Inv, AsksIn, RepliesIn, Do, Answers;
    PacketsMove(n.x, step);
    StepsApart(n.x, step);
    WaitingActivities(n);
    var m := DoNumbered(n, step);
    if step.ServerAsk? {
      assert Pending(m) == Pending(n) + [n.asked];
    } else if Answers(n.x, step) {
      assert Pending(m) == Pending(n);
    } else if TakesReply(n.x, step) {
      var last := |n.waiting| - 1;
      var taken := Answer(n.waiting[last], n.toServer[0]);
      assert Pending(m) == Pending(n)[1..] && Pending(n)[0] == taken.got;
      OneMore(n, m, taken);
      if OwnReplies(n) {
        assert taken.awaited == Pending(n)[last] == |n.answers| + last;
      }
    }
  }

  lemma OneMore(n: Numbered, m: Numbered, a: Answer)
    requires m.answers == n.answers + [a]
    ensures OwnReplies(m) <==> OwnReplies(n) && a.awaited == a.got
  {
    if OwnReplies(m) {
      forall k | 0 <= k < |n.answers| ensures n.answers[k].awaited == n.answers[k].got {
        assert m.answers[k] == n.answers[k];
      }
      assert m.answers[|n.answers|] == a;
    }
  }

  lemma {:induction false} RunKeepsOwn(n: Numbered, run: seq<Step>)
    requires NumbersAgree(n) && InStep(n) && Possible(n.x, run)
    ensures NumbersAgree(AfterNumbered(n, run))
    ensures OwnReplies(AfterNumbered(n, run)) <==> OwnReplies(n) && AnsweredAlone(n.x, run)
    decreases |run|
  {
    hide NumbersAgree, InStep, OwnReplies, Do, Enabled, TakesReply;
    if run != [] {
      NumbersStayAgreed(n, run[0]);
      StepKeepsOwn(n, run[0]);
      assert DoNumbered(n, run[0]).x == Do(n.x, run[0]);
      RunKeepsOwn(DoNumbered(n, run[0]), run[1..]);
    }
  }

  /** Main result. After every run, replies have been taken in the order of
      asking, each request is answered at most once, and every activity got the
      reply to its own request exactly when, whenever a reply was taken, no other
      activity was under way. */
  lemma OwnRepliesExactly(x: System, run: seq<Step>)
    requires Init(x) && Possible(x, run)
    ensures var n := AfterNumbered(Start(x), run);
            && (forall k | 0 <= k < |n.answers| :: n.answers[k].got == k < n.asked)
            && (OwnReplies(n) <==> AnsweredAlone(x, run))
  {
    InitKeeps(x);
    RunKeepsOwn(Start(x), run);
  }

  /** It suffices that no activity asks while another one is under way. */
  lemma AskedAloneSuffices(x: System, run: seq<Step>)
    requires Init(x) && Possible(x, run) && AskedAlone(x, run)
    ensures OwnReplies(AfterNumbered(Start(x), run))
  {
    InitKeeps(x);
    AnsweredAsAsked(x, run);
    OwnRepliesExactly(x, run);
  }

  lemma {:induction false} AnsweredAsAsked(x: System, run: seq<Step>)
    requires Inv(x) && Possible(x, run) && AskedAlone(x, run)
    requires x.s.running || |x.s.frames| <= 1
    requires AsksIn(x.s2c) + |RepliesIn(x.c2s)| <= 1
    ensures AnsweredAlone(x, run)
    decreases |run|
  {
    hide AsksIn, RepliesIn, ModesAgree, NothingLost, CallsBalanced, TakePacket, EndRequest, EndPoll, Answers;
    if run != [] {
      PacketsMove(x, run[0]);
      StepKeeps(x, run[0]);
      AnsweredAsAsked(Do(x, run[0]), run[1..]);
    }
  }

  lemma Prepend(x: System, step: Step, rest: seq<Step>)
    requires Enabled(x, step) && Possible(Do(x, step), rest)
    ensures Possible(x, [step] + rest)
    ensures AnsweredAlone(x, [step] + rest) <==>
            (TakesReply(x, step) ==> |x.s.frames| == 1) && AnsweredAlone(Do(x, step), rest)
  {
    hide Do, Enabled, TakesReply;
    assert ([step] + rest)[1..] == rest;
  }

  /** The condition can fail: a poll has asked something, the client makes a call,
      and the server asks something for this call. Then the call gets the reply
      to the request of the poll. */
  lemma RepliesExchanged(x: System) returns (run: seq<Step>)
    requires Init(x)
    ensures Possible(x, run) && !OwnReplies(AfterNumbered(Start(x), run))
  {
    hide OwnReplies, AfterNumbered;
    var x1 := Do(x, ClientGet);
    assert x1.c2s == [GetDebugEvent];
    var x2 := Do(x1, ServerReceive);
    assert x2.s.frames == [Executing(false, true)] && x2.c2s == [];
    var x3 := Do(x2, RequestEnd(None));
    assert x3.s.frames == [] && x3.s2c == [Ok(NoEvent)];
    run := PollExchanges(x3);
    Prepend(x2, RequestEnd(None), run);
    run := [RequestEnd(None)] + run;
    Prepend(x1, ServerReceive, run);
    run := [ServerReceive] + run;
    Prepend(x, ClientGet, run);
    run := [ClientGet] + run;
    OwnRepliesExactly(x, run);
  }

  /** From a state in which the client is told to poll. */
  lemma PollExchanges(x: System) returns (run: seq<Step>)
    requires x.c.call == Waiting(true) && x.c2s == [] && x.s2c == [Ok(NoEvent)]
    requires x.s.frames == [] && !x.s.running && x.s.poll && !x.s.hasPending
    ensures Possible(x, run) && !AnsweredAlone(x, run)
  {
    var x1 := Do(x, ClientReceive);
    assert x1.s2c == [] && x1.c.call == Idle;
    var x2 := Do(x1, ServerPoll);
    assert x2.s.frames == [Polling];
    var x3 := Do(x2, ServerAsk);
    assert x3.s2c == [ServerRequest];
    run := CallExchanges(x3);
    Prepend(x2, ServerAsk, run);
    run := [ServerAsk] + run;
    Prepend(x1, ServerPoll, run);
    run := [ServerPoll] + run;
    Prepend(x, ClientReceive, run);
    run := [ClientReceive] + run;
  }

  /** From a state in which a poll has asked something. */
  lemma CallExchanges(x: System) returns (run: seq<Step>)
    requires x.c.call == Idle && x.c2s == [] && x.s2c == [ServerRequest]
    requires x.s.frames == [Polling] && !x.s.running && !x.s.poll
    ensures Possible(x, run) && !AnsweredAlone(x, run)
  {
    var x1 := Do(x, ClientRequest);
    assert x1.c2s == [Request];
    var x2 := Do(x1, ServerReceive);
    assert x2.s.frames == [Polling, Executing(false, false)] && x2.c2s == [];
    var x3 := Do(x2, ServerAsk);
    assert x3.s2c == [ServerRequest, ServerRequest];
    var x4 := Do(x3, ClientReceive);
    assert x4.c2s == [Ok(Plain)];
    Prepend(x4, ServerReceive, []);
    Prepend(x3, ClientReceive, [ServerReceive]);
    Prepend(x2, ServerAsk, [ClientReceive] + [ServerReceive]);
    Prepend(x1, ServerReceive, [ServerAsk] + ([ClientReceive] + [ServerReceive]));
    run := [ServerReceive] + ([ServerAsk] + ([ClientReceive] + [ServerReceive]));
    Prepend(x, ClientRequest, run);
    run := [ClientRequest] + run;
  }
}
