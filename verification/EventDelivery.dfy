/** The event protocol never gets stuck: whatever is under way can be brought to
    its end, and then the next event reaches the caller of the client. */
module EventDelivery {
  import opened EventProtocol
  import opened Options

  /** Nothing is under way: no activity, no packet, no call. */
  ghost predicate AtRest(x: System) {
    x.c.call == Idle && !x.c.hasPending && x.s.frames == [] && x.s2c == [] && x.c2s == []
  }

  /** What handling the packets on their way to the client can cost: a server
      request is answered by a packet, an event is stored and acknowledged. */
  ghost function ClientWork(ch: Channel): nat {
    if ch == [] then 0
    else (if ch[0].EventPacket? then 3 else if ch[0].ServerRequest? then 2 else 1) + ClientWork(ch[1..])
  }

  /** The same for the server: a request becomes an activity. */
  ghost function ServerWork(ch: Channel): nat {
    if ch == [] then 0
    else (if ch[0].GetDebugEvent? || ch[0].Request? then 4 else 1) + ServerWork(ch[1..])
  }

  ghost function Work(x: System): nat {
    ClientWork(x.s2c) + ServerWork(x.c2s) + 3 * |x.s.frames| + if x.c.hasPending then 1 else 0
  }

  lemma {:induction false} MoreWork(ch: Channel, p: Packet)
    ensures ClientWork(ch + [p]) == ClientWork(ch) + ClientWork([p])
    ensures ServerWork(ch + [p]) == ServerWork(ch) + ServerWork([p])
  {
    if ch == [] {
      assert ch + [p] == [p];
    } else {
      assert (ch + [p])[1..] == ch[1..] + [p];
      MoreWork(ch[1..], p);
    }
  }

  /** A step that goes on with what is under way and begins nothing new. */
  ghost function NextStep(x: System): Step {
    if x.s.running && x.s.frames != [] then
      if x.s.frames[|x.s.frames| - 1].Polling? then PollEnd(None) else RequestEnd(None)
    else if x.c2s != [] then ServerReceive
    else if x.c.call.Waiting? then ClientReceive
    else ClientGet
  }

  /** A client that waits gets a packet. */
  lemma WaitingGets(x: System)
    requires Inv(x) && !x.s.running && x.c2s == [] && x.c.call.Waiting?
    ensures x.s2c != []
  {
  }

  /** An idle client that has something to handle handles it with its next call. */
  lemma IdleHandles(x: System)
    requires Inv(x) && !x.s.running && x.c2s == [] && x.c.call == Idle && !AtRest(x)
    ensures x.c.hasPending || (x.c.poll && x.s2c != [])
  {
    hide EventsIn, EventAfterReply, NothingLost;
    if !x.c.hasPending {
      if x.s.frames != [] {
        WithoutCalls(x.s.frames);
        assert x.s.frames[0].Polling? && WillPoll(x.s);
        assert 0 < AsksIn(x.s2c);
      } else {
        Received(x.s2c);
      }
    }
  }

  lemma NextGoesOn(x: System)
    requires Inv(x) && !AtRest(x)
    ensures Enabled(x, NextStep(x)) && Work(Do(x, NextStep(x))) < Work(x)
    ensures Do(x, NextStep(x)).s.taken == x.s.taken
  {
    hide EventsIn, RepliesIn, CallsIn, AsksIn, CallsOf, ModesAgree, NothingLost, CallsBalanced;
    if x.s.running {
      if x.s.frames[|x.s.frames| - 1].Executing? {
        MoreWork(x.s2c, Ok(ReplyOf(x.s, x.s.frames[|x.s.frames| - 1].get, None)));
      }
    } else if x.c2s != [] {
    } else if x.c.call.Waiting? {
      WaitingGets(x);
      TakingIsWork(x);
    } else {
      IdleHandles(x);
      if !x.c.hasPending {
        TakingIsWork(x);
      }
    }
  }

  lemma TakingIsWork(x: System)
    requires x.s2c != []
    ensures Work(TakePacket(x)) < Work(x) && TakePacket(x).s == x.s
  {
    if x.s2c[0].EventPacket? {
      MoreWork(x.c2s, EvOk);
    } else if x.s2c[0].ServerRequest? {
      MoreWork(x.c2s, Ok(Plain));
    }
  }

  /** No deadlock: from every state that a run can reach, the activities, packets
      and calls that are under way can come to their ends without anything new,
      and then the caller has been given all events. */
  lemma {:induction false} ComesToRest(x: System) returns (run: seq<Step>)
    requires Inv(x)
    ensures Possible(x, run) && Inv(After(x, run)) && AtRest(After(x, run))
    ensures After(x, run).c.returned == After(x, run).s.taken == x.s.taken
    ensures forall step | step in run :: step.ClientGet? || step.ClientReceive? || step.ServerReceive? ||
                                         step == PollEnd(None) || step == RequestEnd(None)
    decreases Work(x)
  {
    hide Inv, Do, Enabled, Work;
    if AtRest(x) {
      run := [];
      AllHandedOut(x);
    } else {
      var step := NextStep(x);
      NextGoesOn(x);
      StepKeeps(x, step);
      var rest := ComesToRest(Do(x, step));
      OneStep(x, step, rest);
      run := [step] + rest;
    }
  }

  lemma AllHandedOut(x: System)
    requires Inv(x) && AtRest(x)
    ensures x.c.returned == x.s.taken
  {
  }

  lemma {:induction false} Appended(x: System, run: seq<Step>, more: seq<Step>)
    requires Possible(x, run) && Possible(After(x, run), more)
    ensures Possible(x, run + more) && After(x, run + more) == After(After(x, run), more)
    decreases |run|
  {
    hide Do, Enabled;
    if run == [] {
      assert run + more == more;
    } else {
      assert (run + more)[1..] == run[1..] + more && (run + more)[0] == run[0];
      Appended(Do(x, run[0]), run[1..], more);
    }
  }

  /** Main result. After every run, in every interleaving, there is a way to go on
      on which the caller gets all events taken so far and then the next event of
      the debugger module, whatever it is. */
  lemma NextEventArrives(x: System, run: seq<Step>, ev: Event) returns (more: seq<Step>)
    requires Init(x) && Possible(x, run)
    ensures Possible(x, run + more)
    ensures After(x, run + more).c.returned == After(x, run).s.taken + [ev]
  {
    InitKeeps(x);
    RunKeeps(x, run);
    hide Inv, Do, Enabled;
    var y := After(x, run);
    var first := ComesToRest(y);
    var z := After(y, first);
    assert z.c.call == Idle && z.s.frames == [] && z.s2c == [] && z.c2s == [];
    var second := NewEventArrives(z, ev);
    Appended(y, first, second);
    more := first + second;
    Appended(x, run, more);
  }
}
