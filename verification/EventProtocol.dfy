/** How a debug event travels from the remote debugger module to the client:
    both sides as a state machine over two FIFO channels, with every interleaving
    of client calls, server requests and server polls. */
module EventProtocol {
  import opened Options

  /** A debug event is an opaque value here. */
  datatype Event = Event(id: int)

  /** The content of a positive reply. */
  datatype Reply = Plain | NoEvent | OneEvent(ev: Event)

  datatype Packet =
    | GetDebugEvent          // client: give me an event
    | Request                // client: any other request
    | EvOk                   // client: the event has arrived
    | Ok(reply: Reply)       // either side: the answer to a request
    | ServerRequest          // server: message, names, ... to be answered
    | EventPacket(ev: Event) // server: an event, without being asked

  type Channel = seq<Packet>

  /** What the client is doing: nothing, or waiting for the reply to a request. */
  datatype Call = Idle | Waiting(get: bool)

  /** The client; `returned` is the history of events handed to its caller. */
  datatype Client = Client(hasPending: bool, pending: Event, poll: bool, call: Call, returned: seq<Event>, broken: bool)

  /** An activity of the server: a poll, or the execution of a client request
      that remembers the poll mode it has switched off. */
  datatype Frame = Polling | Executing(saved: bool, get: bool)

  /** The server; when it is not running its innermost activity waits for a
      packet. `taken` is the history of events taken from the debugger module. */
  datatype Server = Server(frames: seq<Frame>, running: bool, poll: bool, hasPending: bool, taken: seq<Event>,
                           closed: bool)

  datatype System = System(c: Client, s: Server, c2s: Channel, s2c: Channel)

  // ------------------------------------------------------- the client's code

  /** The client handles a packet that is not the reply it waits for. */
  function Interrupt(c: Client, p: Packet): (r: (Client, Packet))
    requires p.EventPacket? || p.ServerRequest?
  {
    if p.EventPacket? then (c.(pending := p.ev, hasPending := true), EvOk) else (c, Ok(Plain))
  }

  /** The reply to the event request has arrived. */
  function FinishGet(c: Client, reply: Reply): Client {
    match reply
    case OneEvent(ev) => c.(returned := c.returned + [ev])
    case NoEvent => c.(poll := true)
    case Plain => c.(broken := true)
  }

  // ------------------------------------------------------- the server's code

  /** A request is entered: no polling while it is performed. */
  function BeginRequest(s: Server, get: bool): Server {
    s.(frames := s.frames + [Executing(s.poll, get)], running := true, poll := false)
  }

  /** The answer of the debugger module that an event request may use. */
  function UsedAnswer(s: Server, get: bool, answer: Option<Event>): Option<Event> {
    if get && !s.hasPending then answer else None
  }

  function ReplyOf(s: Server, get: bool, answer: Option<Event>): Reply {
    if !get then Plain
    else match UsedAnswer(s, get, answer) case Some(ev) => OneEvent(ev) case None => NoEvent
  }

  /** A request is left: polling is resumed, or begun after a vain event request. */
  function EndRequest(s: Server, f: Frame, answer: Option<Event>): Server
    requires f.Executing? && s.frames != []
  {
    var used := UsedAnswer(s, f.get, answer);
    var saved := f.saved || (f.get && used == None && !s.hasPending);
    Server(s.frames[..|s.frames| - 1], false, s.poll || saved, s.hasPending,
           if used.Some? then s.taken + [used.value] else s.taken, s.closed)
  }

  /** A poll takes an event, if there is one; otherwise polling goes on. */
  function EndPoll(s: Server, answer: Option<Event>): Server
    requires s.frames != []
  {
    var below := s.frames[..|s.frames| - 1];
    match answer
    case Some(ev) => s.(frames := below, running := false, taken := s.taken + [ev])
    case None => s.(frames := below, running := false, poll := true)
  }

  // ---------------------------------------------------------------- the steps

  datatype Step =
    | ClientGet                        // the client asks for a debug event
    | ClientRequest                    // the client makes another call
    | ClientReceive                    // the waiting client handles a packet
    | ServerReceive                    // the waiting server handles a packet
    | ServerPoll                       // the waiting server begins a poll
    | ServerAsk                        // the running server asks the client something
    | PollEnd(answer: Option<Event>)   // the debugger module answers a poll
    | RequestEnd(answer: Option<Event>)// a request has been performed

  ghost predicate Enabled(x: System, step: Step) {
    match step
    case ClientGet => x.c.call.Idle?
    case ClientRequest => x.c.call.Idle?
    case ClientReceive => x.c.call.Waiting? && x.s2c != []
    case ServerReceive => !x.s.running && x.c2s != []
    case ServerPoll => !x.s.running && x.s.poll && !x.s.hasPending
    case ServerAsk => x.s.running && x.s.frames != []
    case PollEnd(_) => x.s.running && x.s.frames != [] && x.s.frames[|x.s.frames| - 1].Polling?
    case RequestEnd(_) => x.s.running && x.s.frames != [] && x.s.frames[|x.s.frames| - 1].Executing?
  }

  /** The client takes the next packet of its channel. */
  ghost function TakePacket(x: System): System
    requires x.s2c != []
  {
    var p, rest := x.s2c[0], x.s2c[1..];
    if p.EventPacket? || p.ServerRequest? then
      var (c, req) := Interrupt(x.c, p);
      x.(c := c, c2s := x.c2s + [req], s2c := rest)
    else if p.Ok? && x.c.call.Waiting? then
      var c := x.c.(call := Idle);
      x.(c := if x.c.call.get then FinishGet(c, p.reply) else c, s2c := rest)
    else x.(c := x.c.(broken := true), s2c := rest)
  }

  ghost function Do(x: System, step: Step): System
    requires Enabled(x, step)
  {
    match step
    case ClientGet =>
      if x.c.hasPending then
        x.(c := x.c.(hasPending := false, poll := false, returned := x.c.returned + [x.c.pending]))
      else if x.c.poll then
        if x.s2c == [] then x else TakePacket(x)
      else x.(c := x.c.(call := Waiting(true)), c2s := x.c2s + [GetDebugEvent])
    case ClientRequest => x.(c := x.c.(call := Waiting(false)), c2s := x.c2s + [Request])
    case ClientReceive => TakePacket(x)
    case ServerReceive =>
      var p, rest := x.c2s[0], x.c2s[1..];
      if p.GetDebugEvent? || p.Request? then x.(s := BeginRequest(x.s, p.GetDebugEvent?), c2s := rest)
      else if p.EvOk? then x.(c2s := rest)
      else if p.Ok? && x.s.frames != [] then x.(s := x.s.(running := true), c2s := rest)
      else x.(s := x.s.(closed := true), c2s := rest)
    case ServerPoll => x.(s := x.s.(frames := x.s.frames + [Polling], running := true, poll := false))
    case ServerAsk => x.(s := x.s.(running := false), s2c := x.s2c + [ServerRequest])
    case PollEnd(answer) =>
      x.(s := EndPoll(x.s, answer), s2c := if answer.Some? then x.s2c + [EventPacket(answer.value)] else x.s2c)
    case RequestEnd(answer) =>
      var f := x.s.frames[|x.s.frames| - 1];
      x.(s := EndRequest(x.s, f, answer), s2c := x.s2c + [Ok(ReplyOf(x.s, f.get, answer))])
  }

  /** A fresh connection. */
  ghost predicate Init(x: System) {
    && !x.c.hasPending && !x.c.poll && x.c.call == Idle && x.c.returned == [] && !x.c.broken
    && x.s == Server([], false, false, false, [], false)
    && x.c2s == [] && x.s2c == []
  }

  /** The run is possible from `x`. */
  ghost predicate Possible(x: System, run: seq<Step>)
    decreases |run|
  {
    run == [] || (Enabled(x, run[0]) && Possible(Do(x, run[0]), run[1..]))
  }

  ghost function After(x: System, run: seq<Step>): System
    requires Possible(x, run)
    decreases |run|
  {
    if run == [] then x else After(Do(x, run[0]), run[1..])
  }

  // ------------------------------------------------------ what is on its way

  /** The events on the way to the client. */
  ghost function EventsIn(ch: Channel): seq<Event> {
    if ch == [] then []
    else
      (match ch[0] case EventPacket(ev) => [ev] case Ok(OneEvent(ev)) => [ev] case _ => []) + EventsIn(ch[1..])
  }

  ghost function RepliesIn(ch: Channel): seq<Reply> {
    if ch == [] then []
    else (if ch[0].Ok? then [ch[0].reply] else []) + RepliesIn(ch[1..])
  }

  /** The client requests on their way, each with: is it the event request? */
  ghost function CallsIn(ch: Channel): seq<bool> {
    if ch == [] then []
    else (if ch[0].GetDebugEvent? then [true] else if ch[0].Request? then [false] else []) + CallsIn(ch[1..])
  }

  ghost function AsksIn(ch: Channel): nat {
    if ch == [] then 0 else (if ch[0].ServerRequest? then 1 else 0) + AsksIn(ch[1..])
  }

  lemma {:induction false} ConcatEvents(a: Channel, b: Channel)
    ensures EventsIn(a + b) == EventsIn(a) + EventsIn(b)
  {
    if a == [] {
      assert a + b == b;
    } else {
      assert (a + b)[1..] == a[1..] + b && (a + b)[0] == a[0];
      ConcatEvents(a[1..], b);
    }
  }

  lemma {:induction false} ConcatReplies(a: Channel, b: Channel)
    ensures RepliesIn(a + b) == RepliesIn(a) + RepliesIn(b)
  {
    if a == [] {
      assert a + b == b;
    } else {
      assert (a + b)[1..] == a[1..] + b && (a + b)[0] == a[0];
      ConcatReplies(a[1..], b);
    }
  }

  lemma {:induction false} ConcatCalls(a: Channel, b: Channel)
    ensures CallsIn(a + b) == CallsIn(a) + CallsIn(b)
    ensures AsksIn(a + b) == AsksIn(a) + AsksIn(b)
  {
    if a == [] {
      assert a + b == b;
    } else {
      assert (a + b)[1..] == a[1..] + b && (a + b)[0] == a[0];
      ConcatCalls(a[1..], b);
    }
  }

  /** The events taken from the module and not yet handed to the caller. */
  ghost function Outstanding(x: System): seq<Event> {
    (if x.c.hasPending then [x.c.pending] else []) + EventsIn(x.s2c)
  }

  /** The client requests that the server performs, by activity. */
  ghost function CallsOf(frames: seq<Frame>): seq<bool> {
    if frames == [] then []
    else CallsOf(frames[..|frames| - 1]) + if frames[|frames| - 1].Executing? then [frames[|frames| - 1].get] else []
  }

  /** The server polls, is about to, or will after the request it performs. */
  ghost predicate WillPoll(s: Server) {
    s.poll || exists k | 0 <= k < |s.frames| :: s.frames[k].Polling? || s.frames[k].saved
  }

  // ----------------------------------------------------------- the invariant

  /** Nothing has gone wrong. */
  ghost predicate Sane(x: System) {
    !x.c.broken && !x.s.closed && !x.s.hasPending
  }

  /** Only polls and requests begun outside of any activity find the poll mode on. */
  ghost predicate FramesOk(s: Server) {
    && (s.frames != [] ==> !s.poll)
    && (s.running ==> s.frames != [])
    && (forall k | 0 < k < |s.frames| :: s.frames[k].Executing? && !s.frames[k].saved)
  }

  /** Every server request that is waited for is on its way, there or back. */
  ghost predicate AsksBalanced(x: System) {
    AsksIn(x.s2c) + |RepliesIn(x.c2s)| == if x.s.running then |x.s.frames| - 1 else |x.s.frames|
  }

  /** The one request that the client waits for is on its way, being performed,
      or its reply is on the way back. */
  ghost predicate CallsBalanced(x: System) {
    var calls := CallsIn(x.c2s) + CallsOf(x.s.frames);
    match x.c.call
    case Idle => calls == [] && RepliesIn(x.s2c) == []
    case Waiting(get) =>
      || (calls == [get] && RepliesIn(x.s2c) == [])
      || (calls == [] && |RepliesIn(x.s2c)| == 1 && (get <==> RepliesIn(x.s2c)[0] != Plain))
  }

  ghost predicate NoEventComes(x: System) {
    RepliesIn(x.s2c) == [NoEvent]
  }

  ghost predicate ServerTraffic(ch: Channel) {
    forall k | 0 <= k < |ch| :: ch[k].Ok? || ch[k].ServerRequest? || ch[k].EventPacket?
  }

  ghost predicate ClientTraffic(ch: Channel) {
    forall k | 0 <= k < |ch| :: ch[k].Ok? || ch[k].GetDebugEvent? || ch[k].Request? || ch[k].EvOk?
  }

  /** No unasked event overtakes the reply that switches the client to polling. */
  ghost predicate EventAfterReply(ch: Channel) {
    forall j, k | 0 <= j < k < |ch| && ch[j].EventPacket? :: ch[k] != Ok(NoEvent)
  }

  ghost predicate HasEventPacket(ch: Channel) {
    exists k | 0 <= k < |ch| :: ch[k].EventPacket?
  }

  /** The two poll modes agree, up to a reply on its way. */
  ghost predicate ModesAgree(x: System) {
    && (x.c.call == Waiting(true) ==> !x.c.poll && !x.c.hasPending)
    && (x.c.hasPending ==> x.c.poll)
    && (HasEventPacket(x.s2c) ==> x.c.poll || NoEventComes(x))
    && (WillPoll(x.s) ==> Outstanding(x) == [] && (x.c.poll || NoEventComes(x)))
    && EventAfterReply(x.s2c)
  }

  /** A client that polls or is being told to, and to which no event is on its
      way, is served: the server polls, or will after the request it performs. */
  ghost predicate PollingServed(x: System) {
    (x.c.poll || NoEventComes(x)) && Outstanding(x) == [] ==> WillPoll(x.s)
  }

  /** No event is lost, duplicated or overtaken by another one. */
  ghost predicate NothingLost(x: System) {
    |Outstanding(x)| <= 1 && x.s.taken == x.c.returned + Outstanding(x)
  }

  ghost predicate Safe(x: System) {
    && Sane(x) && FramesOk(x.s) && AsksBalanced(x) && CallsBalanced(x)
    && ServerTraffic(x.s2c) && ClientTraffic(x.c2s)
    && ModesAgree(x) && NothingLost(x)
  }

  ghost predicate Inv(x: System) {
    Safe(x) && PollingServed(x)
  }

  lemma CallsOfSnoc(frames: seq<Frame>, f: Frame)
    ensures CallsOf(frames + [f]) == CallsOf(frames) + if f.Executing? then [f.get] else []
  {
    assert (frames + [f])[..|frames|] == frames;
  }

  lemma Sent(ch: Channel, p: Packet)
    ensures EventsIn(ch + [p]) == EventsIn(ch) + EventsIn([p])
    ensures RepliesIn(ch + [p]) == RepliesIn(ch) + if p.Ok? then [p.reply] else []
    ensures CallsIn(ch + [p]) == CallsIn(ch) + if p.GetDebugEvent? then [true] else if p.Request? then [false] else []
    ensures AsksIn(ch + [p]) == AsksIn(ch) + if p.ServerRequest? then 1 else 0
    ensures EventsIn([p]) == match p case EventPacket(ev) => [ev] case Ok(OneEvent(ev)) => [ev] case _ => []
  {
    ConcatEvents(ch, [p]);
    ConcatReplies(ch, [p]);
    ConcatCalls(ch, [p]);
  }

  lemma {:induction false} EventPacketCounts(ch: Channel)
    ensures HasEventPacket(ch) ==> EventsIn(ch) != []
  {
    if ch != [] {
      EventPacketCounts(ch[1..]);
      if !ch[0].EventPacket? && HasEventPacket(ch) {
        var k :| 0 <= k < |ch| && ch[k].EventPacket?;
        assert ch[1..][k - 1].EventPacket?;
      }
    }
  }

  /** An event on the way is in an event packet or in a reply. */
  lemma {:induction false} EventsTravelIn(ch: Channel)
    ensures EventsIn(ch) != [] ==> HasEventPacket(ch) || RepliesIn(ch) != []
  {
    if ch != [] {
      EventsTravelIn(ch[1..]);
      if ch[0].EventPacket? {
        assert HasEventPacket(ch);
      } else if HasEventPacket(ch[1..]) {
        var k :| 0 <= k < |ch[1..]| && ch[1..][k].EventPacket?;
        assert ch[k + 1].EventPacket?;
      }
    }
  }

  /** What a channel holds, split at its first packet. */
  lemma Received(ch: Channel)
    requires ch != []
    ensures EventsIn(ch)
            == (match ch[0] case EventPacket(ev) => [ev] case Ok(OneEvent(ev)) => [ev] case _ => []) + EventsIn(ch[1..])
    ensures RepliesIn(ch) == (if ch[0].Ok? then [ch[0].reply] else []) + RepliesIn(ch[1..])
    ensures CallsIn(ch)
            == (if ch[0].GetDebugEvent? then [true] else if ch[0].Request? then [false] else []) + CallsIn(ch[1..])
    ensures AsksIn(ch) == (if ch[0].ServerRequest? then 1 else 0) + AsksIn(ch[1..])
    ensures HasEventPacket(ch[1..]) ==> HasEventPacket(ch)
    ensures EventAfterReply(ch) ==> EventAfterReply(ch[1..])
    ensures ch[0].EventPacket? ==> HasEventPacket(ch)
  {
    if HasEventPacket(ch[1..]) {
      var k :| 0 <= k < |ch[1..]| && ch[1..][k].EventPacket?;
      assert ch[k + 1].EventPacket?;
    }
    if EventAfterReply(ch) {
      forall j, k | 0 <= j < k < |ch[1..]| && ch[1..][j].EventPacket?
        ensures ch[1..][k] != Ok(NoEvent)
      {
        assert ch[j + 1].EventPacket? && ch[k + 1] == ch[1..][k];
      }
    }
  }

  /** A reply on the way is one of the packets. */
  lemma {:induction false} ReplyIsPacket(ch: Channel, k: nat)
    requires k < |RepliesIn(ch)|
    ensures exists j :: 0 <= j < |ch| && ch[j] == Ok(RepliesIn(ch)[k])
  {
    if ch[0].Ok? && k == 0 {
      assert ch[0] == Ok(RepliesIn(ch)[0]);
    } else {
      var k' := if ch[0].Ok? then k - 1 else k;
      ReplyIsPacket(ch[1..], k');
      var j :| 0 <= j < |ch[1..]| && ch[1..][j] == Ok(RepliesIn(ch[1..])[k']);
      assert ch[j + 1] == Ok(RepliesIn(ch)[k]);
    }
  }

  lemma TakePacketSafe(x: System)
    requires Safe(x) && x.s2c != [] && (x.c.call.Waiting? || (x.c.poll && !x.c.hasPending))
    ensures Safe(TakePacket(x))
  {
    hide EventsIn, RepliesIn, CallsIn, AsksIn, CallsOf, HasEventPacket;
    var p, x' := x.s2c[0], TakePacket(x);
    Received(x.s2c);
    EventPacketCounts(x.s2c);
    if p.EventPacket? {
      Sent(x.c2s, EvOk);
      if NoEventComes(x) {
        ReplyIsPacket(x.s2c, 0);
      }
      assert x'.c.pending == p.ev;
    } else if p.ServerRequest? {
      Sent(x.c2s, Ok(Plain));
    } else {
      assert p.Ok?;
    }
  }

  lemma ClientStepSafe(x: System, step: Step)
    requires Safe(x) && Enabled(x, step) && (step.ClientGet? || step.ClientRequest? || step.ClientReceive?)
    ensures Safe(Do(x, step))
  {
    hide EventsIn, RepliesIn, CallsIn, AsksIn, CallsOf, HasEventPacket, TakePacket;
    match step {
      case ClientReceive =>
        TakePacketSafe(x);
      case ClientRequest =>
        Sent(x.c2s, Request);
      case ClientGet =>
        if x.c.hasPending {
          EventPacketCounts(x.s2c);
        } else if x.c.poll {
          if x.s2c != [] {
            TakePacketSafe(x);
          }
        } else {
          Sent(x.c2s, GetDebugEvent);
        }
    }
  }

  lemma ServerReceiveSafe(x: System)
    requires Safe(x) && Enabled(x, ServerReceive)
    ensures Safe(Do(x, ServerReceive))
  {
    hide EventsIn, RepliesIn, CallsIn, AsksIn, CallsOf, HasEventPacket;
    var p := x.c2s[0];
    Received(x.c2s);
    if p.GetDebugEvent? || p.Request? {
      CallsOfSnoc(x.s.frames, Executing(x.s.poll, p.GetDebugEvent?));
    }
  }

  /** A request that is entered remembers the poll mode. */
  lemma WillPollWithin(s: Server, get: bool)
    ensures WillPoll(s) ==> WillPoll(BeginRequest(s, get))
  {
    var s' := BeginRequest(s, get);
    assert s'.frames[|s.frames|] == Executing(s.poll, get);
    if k :| 0 <= k < |s.frames| && (s.frames[k].Polling? || s.frames[k].saved) {
      assert s'.frames[k] == s.frames[k];
    }
  }

  lemma PollSafe(x: System, step: Step)
    requires Safe(x) && Enabled(x, step) && (step.ServerPoll? || step.PollEnd?)
    ensures Safe(Do(x, step))
  {
    hide EventsIn, RepliesIn, CallsIn, AsksIn, CallsOf;
    match step {
      case ServerPoll =>
        CallsOfSnoc(x.s.frames, Polling);
      case PollEnd(answer) =>
        var n := |x.s.frames| - 1;
        assert x.s.frames == x.s.frames[..n] + [Polling];
        CallsOfSnoc(x.s.frames[..n], Polling);
        if answer.Some? {
          Sent(x.s2c, EventPacket(answer.value));
        }
    }
  }

  lemma EventPacketSnoc(ch: Channel, p: Packet)
    ensures HasEventPacket(ch + [p]) <==> HasEventPacket(ch) || p.EventPacket?
    ensures (HasEventPacket(ch) ==> p != Ok(NoEvent)) && EventAfterReply(ch) ==> EventAfterReply(ch + [p])
  {
    if HasEventPacket(ch) {
      var k :| 0 <= k < |ch| && ch[k].EventPacket?;
      assert (ch + [p])[k].EventPacket?;
    }
    if p.EventPacket? {
      assert (ch + [p])[|ch|].EventPacket?;
    }
  }

  /** While the server performs an event request no event is on its way, and
      nobody will poll. */
  lemma EventRequestAlone(x: System)
    requires Safe(x) && x.c.call == Waiting(true) && RepliesIn(x.s2c) == []
    ensures Outstanding(x) == [] && !HasEventPacket(x.s2c) && !WillPoll(x.s)
  {
    EventsTravelIn(x.s2c);
  }

  lemma PollingWillPoll(s: Server)
    ensures s.frames != [] && s.frames[0].Polling? ==> WillPoll(s)
    ensures s.poll ==> WillPoll(s)
  {
  }

  /** Activities that perform no request are polls. */
  lemma {:induction false} WithoutCalls(frames: seq<Frame>)
    requires CallsOf(frames) == []
    ensures forall k | 0 <= k < |frames| :: frames[k].Polling?
  {
    if frames != [] {
      WithoutCalls(frames[..|frames| - 1]);
    }
  }

  /** The request that ends is the one the client waits for, and the only one. */
  lemma EndingCall(x: System)
    requires Safe(x) && x.s.frames != [] && x.s.frames[|x.s.frames| - 1].Executing?
    ensures var n := |x.s.frames| - 1;
            && x.c.call == Waiting(x.s.frames[n].get) && RepliesIn(x.s2c) == []
            && CallsIn(x.c2s) == [] && CallsOf(x.s.frames[..n]) == []
  {
    hide ModesAgree, NothingLost, AsksBalanced, CallsIn, RepliesIn;
    var calls := CallsIn(x.c2s) + CallsOf(x.s.frames);
    assert calls[|calls| - 1] == x.s.frames[|x.s.frames| - 1].get;
  }

  lemma RequestEndSafe(x: System, answer: Option<Event>)
    requires Safe(x) && Enabled(x, RequestEnd(answer))
    ensures Safe(Do(x, RequestEnd(answer)))
  {
    hide EventsIn, RepliesIn, CallsIn, AsksIn, CallsOf, HasEventPacket, EventAfterReply, WillPoll;
    var n := |x.s.frames| - 1;
    var f, front := x.s.frames[n], x.s.frames[..n];
    var reply := ReplyOf(x.s, f.get, answer);
    EndingCall(x);
    if f.get {
      EventRequestAlone(x);
      WithoutCalls(front);
      PollingWillPoll(x.s);
      assert front == [];
    }
    Sent(x.s2c, Ok(reply));
    EventPacketSnoc(x.s2c, Ok(reply));
    WillPollAfter(x.s, f, answer);
  }

  lemma WillPollAfter(s: Server, f: Frame, answer: Option<Event>)
    requires FramesOk(s) && s.frames != [] && s.frames[|s.frames| - 1] == f && f.Executing?
    ensures WillPoll(EndRequest(s, f, answer)) ==> WillPoll(s) || ReplyOf(s, f.get, answer) == NoEvent
    ensures WillPoll(s) ==> WillPoll(EndRequest(s, f, answer))
    ensures ReplyOf(s, f.get, answer) == NoEvent && !s.hasPending ==> WillPoll(EndRequest(s, f, answer))
  {
    var s' := EndRequest(s, f, answer);
    if k :| 0 <= k < |s'.frames| && (s.frames[k].Polling? || s.frames[k].saved) {
      assert s'.frames[k] == s.frames[k];
    }
    if f.saved {
      assert s.frames[|s.frames| - 1].saved;
    }
    if k :| 0 <= k < |s'.frames| && (s'.frames[k].Polling? || s'.frames[k].saved) {
      assert s.frames[k] == s'.frames[k];
    }
  }

  lemma ServerAskSafe(x: System)
    requires Safe(x) && Enabled(x, ServerAsk)
    ensures Safe(Do(x, ServerAsk))
  {
    hide EventsIn, RepliesIn, CallsIn, AsksIn, CallsOf;
    Sent(x.s2c, ServerRequest);
  }

  // ------------------------------------------------------ polling is resumed

  lemma TakePacketServed(x: System)
    requires Inv(x) && x.s2c != [] && (x.c.call.Waiting? || (x.c.poll && !x.c.hasPending))
    ensures PollingServed(TakePacket(x))
  {
    hide EventsIn, RepliesIn, CallsIn, AsksIn, CallsOf, HasEventPacket, WillPoll, EventAfterReply, FramesOk;
    Received(x.s2c);
  }

  lemma ClientStepServed(x: System, step: Step)
    requires Inv(x) && Enabled(x, step) && (step.ClientGet? || step.ClientRequest? || step.ClientReceive?)
    ensures PollingServed(Do(x, step))
  {
    hide EventsIn, RepliesIn, CallsIn, AsksIn, CallsOf, HasEventPacket, WillPoll, TakePacket, EventAfterReply, FramesOk;
    if step.ClientReceive? || (step.ClientGet? && !x.c.hasPending && x.c.poll && x.s2c != []) {
      TakePacketServed(x);
    }
  }

  lemma ServerStepServed(x: System, step: Step)
    requires Inv(x) && Enabled(x, step) && (step.ServerReceive? || step.ServerAsk? || step.ServerPoll? || step.PollEnd?)
    ensures PollingServed(Do(x, step))
  {
    hide EventsIn, RepliesIn, CallsIn, AsksIn, CallsOf, HasEventPacket, EventAfterReply, FramesOk;
    match step {
      case ServerReceive =>
        Received(x.c2s);
        WillPollWithin(x.s, x.c2s[0].GetDebugEvent?);
      case ServerAsk =>
        Sent(x.s2c, ServerRequest);
      case ServerPoll =>
        assert Do(x, step).s.frames[|x.s.frames|] == Polling;
      case PollEnd(answer) =>
        if answer.Some? {
          Sent(x.s2c, EventPacket(answer.value));
        }
    }
  }

  lemma RequestEndServed(x: System, answer: Option<Event>)
    requires Inv(x) && Enabled(x, RequestEnd(answer))
    ensures PollingServed(Do(x, RequestEnd(answer)))
  {
    hide EventsIn, RepliesIn, CallsIn, AsksIn, CallsOf, HasEventPacket, EventAfterReply, WillPoll, EndRequest, ReplyOf;
    var f := x.s.frames[|x.s.frames| - 1];
    var reply := ReplyOf(x.s, f.get, answer);
    var x' := Do(x, RequestEnd(answer));
    EndingCall(x);
    Sent(x.s2c, Ok(reply));
    WillPollAfter(x.s, f, answer);
    assert RepliesIn(x'.s2c) == [reply];
    if Outstanding(x') == [] {
      assert EventsIn(x'.s2c)[..|EventsIn(x.s2c)|] == EventsIn(x.s2c);
      assert Outstanding(x) == [];
    }
  }

  /** Handling a packet keeps the invariant. */
  lemma TakePacketKeeps(x: System)
    requires Inv(x) && x.s2c != [] && (x.c.call.Waiting? || (x.c.poll && !x.c.hasPending))
    ensures Inv(TakePacket(x))
  {
    hide TakePacket;
    TakePacketSafe(x);
    TakePacketServed(x);
  }

  /** Ending a request keeps it; the poll mode is restored. */
  lemma RequestEndKeeps(x: System, answer: Option<Event>)
    requires Inv(x) && Enabled(x, RequestEnd(answer))
    ensures Inv(Do(x, RequestEnd(answer)))
    ensures WillPoll(x.s) ==> WillPoll(Do(x, RequestEnd(answer)).s)
  {
    hide WillPoll, CallsOf;
    RequestEndSafe(x, answer);
    RequestEndServed(x, answer);
    WillPollAfter(x.s, x.s.frames[|x.s.frames| - 1], answer);
  }

  lemma StepKeeps(x: System, step: Step)
    requires Inv(x) && Enabled(x, step)
    ensures Inv(Do(x, step))
  {
    hide Safe, PollingServed, Do;
    match step {
      case ClientGet => ClientStepSafe(x, step); ClientStepServed(x, step);
      case ClientRequest => ClientStepSafe(x, step); ClientStepServed(x, step);
      case ClientReceive => ClientStepSafe(x, step); ClientStepServed(x, step);
      case ServerReceive => ServerReceiveSafe(x); ServerStepServed(x, step);
      case ServerPoll => PollSafe(x, step); ServerStepServed(x, step);
      case ServerAsk => ServerAskSafe(x); ServerStepServed(x, step);
      case PollEnd(answer) => PollSafe(x, step); ServerStepServed(x, step);
      case RequestEnd(answer) => RequestEndKeeps(x, answer);
    }
  }

  // ------------------------------------------------------------ main theorems

  lemma {:induction false} RunKeeps(x: System, run: seq<Step>)
    requires Inv(x) && Possible(x, run)
    ensures Inv(After(x, run))
    decreases |run|
  {
    hide Inv, Do, Enabled;
    if run != [] {
      StepKeeps(x, run[0]);
      RunKeeps(Do(x, run[0]), run[1..]);
    }
  }

  lemma InitKeeps(x: System)
    requires Init(x)
    ensures Inv(x)
  {
  }

  /** Main result. After every run, in every interleaving, the events that the
      server has taken from its debugger module are, in order, the events handed
      to the client's caller and then the one on its way, if any. */
  lemma NoEventIsLost(x: System, run: seq<Step>)
    requires Init(x) && Possible(x, run)
    ensures var y := After(x, run);
            y.s.taken == y.c.returned + Outstanding(y) && |Outstanding(y)| <= 1
  {
    InitKeeps(x);
    RunKeeps(x, run);
  }

  /** No packet comes unexpectedly: the client never runs into its protocol error
      and the server loop is never ended by a stray reply. A reply meets a client
      that waits for it and is of the kind that it waits for, and a reply to the
      server meets an activity that waits. */
  lemma NoProtocolError(x: System, run: seq<Step>)
    requires Init(x) && Possible(x, run)
    ensures var y := After(x, run);
            && !y.c.broken && !y.s.closed
            && (y.s2c != [] ==>
                  || y.s2c[0].EventPacket? || y.s2c[0].ServerRequest?
                  || (y.s2c[0].Ok? && y.c.call.Waiting? && (y.c.call.get <==> y.s2c[0].reply != Plain)))
            && (y.c2s != [] && !y.s.running ==>
                  || y.c2s[0].GetDebugEvent? || y.c2s[0].Request? || y.c2s[0].EvOk?
                  || (y.c2s[0].Ok? && y.s.frames != []))
  {
    InitKeeps(x);
    RunKeeps(x, run);
    var y := After(x, run);
    hide EventsIn, RepliesIn, CallsIn, AsksIn, CallsOf, ModesAgree, NothingLost, After;
    if y.s2c != [] {
      Received(y.s2c);
    }
    if y.c2s != [] {
      Received(y.c2s);
    }
  }

  /** The channels are queues: a step takes the first packet or none, a receiving
      step always takes it, and sends at most one packet, behind all others. */
  lemma ChannelsAreQueues(x: System, step: Step) returns (toServer: Channel, toClient: Channel)
    requires Enabled(x, step)
    ensures var y := Do(x, step);
            && |toServer| <= 1 && |toClient| <= 1
            && (y.c2s == (if step.ServerReceive? then x.c2s[1..] else x.c2s) + toServer)
            && (step.ClientReceive? ==> y.s2c == x.s2c[1..] + toClient)
            && (!step.ClientReceive? && !step.ClientGet? ==> y.s2c == x.s2c + toClient)
            && (step.ClientGet? ==>
                  y.s2c == (if !x.c.hasPending && x.c.poll && x.s2c != [] then x.s2c[1..] else x.s2c) + toClient)
  {
    var y := Do(x, step);
    var n, m := if step.ServerReceive? then |x.c2s| - 1 else |x.c2s|, |x.s2c|;
    toServer := if |y.c2s| > n then y.c2s[n..] else [];
    toClient := if |y.s2c| > m then y.s2c[m..] else [];
  }

  /** An event that arrives never replaces one that is still pending. */
  lemma PendingEventSafe(x: System, run: seq<Step>)
    requires Init(x) && Possible(x, run)
    ensures var y := After(x, run);
            y.s2c != [] && y.s2c[0].EventPacket? ==> !y.c.hasPending
  {
    InitKeeps(x);
    RunKeeps(x, run);
    var y := After(x, run);
    if y.s2c != [] {
      Received(y.s2c);
    }
  }

  /** The server polls only while it performs no request and waits for no answer,
      and only when the client polls too or is just being told to. */
  lemma PollsOnlyWhenExpected(x: System, run: seq<Step>)
    requires Init(x) && Possible(x, run)
    ensures var y := After(x, run);
            Enabled(y, ServerPoll) ==> y.s.frames == [] && Outstanding(y) == [] && (y.c.poll || NoEventComes(y))
  {
    InitKeeps(x);
    RunKeeps(x, run);
  }

  /** The client calls for an event `n` times in a row. */
  ghost function Calls(n: nat): seq<Step> {
    if n == 0 then [] else [ClientGet] + Calls(n - 1)
  }

  /** Progress: an idle client gets the outstanding event with its next calls,
      even if the server does nothing any more. */
  lemma {:induction false} EventArrives(x: System)
    requires Inv(x) && x.c.call == Idle && Outstanding(x) != []
    ensures exists n: nat :: n <= |x.s2c| + 1 && Possible(x, Calls(n)) &&
              After(x, Calls(n)).c.returned == x.s.taken && After(x, Calls(n)).s == x.s
    decreases |x.s2c|
  {
    hide EventsIn, RepliesIn, CallsIn, AsksIn, CallsOf, HasEventPacket, EventAfterReply, WillPoll;
    StepKeeps(x, ClientGet);
    var y := Do(x, ClientGet);
    if x.c.hasPending {
      assert Calls(1) == [ClientGet] + Calls(0);
      assert Possible(x, Calls(1)) && After(x, Calls(1)) == y;
      assert Outstanding(x)[0] == x.c.pending;
    } else {
      EventsTravelIn(x.s2c);
      PacketsWaiting(x.s2c);
      Received(x.s2c);
      assert y == TakePacket(x);
      EventArrives(y);
      var n: nat :| n <= |y.s2c| + 1 && Possible(y, Calls(n)) && After(y, Calls(n)).c.returned == y.s.taken
          && After(y, Calls(n)).s == y.s;
      assert Calls(n + 1)[1..] == Calls(n);
      assert Possible(x, Calls(n + 1)) && After(x, Calls(n + 1)) == After(y, Calls(n));
    }
  }

  /** Polling is never forgotten: after every run, when an idle client polls and
      has been given all events, the server can begin a poll, or polls already. */
  lemma PollingGoesOn(x: System, run: seq<Step>)
    requires Init(x) && Possible(x, run)
    ensures var y := After(x, run);
            y.c.call == Idle && y.c.poll && y.s.taken == y.c.returned ==>
              Enabled(y, ServerPoll) || y.s.frames == [Polling]
  {
    InitKeeps(x);
    RunKeeps(x, run);
    var y := After(x, run);
    if y.c.call == Idle && y.c.poll && y.s.taken == y.c.returned {
      assert y.s.taken == y.c.returned + Outstanding(y);
      assert CallsOf(y.s.frames) == [];
      WithoutCalls(y.s.frames);
    }
  }

  /** The whole way of a new event: whenever client and server are idle and all
      events have been handed out, the next event of the module reaches the
      caller, through a poll if the client polls, and otherwise through the
      request that the client then makes. */
  lemma NewEventArrives(x: System, ev: Event) returns (run: seq<Step>)
    requires Inv(x) && x.c.call == Idle && x.s.frames == [] && x.s.taken == x.c.returned && x.s2c == [] && x.c2s == []
    ensures Possible(x, run) && After(x, run).c.returned == x.c.returned + [ev]
    ensures x.c.poll ==> ServerPoll in run && PollEnd(Some(ev)) in run
    ensures !x.c.poll ==> run == [ClientGet, ServerReceive, RequestEnd(Some(ev)), ClientReceive]
  {
    assert x.s.taken == x.c.returned + Outstanding(x);
    if x.c.poll {
      run := PolledEventArrives(x, ev);
    } else {
      run := [ClientGet, ServerReceive, RequestEnd(Some(ev)), ClientReceive];
      RequestedEventArrives(x, ev);
    }
  }

  lemma PolledEventArrives(x: System, ev: Event) returns (run: seq<Step>)
    requires Inv(x) && x.c.call == Idle && x.c.poll && x.s.frames == [] && Outstanding(x) == []
    ensures Possible(x, run) && After(x, run).c.returned == x.c.returned + [ev]
    ensures ServerPoll in run && PollEnd(Some(ev)) in run
  {
    hide Inv, Do;
    PollTakes(x, ev);
    var x1 := Do(x, ServerPoll);
    var x2 := Do(x1, PollEnd(Some(ev)));
    StepKeeps(x, ServerPoll);
    StepKeeps(x1, PollEnd(Some(ev)));
    EventArrives(x2);
    var n: nat :| Possible(x2, Calls(n)) && After(x2, Calls(n)).c.returned == x2.s.taken;
    var rest := [PollEnd(Some(ev))] + Calls(n);
    assert rest[1..] == Calls(n);
    run := [ServerPoll] + rest;
    assert run[1..] == rest && run[0] == ServerPoll && rest[0] == PollEnd(Some(ev)) && run[1] == rest[0];
  }

  lemma IdleServer(x: System)
    requires Inv(x) && x.c.call == Idle && x.s.frames == []
    ensures !x.s.running && !x.s.hasPending && (x.c.hasPending ==> x.c.poll)
    ensures x.c.poll && Outstanding(x) == [] ==> x.s.poll
  {
  }

  lemma PollTakes(x: System, ev: Event)
    requires Inv(x) && x.c.call == Idle && x.c.poll && x.s.frames == [] && Outstanding(x) == []
    ensures Enabled(x, ServerPoll) && Enabled(Do(x, ServerPoll), PollEnd(Some(ev)))
    ensures var y := Do(Do(x, ServerPoll), PollEnd(Some(ev)));
            y.c == x.c && y.s.taken == x.c.returned + [ev] && Outstanding(y) != []
  {
    assert x.s.taken == x.c.returned + Outstanding(x);
    IdleServer(x);
    hide *;
    PollEndTakes(x, ev);
  }

  lemma PollEndTakes(x: System, ev: Event)
    requires !x.s.running && x.s.poll && !x.s.hasPending && x.s.frames == []
    ensures Enabled(x, ServerPoll) && Enabled(Do(x, ServerPoll), PollEnd(Some(ev)))
    ensures var y := Do(Do(x, ServerPoll), PollEnd(Some(ev)));
            y.c == x.c && y.s.taken == x.s.taken + [ev] && Outstanding(y) != []
  {
    hide EventsIn, RepliesIn, CallsIn, AsksIn;
    Sent(x.s2c, EventPacket(ev));
  }

  lemma RequestedEventArrives(x: System, ev: Event)
    requires Inv(x) && x.c.call == Idle && !x.c.poll && x.s.frames == [] && x.s2c == [] && x.c2s == []
    ensures var run := [ClientGet, ServerReceive, RequestEnd(Some(ev)), ClientReceive];
            Possible(x, run) && After(x, run).c.returned == x.c.returned + [ev]
  {
    IdleServer(x);
    hide Inv;
    var x1 := Do(x, ClientGet);
    assert x1.c2s == [GetDebugEvent];
    var x2 := Do(x1, ServerReceive);
    assert x2.s.frames == [Executing(x.s.poll, true)] && x2.c2s == [];
    RequestAnswered(x2, ev);
    var run := [RequestEnd(Some(ev)), ClientReceive];
    OneStep(x1, ServerReceive, run);
    OneStep(x, ClientGet, [ServerReceive] + run);
    assert [ServerReceive] + run == [ServerReceive, RequestEnd(Some(ev)), ClientReceive];
    assert [ClientGet] + ([ServerReceive] + run) == [ClientGet, ServerReceive, RequestEnd(Some(ev)), ClientReceive];
  }

  lemma RequestAnswered(x: System, ev: Event)
    requires x.c.call == Waiting(true) && x.s2c == [] && !x.s.hasPending
    requires |x.s.frames| == 1 && x.s.frames[0].Executing? && x.s.frames[0].get && x.s.running
    ensures var run := [RequestEnd(Some(ev)), ClientReceive];
            Possible(x, run) && After(x, run).c.returned == x.c.returned + [ev]
  {
    var x1 := Do(x, RequestEnd(Some(ev)));
    assert x1.s2c == [Ok(OneEvent(ev))];
    OneStep(x1, ClientReceive, []);
    OneStep(x, RequestEnd(Some(ev)), [ClientReceive]);
    assert [ClientReceive] == [ClientReceive] + [];
    assert [RequestEnd(Some(ev)), ClientReceive] == [RequestEnd(Some(ev))] + [ClientReceive];
  }

  lemma OneStep(x: System, step: Step, rest: seq<Step>)
    requires Enabled(x, step) && Possible(Do(x, step), rest)
    ensures Possible(x, [step] + rest) && After(x, [step] + rest) == After(Do(x, step), rest)
  {
    hide Do, Enabled;
    assert ([step] + rest)[1..] == rest;
  }

  lemma PacketsWaiting(ch: Channel)
    ensures EventsIn(ch) != [] ==> ch != []
  {
  }
}
