/** The two ends of the connection as objects. Every method is one piece of
    straight code between two waits; it does to the object what the state machine
    of EventProtocol.dfy does to the state. */
module RpcEndpoints {
  import opened EventProtocol
  import opened Options

  /** How `dbg_get_debug_event` goes on. */
  datatype GetStart = Returns(ev: Event) | Drains | Sends(req: Packet)

  class RpcClient {
    var hasPendingEvent: bool
    var pendingEvent: Event
    var pollDebugEvents: bool

    /** The object's part of the client's state. */
    ghost function View(call: Call, returned: seq<Event>): Client
      reads this
    {
      Client(hasPendingEvent, pendingEvent, pollDebugEvents, call, returned, false)
    }

    constructor ()
      ensures !hasPendingEvent && !pollDebugEvents
    {
      hasPendingEvent, pendingEvent, pollDebugEvents := false, Event(0), false;
    }

    /** Handles a packet of the server while the client waits for a reply. */
    method OnSendRequestInterrupt(p: Packet) returns (req: Packet)
      requires p.EventPacket? || p.ServerRequest?
      modifies this
      ensures forall call, returned :: Interrupt(old(View(call, returned)), p) == (View(call, returned), req)
    {
      req := Ok(Plain);
      match p {
        case EventPacket(ev) =>
          pendingEvent := ev;
          hasPendingEvent := true;
          req := EvOk;
        case ServerRequest =>
      }
    }

    /** The beginning of `dbg_get_debug_event`, up to its first wait. */
    method BeginGetDebugEvent() returns (r: GetStart)
      modifies this
      ensures forall x: System | x.c == old(View(Idle, x.c.returned)) ::
                match r
                case Returns(ev) => Do(x, ClientGet) == x.(c := View(Idle, x.c.returned + [ev]))
                case Drains => x.c == View(Idle, x.c.returned)
                    && Do(x, ClientGet) == if x.s2c == [] then x else TakePacket(x)
                case Sends(req) => Do(x, ClientGet) == x.(c := View(Waiting(true), x.c.returned), c2s := x.c2s + [req])
    {
      if hasPendingEvent {
        r := Returns(pendingEvent);
        hasPendingEvent := false;
        pollDebugEvents := false;
        return;
      }
      if pollDebugEvents {
        return Drains;
      }
      return Sends(GetDebugEvent);
    }

    /** The end of `dbg_get_debug_event`, with the server's reply. */
    method FinishGetDebugEvent(reply: Reply) returns (ev: Option<Event>)
      requires reply != Plain
      modifies this
      ensures forall returned ::
                FinishGet(old(View(Idle, returned)), reply) ==
                View(Idle, if ev.Some? then returned + [ev.value] else returned)
      ensures ev.Some? <==> reply.OneEvent?
    {
      match reply {
        case OneEvent(e) =>
          return Some(e);
        case NoEvent =>
          pollDebugEvents := true;
          return None;
      }
    }
  }

  class RpcServer {
    var pollDebugEvents: bool
    var hasPendingEvent: bool
    var pendingEvent: Event

    ghost predicate Is(s: Server)
      reads this
    {
      s.poll == pollDebugEvents && s.hasPending == hasPendingEvent
    }

    constructor ()
      ensures !hasPendingEvent && !pollDebugEvents
    {
      hasPendingEvent, pendingEvent, pollDebugEvents := false, Event(0), false;
    }

    /** The begin of `on_send_request_interrupt`: no polling during a request. */
    method BeginRequest(p: Packet) returns (savedPollMode: bool)
      modifies this
      ensures forall s: Server | old(Is(s)) ::
                var s' := EventProtocol.BeginRequest(s, p.GetDebugEvent?);
                Is(s') && s'.frames == s.frames + [Executing(savedPollMode, p.GetDebugEvent?)]
    {
      savedPollMode := pollDebugEvents;
      pollDebugEvents := false;
    }

    /** The rest of it: `answer` is what the debugger module says when asked. */
    method FinishRequest(savedPollMode: bool, get: bool, answer: Option<Event>) returns (req: Packet)
      modifies this
      ensures forall s: Server | old(Is(s)) && s.frames != [] ::
                Is(EndRequest(s, Executing(savedPollMode, get), answer)) && req == Ok(ReplyOf(s, get, answer))
    {
      var saved := savedPollMode;
      var reply := Plain;
      if get {
        var result := None;
        if !hasPendingEvent {
          result := answer;
        }
        match result {
          case Some(ev) =>
            reply := OneEvent(ev);
          case None =>
            reply := NoEvent;
            if !hasPendingEvent {
              saved := true;
            }
        }
      }
      if saved {
        pollDebugEvents := true;
      }
      return Ok(reply);
    }

    /** The begin of `poll_events`, called back while the server waits. */
    method BeginPoll() returns (polls: bool)
      modifies this
      ensures polls <==> old(!hasPendingEvent && pollDebugEvents)
      ensures forall x: System | old(Is(x.s)) && !x.s.running ::
                && (polls <==> Enabled(x, ServerPoll))
                && (polls ==> Is(Do(x, ServerPoll).s))
                && (!polls ==> Is(x.s))
    {
      polls := pollDebugEvents && !hasPendingEvent;
      if polls {
        pollDebugEvents := false;
      }
    }

    /** The rest of it: an event is sent at once, otherwise polling goes on. */
    method FinishPoll(answer: Option<Event>) returns (sent: seq<Packet>)
      requires !hasPendingEvent
      modifies this
      ensures forall x: System | old(Is(x.s)) && Enabled(x, PollEnd(answer)) ::
                Is(Do(x, PollEnd(answer)).s) && Do(x, PollEnd(answer)).s2c == x.s2c + sent
    {
      sent := [];
      match answer {
        case Some(ev) =>
          pendingEvent := ev;
          hasPendingEvent := true;
          sent := [EventPacket(pendingEvent)];
          hasPendingEvent := false;
        case None =>
          pollDebugEvents := true;
      }
    }
  }
}
