/** The calls of a debugger module that make an application call and undo it. */
module AppcallModule {
  import opened Options
  import opened AppcallStack
  import opened Appcalls
  import opened Words

  datatype Error =
    | NoError | ReadRegs | NoStack | RegUsed | ArgAlloc | WriteArgs | WriteRegs | HandleEvent
    | DebugEvent | Resume | Raised | CallFromException | Timeout

  datatype RegArg = RegArg(index: nat, value: Ea, relocate: bool)

  /** The arguments of one application call. */
  datatype Call = Call(funcEa: Ea, writeBack: int, regargs: seq<RegArg>, stkbytes: seq<Byte>, wantsReturn: bool,
                       manual: bool)

  /** How the event loop of a call ends. After a timeout the process is paused,
      if that is possible, and the loop ends with the next event. */
  datatype Ending = Returned | Exited(late: bool) | TimedOut | CannotPause | EventError | Exception | Unhandled

  /** What the operating system and the debuggee answer during one call. */
  datatype World = World(readable: bool, relocates: bool, stackWritable: bool, writableRegs: nat, resumes: bool,
                         ending: Ending, after: map<Thread, Regs>, argsWritable: bool, retReadable: bool,
                         restores: bool, unrestored: map<Thread, Regs>, exceptionLast: bool)

  /** The register values that a call asks for. */
  function Arguments(initial: map<nat, Ea>, args: seq<RegArg>, argsSp: Ea): map<nat, Ea> {
    if args == [] then initial
    else
      var last := args[|args| - 1];
      Arguments(initial, args[..|args| - 1], argsSp)[
        last.index := if last.relocate then Wrap(last.value + argsSp) else last.value]
  }

  /** Each register has the value of the last argument for it. */
  lemma {:induction false} LastArgumentWins(initial: map<nat, Ea>, args: seq<RegArg>, argsSp: Ea, k: nat)
    requires k < |args| && forall j | k < j < |args| :: args[j].index != args[k].index
    ensures args[k].index in Arguments(initial, args, argsSp)
    ensures Arguments(initial, args, argsSp)[args[k].index] ==
            if args[k].relocate then (args[k].value + argsSp) % ADDRESS_SPACE else args[k].value
  {
    if k < |args| - 1 {
      LastArgumentWins(initial, args[..|args| - 1], argsSp, k);
    }
  }

  /** On ARM the return address goes into the link register. */
  function LinkRegister(target: Target, ctrlEa: Ea): map<nat, Ea> {
    if target.arch == Arm then map[target.lr := ctrlEa] else map[]
  }

  function CallRegs(target: Target, call: Call, l: Layout, sp: Ea): map<nat, Ea> {
    Arguments(LinkRegister(target, l.ctrlEa), call.regargs, l.argsSp)[target.sp := sp][target.pc := call.funcEa]
  }

  function Overwritten(regs: Regs, values: map<nat, Ea>): (r: Regs)
    ensures |r| == |regs|
    ensures forall i | 0 <= i < |regs| :: r[i] == if i in values then values[i] else regs[i]
  {
    seq(|regs|, i requires 0 <= i < |regs| => if i in values then values[i] else regs[i])
  }

  predicate Reserved(target: Target, arg: RegArg) {
    arg.index == target.sp || arg.index == target.pc
  }

  /** The number of registers below `n` that have a value. */
  function CountBelow(values: map<nat, Ea>, n: nat): nat {
    if n == 0 then 0 else CountBelow(values, n - 1) + if n - 1 in values then 1 else 0
  }

  lemma {:induction false} CountIsSize(values: map<nat, Ea>, n: nat)
    ensures CountBelow(values, n) == |set i: nat | i < n && i in values|
  {
    if n == 0 {
      assert (set i: nat | i < n && i in values) == {};
    } else {
      CountIsSize(values, n - 1);
      var below := set i: nat | i < n - 1 && i in values;
      assert (set i: nat | i < n && i in values) == below + if n - 1 in values then {n - 1} else {};
    }
  }

  lemma {:induction false} CountGrows(values: map<nat, Ea>, i: nat, n: nat)
    requires i < n && i in values
    ensures 0 < CountBelow(values, n)
  {
    if i < n - 1 {
      CountGrows(values, i, n - 1);
    }
  }

  /** The new stack pointer and the layout of a call in these registers. */
  function Place(target: Target, regs: Regs, call: Call): Layout
    requires target.Valid() && |regs| == target.nregs
  {
    LayoutOf(target.addrSize, OrgSp(target.arch, regs[target.sp]), |call.stkbytes|)
  }

  function ImageFor(target: Target, regs: Regs, call: Call): Image
    requires target.Valid() && |regs| == target.nregs
  {
    ImageOf(target.arch, target.addrSize, Place(target, regs, call), call.stkbytes)
  }

  /** The error of the preparation, before the process is resumed. */
  ghost function PrepareError(target: Target, regs: Regs, afterException: bool, call: Call, world: World): Error
    requires target.Valid() && |regs| == target.nregs
  {
    var orgSp, l, image := OrgSp(target.arch, regs[target.sp]), Place(target, regs, call), ImageFor(target, regs, call);
    if afterException then CallFromException
    else if !world.readable then ReadRegs
    else if orgSp == BADADDR then NoStack
    else if !world.relocates then ArgAlloc
    else if !Passes(orgSp, l) then NoStack
    else if image.bytes != [] && !world.stackWritable then WriteArgs
    else if exists arg | arg in call.regargs :: Reserved(target, arg) then RegUsed
    else if world.writableRegs < CountBelow(CallRegs(target, call, l, image.start), target.nregs) then WriteRegs
    else NoError
  }

  /** The error of the rest of a call that is not a manual one. */
  function RunError(call: Call, world: World): Error {
    if !world.resumes then Resume
    else match world.ending
      case TimedOut => Timeout
      case CannotPause => Timeout
      case EventError => DebugEvent
      case Exception => Raised
      case Unhandled => HandleEvent
      case Exited(late) => if late then Timeout else NoError
      case Returned =>
        if 0 < call.writeBack && (|call.stkbytes| < call.writeBack || !world.argsWritable) then WriteArgs
        else if call.wantsReturn && !world.retReadable then ReadRegs
        else NoError
  }

  /** The error of a whole call. */
  ghost function CallError(target: Target, regs: Regs, afterException: bool, call: Call, world: World): Error
    requires target.Valid() && |regs| == target.nregs
  {
    var err := PrepareError(target, regs, afterException, call, world);
    if err != NoError || call.manual then err else RunError(call, world)
  }

  /** The result of a call without error. */
  ghost function ResultOf(target: Target, regs: Regs, call: Call, world: World): Ea
    requires target.Valid() && |regs| == target.nregs
  {
    if !call.manual && world.ending.Exited? then BADADDR else Place(target, regs, call).argsSp
  }

  /** The registers that a manual call leaves. */
  ghost function RegsOf(target: Target, regs: Regs, call: Call): Regs
    requires target.Valid() && |regs| == target.nregs
  {
    var l, image := Place(target, regs, call), ImageFor(target, regs, call);
    Overwritten(regs, CallRegs(target, call, l, image.start))
  }

  /** A call succeeds exactly when none of the checks fails and, if it is not a
      manual one, the process goes on and the call returns its results or the
      process exits in time. */
  lemma CallSucceedsExactly(target: Target, regs: Regs, afterException: bool, call: Call, world: World)
    requires target.Valid() && |regs| == target.nregs
    ensures CallError(target, regs, afterException, call, world) == NoError <==>
            && !afterException && world.readable && world.relocates
            && OrgSp(target.arch, regs[target.sp]) != BADADDR
            && Passes(OrgSp(target.arch, regs[target.sp]), Place(target, regs, call))
            && (ImageFor(target, regs, call).bytes == [] || world.stackWritable)
            && (forall arg | arg in call.regargs :: !Reserved(target, arg))
            && CountBelow(CallRegs(target, call, Place(target, regs, call), ImageFor(target, regs, call).start),
                          target.nregs) <= world.writableRegs
            && (call.manual
                || (world.resumes
                    && (world.ending == Exited(false)
                        || (world.ending == Returned
                            && (0 < call.writeBack ==> call.writeBack <= |call.stkbytes| && world.argsWritable)
                            && (call.wantsReturn ==> world.retReadable)))))
  {
    hide Place, ImageFor, CallRegs, CountBelow, OrgSp, Passes, Reserved;
  }

  /** The address that a call without error returns is that of its arguments in
      the image that it writes, at a 16-byte boundary; BADADDR if the process or
      the thread has exited. */
  lemma ResultIsArguments(target: Target, regs: Regs, call: Call, world: World)
    requires target.Valid() && |regs| == target.nregs
    requires PrepareError(target, regs, false, call, world) == NoError
    ensures var image, r := ImageFor(target, regs, call), ResultOf(target, regs, call, world);
            if !call.manual && world.ending.Exited? then r == 0xFFFF_FFFF_FFFF_FFFF
            else |call.stkbytes| <= MAX_ARGS ==>
              && r % 16 == 0 && image.start <= r && r + |call.stkbytes| <= image.start + |image.bytes|
              && forall k | 0 <= k < |call.stkbytes| :: image.bytes[r - image.start + k] == call.stkbytes[k]
  {
    hide LayoutOf, ImageOf, Passes, CountBelow;
    if |call.stkbytes| <= MAX_ARGS {
      ImageFits(target.arch, target.addrSize, OrgSp(target.arch, regs[target.sp]), call.stkbytes);
      var image, at, n := ImageFor(target, regs, call), Place(target, regs, call).argsSp, |call.stkbytes|;
      var part := image.bytes[at - image.start..at - image.start + n];
      assert part == call.stkbytes;
      assert forall k | 0 <= k < n :: part[k] == image.bytes[at - image.start + k];
    }
  }

  /** Nothing else goes into the link register. */
  ghost predicate LinkKept(target: Target, call: Call) {
    && target.arch == Arm && target.lr != target.sp && target.lr != target.pc
    && forall arg | arg in call.regargs :: arg.index != target.lr
  }

  /** What a manual call without error leaves: the stack pointer at the image,
      which lies below the usable top; the program counter at the function; the
      arguments at a 16-byte boundary; and on ARM the control address in the link
      register, unless an argument goes there. */
  lemma SuccessfulCallFits(target: Target, regs: Regs, call: Call, world: World)
    requires target.Valid() && |regs| == target.nregs && |call.stkbytes| <= MAX_ARGS
    requires PrepareError(target, regs, false, call, world) == NoError
    ensures var l, image, now := Place(target, regs, call), ImageFor(target, regs, call), RegsOf(target, regs, call);
            && now[target.sp] == image.start && now[target.pc] == call.funcEa
            && l.argsSp % 16 == 0 && Holds(image, l.argsSp, call.stkbytes)
            && End(image) <= OrgSp(target.arch, regs[target.sp])
            && (LinkKept(target, call) ==> now[target.lr] == l.ctrlEa)
  {
    hide LayoutOf, ImageOf, Holds, Passes, CountBelow;
    ImageFits(target.arch, target.addrSize, OrgSp(target.arch, regs[target.sp]), call.stkbytes);
    var l := Place(target, regs, call);
    if LinkKept(target, call) {
      OthersKept(LinkRegister(target, l.ctrlEa), call.regargs, l.argsSp, target.lr);
    }
  }

  lemma {:induction false} OthersKept(initial: map<nat, Ea>, args: seq<RegArg>, argsSp: Ea, r: nat)
    requires forall arg | arg in args :: arg.index != r
    ensures r in Arguments(initial, args, argsSp) <==> r in initial
    ensures r in initial ==> Arguments(initial, args, argsSp)[r] == initial[r]
  {
    if args != [] {
      OthersKept(initial, args[..|args| - 1], argsSp, r);
      assert args[|args| - 1] in args;
    }
  }

  /** With which registers the function is entered, one by one: the stack pointer
      at the image, the program counter at the function, in an argument register
      the value of the last argument for it, relative to the arguments on demand,
      and in all others what was there, on ARM the control address in the link
      register. */
  lemma RegistersOfCall(target: Target, regs: Regs, call: Call, i: nat)
    requires target.Valid() && |regs| == target.nregs && i < target.nregs
    ensures var l, now := Place(target, regs, call), RegsOf(target, regs, call);
            && |now| == target.nregs
            && (i == target.pc ==> now[i] == call.funcEa)
            && (i == target.sp ==> now[i] == ImageFor(target, regs, call).start)
            && (i != target.pc && i != target.sp ==>
                  && (forall k | 0 <= k < |call.regargs| && call.regargs[k].index == i
                                && (forall j | k < j < |call.regargs| :: call.regargs[j].index != i) ::
                        var arg := call.regargs[k];
                        now[i] == if arg.relocate then (arg.value + l.argsSp) % ADDRESS_SPACE else arg.value)
                  && ((forall k | 0 <= k < |call.regargs| :: call.regargs[k].index != i) ==>
                        now[i] == if target.arch == Arm && i == target.lr then l.ctrlEa else regs[i]))
  {
    hide LayoutOf, ImageOf;
    var l := Place(target, regs, call);
    var initial := LinkRegister(target, l.ctrlEa);
    forall k | 0 <= k < |call.regargs| && call.regargs[k].index == i
               && forall j | k < j < |call.regargs| :: call.regargs[j].index != i
      ensures i in Arguments(initial, call.regargs, l.argsSp)
      ensures var arg := call.regargs[k];
              Arguments(initial, call.regargs, l.argsSp)[i] ==
              if arg.relocate then (arg.value + l.argsSp) % ADDRESS_SPACE else arg.value
    {
      LastArgumentWins(initial, call.regargs, l.argsSp, k);
    }
    if forall k | 0 <= k < |call.regargs| :: call.regargs[k].index != i {
      OthersKept(initial, call.regargs, l.argsSp, i);
    }
  }

  /** What a call without error returns, and with which registers it enters. */
  lemma GoodCall(target: Target, regs: Regs, afterException: bool, call: Call, world: World)
    requires target.Valid() && |regs| == target.nregs
    requires CallError(target, regs, afterException, call, world) == NoError
    ensures var argsSp := ResultOf(target, regs, call, world);
            && (!call.manual && world.ending.Exited? ==> argsSp == 0xFFFF_FFFF_FFFF_FFFF)
            && ((call.manual || !world.ending.Exited?) && |call.stkbytes| <= MAX_ARGS ==>
                  var image := ImageFor(target, regs, call);
                  && argsSp % 16 == 0 && image.start <= argsSp
                  && argsSp + |call.stkbytes| <= image.start + |image.bytes|
                  && forall k | 0 <= k < |call.stkbytes| :: image.bytes[argsSp - image.start + k] == call.stkbytes[k])
            && (call.manual ==>
                  var now := RegsOf(target, regs, call);
                  && now[target.pc] == call.funcEa && now[target.sp] == ImageFor(target, regs, call).start
                  && forall k | 0 <= k < |call.regargs| && call.regargs[k].index < target.nregs
                                && call.regargs[k].relocate
                                && forall j | k < j < |call.regargs| ::
                                     call.regargs[j].index != call.regargs[k].index ::
                       now[call.regargs[k].index] == (call.regargs[k].value + argsSp) % ADDRESS_SPACE)
  {
    hide PrepareError, CallError, ImageFor, Place, RegsOf;
    PreparedIfGood(target, regs, afterException, call, world);
    ResultIsArguments(target, regs, call, world);
    RegistersOfCall(target, regs, call, target.pc);
    RegistersOfCall(target, regs, call, target.sp);
    forall k | 0 <= k < |call.regargs| && call.regargs[k].index < target.nregs && call.regargs[k].relocate
               && forall j | k < j < |call.regargs| :: call.regargs[j].index != call.regargs[k].index
      ensures RegsOf(target, regs, call)[call.regargs[k].index] ==
              (call.regargs[k].value + Place(target, regs, call).argsSp) % ADDRESS_SPACE
    {
      assert call.regargs[k] in call.regargs;
      RegistersOfCall(target, regs, call, call.regargs[k].index);
    }
  }

  /** All argument registers are free to use. */
  lemma PreparedIfGood(target: Target, regs: Regs, afterException: bool, call: Call, world: World)
    requires target.Valid() && |regs| == target.nregs
    requires CallError(target, regs, afterException, call, world) == NoError
    ensures PrepareError(target, regs, false, call, world) == NoError
    ensures forall arg | arg in call.regargs :: arg.index != target.sp && arg.index != target.pc
  {
    hide Place, ImageFor, CallRegs, CountBelow, OrgSp, Passes;
  }

  /** Manual calls of one thread, one inside another: all can be prepared. */
  ghost predicate AllPrepared(target: Target, regs: Regs, calls: seq<Call>, worlds: seq<World>)
    requires target.Valid() && |regs| == target.nregs && |worlds| == |calls|
    decreases |calls|
  {
    calls == [] || (PrepareError(target, regs, false, calls[0], worlds[0]) == NoError
                    && AllPrepared(target, RegsOf(target, regs, calls[0]), calls[1..], worlds[1..]))
  }

  /** The images that nested manual calls write. */
  ghost function ImagesOf(target: Target, regs: Regs, calls: seq<Call>): seq<Image>
    requires target.Valid() && |regs| == target.nregs
    decreases |calls|
  {
    if calls == [] then []
    else [ImageFor(target, regs, calls[0])] + ImagesOf(target, RegsOf(target, regs, calls[0]), calls[1..])
  }

  function Blocks(calls: seq<Call>): seq<seq<Byte>> {
    seq(|calls|, i requires 0 <= i < |calls| => calls[i].stkbytes)
  }

  /** Nested manual calls write images that descend from the first stack pointer
      and do not overlap. */
  lemma {:induction false} NestedManualCalls(target: Target, regs: Regs, calls: seq<Call>, worlds: seq<World>)
    requires target.Valid() && |regs| == target.nregs && |worlds| == |calls|
    requires AllPrepared(target, regs, calls, worlds)
    requires forall k | 0 <= k < |calls| :: |calls[k].stkbytes| <= MAX_ARGS
    ensures Nested(target.arch, target.addrSize, regs[target.sp], Blocks(calls)) == Some(ImagesOf(target, regs, calls))
    ensures Descending(regs[target.sp], ImagesOf(target, regs, calls))
    decreases |calls|
  {
    hide LayoutOf, ImageOf, Passes, Descending, CountBelow, Arguments;
    if calls != [] {
      NestedManualCalls(target, RegsOf(target, regs, calls[0]), calls[1..], worlds[1..]);
      assert Blocks(calls)[1..] == Blocks(calls[1..]);
    }
    NestedDescend(target.arch, target.addrSize, regs[target.sp], Blocks(calls));
  }

  /** The context of a failed call can be restored. */
  predicate CanRestore(push: Op, world: World)
    requires push.Push?
  {
    push.context.spoiled ==> world.restores && push.tid in push.after
  }

  class DebuggerModule {
    const target: Target
    var appcalls: map<Thread, seq<Context>>
    /** The registers of the debugged threads. */
    var regs: map<Thread, Regs>
    var lastIsException: bool

    ghost predicate Valid()
      reads this
    {
      target.Valid() && NoneEmpty(Now()) && AllSized(regs) && forall u | u in appcalls :: SavedSized(appcalls[u])
    }

    ghost predicate SavedSized(stack: seq<Context>) {
      forall c | c in stack :: c.spoiled ==> |c.savedRegs| == target.nregs
    }

    ghost predicate AllSized(all: map<Thread, Regs>) {
      forall tid | tid in all :: |all[tid]| == target.nregs
    }

    ghost function Now(): State
      reads this
    {
      State(appcalls, regs)
    }

    constructor (target: Target, regs: map<Thread, Regs>)
      requires target.Valid() && forall tid | tid in regs :: |regs[tid]| == target.nregs
      ensures Valid() && Now() == State(map[], regs) && this.target == target && !lastIsException
    {
      this.target := target;
      this.regs := regs;
      appcalls := map[];
      lastIsException := false;
    }

    /** Writes the registers of a call in the order of their numbers; the first
        `writable` writes work. */
    method WriteRegisters(tid: Thread, values: map<nat, Ea>, writable: nat) returns (ok: bool, spoiled: bool)
      requires Valid() && tid in regs
      modifies this`regs
      ensures Valid() && regs.Keys == old(regs).Keys
      ensures forall u | u in regs && u != tid :: regs[u] == old(regs)[u]
      ensures ok <==> CountBelow(values, target.nregs) <= writable
      ensures spoiled <==> 0 < CountBelow(values, target.nregs) && 0 < writable
      ensures ok ==> regs[tid] == Overwritten(old(regs)[tid], values)
      ensures !spoiled ==> regs == old(regs)
    {
      ok, spoiled := true, false;
      var i, written := 0, 0;
      ghost var all := Overwritten(regs[tid], values);
      while i < target.nregs
        invariant 0 <= i <= target.nregs
        invariant Valid() && regs.Keys == old(regs).Keys
        invariant forall u | u in regs && u != tid :: regs[u] == old(regs)[u]
        invariant forall j | 0 <= j < target.nregs :: regs[tid][j] == if j < i then all[j] else old(regs)[tid][j]
        invariant written == CountBelow(values, i) <= writable
        invariant spoiled <==> 0 < written
        invariant !spoiled ==> regs == old(regs)
      {
        if i in values {
          if written == writable {
            ok := false;
            CountMonotone(values, i + 1, target.nregs);
            return;
          }
          regs := regs[tid := regs[tid][i := values[i]]];
          written := written + 1;
          spoiled := true;
        }
        i := i + 1;
      }
      assert regs[tid] == all;
    }

    lemma {:induction false} CountMonotone(values: map<nat, Ea>, i: nat, n: nat)
      requires i <= n
      ensures CountBelow(values, i) <= CountBelow(values, n)
    {
      if i < n {
        CountMonotone(values, i, n - 1);
      }
    }

    /** The newest context of a thread can be restored. */
    ghost predicate Restorable(tid: Thread, world: World)
      requires Valid()
      reads this
    {
      tid in appcalls && (appcalls[tid][|appcalls[tid]| - 1].spoiled ==> world.restores && tid in regs)
    }

    /** Undoes the last call of a thread. The registers become the saved ones, on
        PC without the trap flag, which is bit 8. */
    method CleanupAppcall(tid: Thread, world: World) returns (ok: bool, ghost op: Op)
      requires Valid() && AllSized(world.unrestored)
      modifies this
      ensures Valid() && lastIsException == old(lastIsException)
      ensures ok <==> old(Restorable(tid, world))
      ensures op == if ok then CleanOk(tid) else CleanFail(tid, world.unrestored)
      ensures Enabled(old(Now()), op) && Now() == Step(target, old(Now()), op)
      ensures ok ==>
                var calls := old(appcalls)[tid];
                var ctx := calls[|calls| - 1];
                && StackOf(Now(), tid) == calls[..|calls| - 1]
                && if !ctx.spoiled then regs == old(regs)
                   else
                     && tid in regs && regs == old(regs)[tid := regs[tid]] && |regs[tid]| == |ctx.savedRegs|
                     && forall i | 0 <= i < |ctx.savedRegs| ::
                          var v := ctx.savedRegs[i];
                          regs[tid][i] ==
                          if target.arch != Arm && i == target.flags && v / 256 % 2 == 1 then v - 256 else v
      ensures !ok && tid !in old(appcalls) ==> Now() == old(Now())
      ensures !ok && tid in old(appcalls) ==>
                var calls, n := old(appcalls)[tid], |old(appcalls)[tid]| - 1;
                var stack := StackOf(Now(), tid);
                && |stack| == |calls| && stack[..n] == calls[..n] && regs == world.unrestored
                && |stack[n].savedRegs| == |calls[n].savedRegs|
                && forall i | 0 <= i < |stack[n].savedRegs| ::
                     var v := calls[n].savedRegs[i];
                     stack[n].savedRegs[i] ==
                     if target.arch != Arm && i == target.flags && v / 256 % 2 == 1 then v - 256 else v
    {
      ghost var before := Now();
      ok, op := TakeOff(tid, world);
      if ok {
        CleanupRestores(target, before, tid);
      } else if tid in before.stacks {
        hide Step;
        CleanupFails(target, before, tid, world.unrestored);
      }
    }

    /** The work of a cleanup. */
    method TakeOff(tid: Thread, world: World) returns (ok: bool, ghost op: Op)
      requires Valid() && AllSized(world.unrestored)
      modifies this
      ensures Valid() && lastIsException == old(lastIsException)
      ensures ok <==> old(Restorable(tid, world))
      ensures op == if ok then CleanOk(tid) else CleanFail(tid, world.unrestored)
      ensures Enabled(old(Now()), op) && Now() == Step(target, old(Now()), op)
    {
      hide Restored, SavedSized;
      ok, op := false, CleanFail(tid, world.unrestored);
      if tid !in appcalls {
        return;
      }
      var calls := appcalls[tid];
      if calls == [] {
        return;
      }
      var top := |calls| - 1;
      var ctx := Cleared(target, calls[top]);
      var below := calls[..top];
      assert SavedSized(below) && SavedSized(below + [ctx]) && (ctx.spoiled ==> |ctx.savedRegs| == target.nregs) by {
        TopSized(calls);
        PushedSized(below, ctx);
      }
      appcalls := appcalls[tid := below + [ctx]];
      if ctx.spoiled {
        if !(world.restores && tid in regs) {
          regs := world.unrestored;
          return;
        }
        regs := regs[tid := ctx.savedRegs];
      }
      appcalls := if below == [] then appcalls - {tid} else appcalls[tid := below];
      ok, op := true, CleanOk(tid);
    }

    /** Lays out the stack, writes it and sets the registers. */
    method Prepare(tid: Thread, call: Call, world: World) returns (err: Error, ctx: Context, l: Layout)
      requires Valid() && tid in regs
      modifies this`regs
      ensures Valid()
      ensures err == PrepareError(target, old(regs)[tid], lastIsException, call, world)
      ensures ctx.spoiled ==> ctx.savedRegs == old(regs)[tid]
      ensures !ctx.spoiled ==> regs == old(regs)
      ensures err == NoError ==> ctx.spoiled && l == Place(target, old(regs)[tid], call)
      ensures err == NoError ==> ctx.ctrlEa == l.ctrlEa && ctx.sp == ImageFor(target, old(regs)[tid], call).start
      ensures err == NoError ==>
              regs == old(regs)[tid := Overwritten(old(regs)[tid], CallRegs(target, call, l, ctx.sp))]
    {
      hide LayoutOf, ImageOf, Arguments, CountBelow, Overwritten, OrgSp, LinkRegister, Reserved, NoneEmpty;
      ctx, l := FRESH, Layout(BADADDR, BADADDR, BADADDR);
      if lastIsException {
        return CallFromException, ctx, l;
      }
      if !world.readable {
        return ReadRegs, ctx, l;
      }
      ctx := ctx.(savedRegs := regs[tid]);
      var orgSp := OrgSp(target.arch, ctx.savedRegs[target.sp]);
      if orgSp == BADADDR {
        return NoStack, ctx, l;
      }
      l := LayoutOf(target.addrSize, orgSp, |call.stkbytes|);
      ctx := ctx.(ctrlEa := l.ctrlEa);
      if !world.relocates {
        return ArgAlloc, ctx, l;
      }
      ctx := ctx.(sp := l.sp);
      if orgSp <= ctx.sp {
        return NoStack, ctx, l;
      }
      var image := BuildImage(target.arch, target.addrSize, l, call.stkbytes);
      ctx := ctx.(sp := image.start);
      if image.bytes != [] && !world.stackWritable {
        return WriteArgs, ctx, l;
      }
      var values, used := CopyArguments(LinkRegister(target, ctx.ctrlEa), call.regargs, l.argsSp);
      if used {
        return RegUsed, ctx, l;
      }
      values := values[target.sp := ctx.sp][target.pc := call.funcEa];
      var ok, spoiled := WriteRegisters(tid, values, world.writableRegs);
      ctx := ctx.(spoiled := spoiled);
      CountGrows(values, target.sp, target.nregs);
      err := if ok then NoError else WriteRegs;
    }

    /** The argument registers; `used` if one of them is reserved. */
    method CopyArguments(initial: map<nat, Ea>, args: seq<RegArg>, argsSp: Ea)
      returns (values: map<nat, Ea>, used: bool)
      ensures used <==> exists arg | arg in args :: Reserved(target, arg)
      ensures !used ==> values == Arguments(initial, args, argsSp)
    {
      values, used := initial, false;
      var i := 0;
      while i < |args|
        invariant 0 <= i <= |args|
        invariant forall j | 0 <= j < i :: !Reserved(target, args[j])
        invariant values == Arguments(initial, args[..i], argsSp)
      {
        var arg := args[i];
        if Reserved(target, arg) {
          return values, true;
        }
        values := values[arg.index := if arg.relocate then Wrap(arg.value + argsSp) else arg.value];
        i := i + 1;
        assert args[..i][..i - 1] == args[..i - 1];
      }
      assert args[..i] == args;
    }

    /** Resumes the process, waits for the end of the call and takes its results. */
    method Finish(call: Call, world: World) returns (err: Error, exited: bool)
      requires Valid() && AllSized(world.after)
      modifies this`regs, this`lastIsException
      ensures Valid()
      ensures err == RunError(call, world)
      ensures exited <==> world.resumes && world.ending.Exited?
      ensures regs == if world.resumes then world.after else old(regs)
    {
      err, exited := NoError, false;
      if !world.resumes {
        return Resume, false;
      }
      regs := world.after;
      lastIsException := world.exceptionLast;
      match world.ending
      case Exited(late) =>
        return if late then Timeout else NoError, true;
      case TimedOut =>
        lastIsException, err := false, Timeout;
      case CannotPause =>
        err := Timeout;
      case EventError =>
        err := DebugEvent;
      case Exception =>
        lastIsException, err := false, Raised;
      case Unhandled =>
        err := HandleEvent;
      case Returned =>
        lastIsException := false;
        if 0 < call.writeBack {
          if |call.stkbytes| < call.writeBack || !world.argsWritable {
            return WriteArgs, false;
          }
        }
        if call.wantsReturn && !world.retReadable {
          err := ReadRegs;
        }
    }

    /** An application call up to its own cleanup. */
    method Attempt(tid: Thread, call: Call, world: World) returns (argsSp: Ea, err: Error, ctx: Context)
      requires Valid() && tid in regs && AllSized(world.after)
      modifies this`regs, this`lastIsException
      ensures Valid()
      ensures err == CallError(target, old(regs)[tid], old(lastIsException), call, world)
      ensures ctx.spoiled ==> ctx.savedRegs == old(regs)[tid]
      ensures !ctx.spoiled ==> regs == old(regs)
      ensures err == NoError ==>
                var saved := old(regs)[tid];
                ctx == Context(saved, ImageFor(target, saved, call).start, Place(target, saved, call).ctrlEa, true)
      ensures err == NoError ==> argsSp == ResultOf(target, old(regs)[tid], call, world)
      ensures err == NoError && call.manual ==> regs == old(regs)[tid := RegsOf(target, old(regs)[tid], call)]
    {
      var l;
      err, ctx, l := Prepare(tid, call, world);
      argsSp := l.argsSp;
      if err == NoError && !call.manual {
        var exited;
        err, exited := Finish(call, world);
        argsSp := if exited then BADADDR else argsSp;
      }
    }

    /** An application call. Every call is a `Push` of the state machine, and a
        failed one undoes it with a cleanup. Without an error the stack of the
        thread has one context more, and the others are as before; with an error,
        and if the registers can be restored, everything is as before, up to the
        trap flag. The result is the address of the arguments, or BADADDR on
        failure and when the process or the thread has exited; on exit the
        context stays. */
    method Appcall(tid: Thread, call: Call, world: World)
      returns (argsSp: Ea, err: Error, ghost push: Op, ghost clean: Op)
      requires Valid() && tid in regs && AllSized(world.after) && AllSized(world.unrestored)
      modifies this
      ensures Valid()
      ensures err == CallError(target, old(regs)[tid], old(lastIsException), call, world)
      ensures push.Push? && push.tid == tid && Enabled(old(Now()), push)
      ensures err == NoError ==>
                var found := old(regs)[tid];
                var l, image := Place(target, found, call), ImageFor(target, found, call);
                Now() == Step(target, old(Now()), push) && push.context == Context(found, image.start, l.ctrlEa, true)
      ensures err == NoError ==> argsSp == ResultOf(target, old(regs)[tid], call, world)
      ensures err == NoError && !call.manual && world.ending.Exited? ==> argsSp == 0xFFFF_FFFF_FFFF_FFFF
      ensures err == NoError && (call.manual || !world.ending.Exited?) && |call.stkbytes| <= MAX_ARGS ==>
                var image := ImageFor(target, old(regs)[tid], call);
                && argsSp % 16 == 0 && image.start <= argsSp && argsSp + |call.stkbytes| <= image.start + |image.bytes|
                && forall k | 0 <= k < |call.stkbytes| :: image.bytes[argsSp - image.start + k] == call.stkbytes[k]
      ensures err == NoError && call.manual ==> regs == old(regs)[tid := RegsOf(target, old(regs)[tid], call)]
      ensures err == NoError && call.manual ==>
                && regs[tid][target.pc] == call.funcEa
                && regs[tid][target.sp] == ImageFor(target, old(regs)[tid], call).start
                && forall k | 0 <= k < |call.regargs| && call.regargs[k].index < target.nregs
                              && call.regargs[k].relocate
                              && forall j | k < j < |call.regargs| :: call.regargs[j].index != call.regargs[k].index ::
                     regs[tid][call.regargs[k].index] == (call.regargs[k].value + argsSp) % ADDRESS_SPACE
      ensures err != NoError ==> argsSp == BADADDR && Now() == Step(target, Step(target, old(Now()), push), clean)
      ensures err != NoError ==>
              clean == if CanRestore(push, world) then CleanOk(tid) else CleanFail(tid, world.unrestored)
      ensures err == NoError ==> appcalls == old(appcalls)[tid := StackOf(old(Now()), tid) + [push.context]]
      ensures err != NoError && CanRestore(push, world) ==> appcalls == old(appcalls)
      ensures err != NoError && CanRestore(push, world) && push.context.spoiled ==>
                && tid in regs
                && forall i | 0 <= i < target.nregs ::
                     var v := old(regs)[tid][i];
                     regs[tid][i] == if target.arch != Arm && i == target.flags && v / 256 % 2 == 1 then v - 256 else v
      ensures err != NoError && CanRestore(push, world) && !push.context.spoiled ==> regs == old(regs)
    {
      hide PrepareError, CallError, ResultOf, RegsOf, Restored, Place, ImageFor;
      ghost var before := Now();
      var calls := if tid in appcalls then appcalls[tid] else [];
      var ctx;
      argsSp, err, ctx := Attempt(tid, call, world);
      appcalls := appcalls[tid := calls + [ctx]];
      push := Push(tid, ctx, regs);
      clean := CleanOk(tid);
      assert Now() == Step(target, before, push) && Enabled(before, push);
      assert Valid() by { PushedSized(calls, ctx); }
      hide Step, Enabled;
      if err != NoError {
        var ok;
        ok, clean := CleanupAppcall(tid, world);
        argsSp := BADADDR;
        FailedCallLeavesNoTrace(target, before, push, tid);
      } else {
        GoodCall(target, before.regs[tid], old(lastIsException), call, world);
      }
    }

    lemma TopSized(calls: seq<Context>)
      requires SavedSized(calls) && calls != []
      ensures var top := |calls| - 1;
              SavedSized(calls[..top]) && (calls[top].spoiled ==> |calls[top].savedRegs| == target.nregs)
    {
    }

    lemma PushedSized(calls: seq<Context>, ctx: Context)
      requires SavedSized(calls) && (ctx.spoiled ==> |ctx.savedRegs| == target.nregs)
      ensures SavedSized(calls + [ctx])
    {
      forall c | c in calls + [ctx] ensures c.spoiled ==> |c.savedRegs| == target.nregs {
        assert c in calls || c == ctx;
      }
    }
  }
}
