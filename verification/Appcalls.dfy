/** Application calls: per thread, a stack of contexts to return to. */
module Appcalls {
  import opened AppcallStack
  import opened Words

  type Thread = nat
  type Regs = seq<Ea>

  /** What the debugger module is built for. */
  datatype Target = Target(arch: Arch, addrSize: nat, nregs: nat, sp: nat, pc: nat, lr: nat, flags: nat) {
    ghost predicate Valid() {
      addrSize in {4, 8} && sp < nregs && pc < nregs && sp != pc && lr < nregs && flags < nregs
    }
  }

  datatype Context = Context(savedRegs: Regs, sp: Ea, ctrlEa: Ea, spoiled: bool)

  const FRESH := Context([], BADADDR, BADADDR, false)

  /** A register value without its bit 8, the trap flag of x86. */
  function ClearTrap(v: Ea): (r: Ea)
    ensures r / 256 % 2 == 0 && (v / 256 % 2 == 0 ==> r == v) && v - r <= 256
  {
    if v / 256 % 2 == 1 then v - 256 else v
  }

  /** The registers to go back to: on PC without the trap flag. */
  function Restored(target: Target, regs: Regs): (r: Regs)
    ensures |r| == |regs|
  {
    if target.arch != Arm && target.flags < |regs| then regs[target.flags := ClearTrap(regs[target.flags])]
    else regs
  }

  /** Register by register: bit 8 of the flags of a PC is cleared, and nothing
      else changes. */
  lemma RestoredRegisters(target: Target, regs: Regs)
    ensures |Restored(target, regs)| == |regs|
    ensures forall i | 0 <= i < |regs| ::
              Restored(target, regs)[i] ==
              if target.arch != Arm && i == target.flags && regs[i] / 256 % 2 == 1 then regs[i] - 256 else regs[i]
  {
  }

  lemma RestoredTwice(target: Target, regs: Regs)
    ensures Restored(target, Restored(target, regs)) == Restored(target, regs)
  {
  }

  // ------------------------------------------------------------ state machine

  /** The contexts of the module, and the registers of the threads it debugs. */
  datatype State = State(stacks: map<Thread, seq<Context>>, regs: map<Thread, Regs>)

  function StackOf(s: State, tid: Thread): seq<Context> {
    if tid in s.stacks then s.stacks[tid] else []
  }

  /** What can happen to the state. `Push`: a call saves a context, may set the
      registers and may let the process run. `CleanOk`, `CleanFail`: a cleanup
      succeeds or fails. `Runs`: the process runs or the user edits registers. */
  datatype Op =
    | Push(tid: Thread, context: Context, after: map<Thread, Regs>)
    | CleanOk(tid: Thread)
    | CleanFail(tid: Thread, after: map<Thread, Regs>)
    | Runs(after: map<Thread, Regs>)

  ghost predicate Enabled(s: State, op: Op) {
    match op
    case Push(tid, context, after) =>
      if context.spoiled then tid in s.regs && context.savedRegs == s.regs[tid] else after == s.regs
    case CleanOk(tid) => StackOf(s, tid) != []
    case CleanFail(tid, after) => true
    case Runs(after) => true
  }

  function Cleared(target: Target, c: Context): Context {
    c.(savedRegs := Restored(target, c.savedRegs))
  }

  function Step(target: Target, s: State, op: Op): State {
    match op
    case Push(tid, context, after) =>
      State(s.stacks[tid := StackOf(s, tid) + [context]], after)
    case CleanOk(tid) =>
      var stack := StackOf(s, tid);
      if stack == [] then s
      else
        var n := |stack| - 1;
        State(if n == 0 then s.stacks - {tid} else s.stacks[tid := stack[..n]],
              if stack[n].spoiled then s.regs[tid := Restored(target, stack[n].savedRegs)] else s.regs)
    case CleanFail(tid, after) =>
      var stack := StackOf(s, tid);
      if stack == [] then s
      else State(s.stacks[tid := stack[..|stack| - 1] + [Cleared(target, stack[|stack| - 1])]], after)
    case Runs(after) => s.(regs := after)
  }

  function Run(target: Target, s: State, ops: seq<Op>): State
    decreases |ops|
  {
    if ops == [] then s else Run(target, Step(target, s, ops[0]), ops[1..])
  }

  /** No thread is mapped to an empty stack. */
  ghost predicate NoneEmpty(s: State) {
    forall tid | tid in s.stacks :: s.stacks[tid] != []
  }

  lemma {:induction false} NeverEmpty(target: Target, s: State, ops: seq<Op>)
    requires NoneEmpty(s)
    ensures NoneEmpty(Run(target, s, ops))
    decreases |ops|
  {
    if ops != [] {
      NeverEmpty(target, Step(target, s, ops[0]), ops[1..]);
    }
  }

  /** No operation in `ops` is one of thread `tid`. */
  predicate Elsewhere(op: Op, tid: Thread) {
    op.Runs? || op.tid != tid
  }

  lemma {:induction false} OtherThreadsUntouched(target: Target, s: State, ops: seq<Op>, tid: Thread)
    requires forall op | op in ops :: Elsewhere(op, tid)
    ensures var end := Run(target, s, ops);
            (tid in end.stacks <==> tid in s.stacks) && StackOf(end, tid) == StackOf(s, tid)
    decreases |ops|
  {
    if ops != [] {
      assert Elsewhere(ops[0], tid);
      OtherThreadsUntouched(target, Step(target, s, ops[0]), ops[1..], tid);
    }
  }

  /** The stack of `tid` has at least `depth` contexts all along the run. */
  ghost predicate StaysAbove(target: Target, s: State, ops: seq<Op>, tid: Thread, depth: nat)
    decreases |ops|
  {
    depth <= |StackOf(s, tid)| && (ops == [] || StaysAbove(target, Step(target, s, ops[0]), ops[1..], tid, depth))
  }

  /** The same context, but for a trap flag that a failed cleanup has cleared. */
  ghost predicate SameContext(target: Target, a: Context, b: Context) {
    b == a || b == Cleared(target, a)
  }

  /** `depth` contexts of two stacks agree; only the last may have lost its trap flag. */
  ghost predicate SameBelow(target: Target, a: seq<Context>, b: seq<Context>, depth: nat) {
    0 < depth <= |a| && depth <= |b| && a[..depth - 1] == b[..depth - 1]
    && SameContext(target, a[depth - 1], b[depth - 1])
  }

  lemma StepSameBelow(target: Target, s: State, op: Op, tid: Thread, depth: nat)
    requires 0 < depth <= |StackOf(s, tid)| && depth <= |StackOf(Step(target, s, op), tid)|
    ensures SameBelow(target, StackOf(s, tid), StackOf(Step(target, s, op), tid), depth)
  {
  }

  /** While calls nest above it, a context is neither lost nor changed. */
  lemma {:induction false} NestingKeepsContexts(target: Target, s: State, ops: seq<Op>, tid: Thread, depth: nat)
    requires 0 < depth && StaysAbove(target, s, ops, tid, depth)
    ensures depth <= |StackOf(Run(target, s, ops), tid)|
    ensures SameBelow(target, StackOf(s, tid), StackOf(Run(target, s, ops), tid), depth)
    decreases |ops|
  {
    if ops != [] {
      var next := Step(target, s, ops[0]);
      NestingKeepsContexts(target, next, ops[1..], tid, depth);
      StepSameBelow(target, s, ops[0], tid, depth);
      var a := StackOf(s, tid)[depth - 1];
      RestoredTwice(target, a.savedRegs);
    }
  }

  /** Only the cleanup of a call takes its context off. */
  lemma UnwoundByCleanup(target: Target, s: State, call: Op, between: seq<Op>, last: Op, tid: Thread)
    requires call.Push? && call.tid == tid && call.context.spoiled && NoneEmpty(s) && Enabled(s, call)
    requires StaysAbove(target, Step(target, s, call), between, tid, |StackOf(s, tid)| + 1)
    requires |StackOf(Run(target, s, [call] + between + [last]), tid)| <= |StackOf(s, tid)|
    ensures var end := Run(target, s, [call] + between + [last]);
            && last == CleanOk(tid)
            && StackOf(end, tid) == StackOf(s, tid) && (tid in end.stacks <==> tid in s.stacks)
            && tid in end.regs && end.regs[tid] == Restored(target, s.regs[tid])
  {
    hide Restored;
    var s1 := Step(target, s, call);
    var s2 := Run(target, s1, between);
    var depth := |StackOf(s, tid)| + 1;
    NestingKeepsContexts(target, s1, between, tid, depth);
    RunSplits(target, s, call, between, last);
    assert StackOf(s1, tid)[..depth - 1] == StackOf(s, tid);
    assert StackOf(s1, tid)[depth - 1] == call.context;
    RestoredTwice(target, s.regs[tid]);
  }

  /** Main result. A call of thread `tid` that has set registers saves a context;
      whatever then happens, nested calls included, while that context is on the
      stack, the cleanup that takes it off restores the stack as it was and every
      register as the call found it, on PC without the trap flag. */
  lemma UnwindRestores(target: Target, s: State, call: Op, between: seq<Op>, last: Op, tid: Thread)
    requires call.Push? && call.tid == tid && call.context.spoiled && NoneEmpty(s) && Enabled(s, call)
    requires StaysAbove(target, Step(target, s, call), between, tid, |StackOf(s, tid)| + 1)
    requires |StackOf(Run(target, s, [call] + between + [last]), tid)| <= |StackOf(s, tid)|
    ensures var end := Run(target, s, [call] + between + [last]);
            && last == CleanOk(tid)
            && StackOf(end, tid) == StackOf(s, tid) && (tid in end.stacks <==> tid in s.stacks)
            && tid in end.regs && |end.regs[tid]| == |s.regs[tid]|
            && forall i | 0 <= i < |s.regs[tid]| ::
                 var v := s.regs[tid][i];
                 end.regs[tid][i] == if target.arch != Arm && i == target.flags && v / 256 % 2 == 1 then v - 256 else v
  {
    hide Run, Step, StaysAbove, Restored;
    UnwoundByCleanup(target, s, call, between, last, tid);
    RestoredRegisters(target, s.regs[tid]);
  }

  /** What a cleanup without failure does. */
  lemma CleanupRestores(target: Target, s: State, tid: Thread)
    requires StackOf(s, tid) != []
    ensures var stack, end := StackOf(s, tid), Step(target, s, CleanOk(tid));
            var ctx := stack[|stack| - 1];
            && StackOf(end, tid) == stack[..|stack| - 1]
            && (forall u | u != tid :: StackOf(end, u) == StackOf(s, u))
            && if !ctx.spoiled then end.regs == s.regs
               else
                 && tid in end.regs && end.regs == s.regs[tid := end.regs[tid]] && |end.regs[tid]| == |ctx.savedRegs|
                 && forall i | 0 <= i < |ctx.savedRegs| ::
                      var v := ctx.savedRegs[i];
                      end.regs[tid][i] ==
                      if target.arch != Arm && i == target.flags && v / 256 % 2 == 1 then v - 256 else v
  {
    hide Restored;
    var stack := StackOf(s, tid);
    RestoredRegisters(target, stack[|stack| - 1].savedRegs);
  }

  /** What a failing cleanup does: the context stays, with the trap flag cleared
      in the registers it saves, and the registers of the threads are whatever
      the failing write has left. */
  lemma CleanupFails(target: Target, s: State, tid: Thread, after: map<Thread, Regs>)
    requires StackOf(s, tid) != []
    ensures var before, end := StackOf(s, tid), Step(target, s, CleanFail(tid, after));
            var stack, n := StackOf(end, tid), |StackOf(s, tid)| - 1;
            && |stack| == |before| && stack[..n] == before[..n]
            && (forall u | u != tid :: StackOf(end, u) == StackOf(s, u)) && end.regs == after
            && stack[n].sp == before[n].sp && stack[n].ctrlEa == before[n].ctrlEa
            && stack[n].spoiled == before[n].spoiled
            && |stack[n].savedRegs| == |before[n].savedRegs|
            && forall i | 0 <= i < |stack[n].savedRegs| ::
                 var v := before[n].savedRegs[i];
                 stack[n].savedRegs[i] ==
                 if target.arch != Arm && i == target.flags && v / 256 % 2 == 1 then v - 256 else v
  {
    hide Restored;
    var stack := StackOf(s, tid);
    RestoredRegisters(target, stack[|stack| - 1].savedRegs);
  }

  lemma {:induction false} RunSplits(target: Target, s: State, first: Op, between: seq<Op>, last: Op)
    ensures Run(target, s, [first] + between + [last])
            == Step(target, Run(target, Step(target, s, first), between), last)
  {
    RunAppend(target, Step(target, s, first), between, [last]);
    var all := [first] + between + [last];
    assert all[1..] == between + [last];
    var end := Run(target, Step(target, s, first), between);
    assert Run(target, end, [last]) == Run(target, Step(target, end, last), [last][1..]);
  }

  lemma {:induction false} RunAppend(target: Target, s: State, a: seq<Op>, b: seq<Op>)
    ensures Run(target, s, a + b) == Run(target, Run(target, s, a), b)
    decreases |a|
  {
    if a == [] {
      assert a + b == b;
    } else {
      assert (a + b)[1..] == a[1..] + b;
      RunAppend(target, Step(target, s, a[0]), a[1..], b);
    }
  }

  lemma {:induction false} RunTwo(target: Target, s: State, a: Op, b: Op)
    ensures Run(target, s, [a, b]) == Step(target, Step(target, s, a), b)
  {
    hide Step;
    assert [a, b][1..] == [b] && [b][1..] == [];
    assert Run(target, Step(target, s, a), [b]) == Run(target, Step(target, Step(target, s, a), b), [b][1..]);
  }

  lemma PushAndCleanup(target: Target, s: State, call: Op, tid: Thread)
    requires call.Push? && call.tid == tid && NoneEmpty(s) && Enabled(s, call)
    ensures var end := Step(target, Step(target, s, call), CleanOk(tid));
            && end.stacks == s.stacks
            && (!call.context.spoiled ==> end.regs == s.regs)
            && (call.context.spoiled ==> tid in end.regs && end.regs[tid] == Restored(target, s.regs[tid]))
  {
    hide Restored;
    assert StackOf(Step(target, s, call), tid)[..|StackOf(s, tid)|] == StackOf(s, tid);
  }

  /** A call whose own cleanup succeeds leaves no trace: the stacks are as they
      were, and so are the registers of the thread, up to the trap flag. */
  lemma FailedCallLeavesNoTrace(target: Target, s: State, call: Op, tid: Thread)
    requires call.Push? && call.tid == tid && NoneEmpty(s) && Enabled(s, call)
    ensures var end := Run(target, s, [call, CleanOk(tid)]);
            && end == Step(target, Step(target, s, call), CleanOk(tid))
            && end.stacks == s.stacks
            && (!call.context.spoiled ==> end.regs == s.regs)
            && (call.context.spoiled ==>
                  && tid in end.regs && |end.regs[tid]| == |s.regs[tid]|
                  && forall i | 0 <= i < |s.regs[tid]| ::
                       var v := s.regs[tid][i];
                       end.regs[tid][i] ==
                       if target.arch != Arm && i == target.flags && v / 256 % 2 == 1 then v - 256 else v)
  {
    hide Restored, Step, Run;
    RunTwo(target, s, call, CleanOk(tid));
    PushAndCleanup(target, s, call, tid);
    if call.context.spoiled {
      RestoredRegisters(target, s.regs[tid]);
    }
  }
}
