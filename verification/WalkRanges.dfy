/** The walks over the memory ranges of the process, as the two matchers do
    them: which pieces they pick, and how the searches follow one another. */
module WalkRanges {
  import opened BinPattern
  import opened Options
  import opened WalkPlans
  import opened WalkRuns
  import opened Words
  import F = ForwardSearch
  import B = BackwardSearch
  import FM = ForwardMatcher
  import BM = BackwardMatcher

  /** What a return code and the found address say about an outcome. */
  ghost predicate Reports(r: F.Outcome, drc: Drc, foundEa: Option<int>, pms: seq<Partial>) {
    match r
    case FoundAt(ea) => drc == DrcOk && foundEa == Some(ea)
    case NotFound(p) => drc == DrcFailed && pms == p
    case _ => drc == DrcError
  }

  /** No search of the forward walk goes without success through the last page
      of the address space; see `FM.ForwardRightExactly`. */
  ghost predicate NeverWraps(q: Query, t: Target, probe: nat -> bool, plan: seq<Range>, pms: seq<Partial>)
    requires q.Valid()
  {
    plan == [] ||
    if !probe(plan[0].start) then NeverWraps(q, t, probe, plan[1..], pms)
    else
      var r := F.FindIn(q, t, plan[0].start, plan[0].end, pms);
      r.NotFound? ==> plan[0].end <= ADDRESS_SPACE - q.pageSize && NeverWraps(q, t, probe, plan[1..], r.pms)
  }

  /** So it is when the pieces end at or below that page. */
  lemma {:induction false} BelowTopNeverWraps(q: Query, t: Target, probe: nat -> bool, plan: seq<Range>,
                                              pms: seq<Partial>)
    requires q.Valid() && forall k | 0 <= k < |plan| :: plan[k].end <= ADDRESS_SPACE - q.pageSize
    ensures NeverWraps(q, t, probe, plan, pms)
    decreases |plan|
  {
    hide F.FindIn;
    if plan != [] {
      var r := F.FindIn(q, t, plan[0].start, plan[0].end, pms);
      BelowTopNeverWraps(q, t, probe, plan[1..], if probe(plan[0].start) && r.NotFound? then r.pms else pms);
    }
  }

  method SearchForward(m: FM.ForwardMatcher, probe: nat -> bool, start: nat, end: nat) returns (drc: Drc)
    requires m.Valid() && start <= end < ADDRESS_SPACE && ADDRESS_SPACE % m.q.pageSize == 0
    requires end <= ADDRESS_SPACE - m.q.pageSize || !probe(start)
            || !F.FindIn(m.q, m.t, start, end, m.pmatches).NotFound?
    modifies m, m.page
    ensures m.Valid()
    ensures Reports(if probe(start) then F.FindIn(m.q, m.t, start, end, old(m.pmatches))
                    else F.NotFound(old(m.pmatches)),
                    drc, m.foundEa, m.pmatches)
  {
    if !probe(start) {
      return DrcFailed;
    }
    drc := m.Find(start, end);
  }

  method SearchBackward(m: BM.BackwardMatcher, probe: nat -> bool, start: nat, end: nat) returns (drc: Drc)
    requires m.Valid() && start <= end < ADDRESS_SPACE && ADDRESS_SPACE % m.q.pageSize == 0
    modifies m, m.page
    ensures m.Valid()
    ensures Reports(if probe(start) then B.FindIn(m.q, m.t, start, end, old(m.pmatches))
                    else F.NotFound(old(m.pmatches)),
                    drc, m.foundEa, m.pmatches)
  {
    if !probe(start) {
      return DrcFailed;
    }
    drc := m.Find(start, end);
  }

  /** The first part of the forward walk, and the index of its range. */
  method PickForward(rs: seq<Range>, s: nat, e: nat) returns (p: nat, first: Option<Range>)
    requires Sorted(rs) && s < e
    ensures p <= |rs| && (first.Some? ==> p < |rs| && first.value.start <= first.value.end <= e)
    ensures ForwardPlan(rs, s, e) == if first.Some? then [first.value] + LaterForward(rs, e, p + 1) else []
  {
    p := 0;
    var rangeStart: Option<nat> := None;
    while p < |rs|
      invariant 0 <= p <= |rs| && rangeStart == None
      invariant FirstForward(rs, s, 0) == FirstForward(rs, s, p)
    {
      if rs[p].Contains(s) {
        rangeStart := Some(s);
        break;
      }
      if rs[p].start > s {
        break;
      }
      p := p + 1;
    }
    if rangeStart == None {
      if p == |rs| || rs[p].start >= e {
        return p, None;
      }
      rangeStart := Some(rs[p].start);
    }
    first := Some(Range(rangeStart.value, if e < rs[p].end then e else rs[p].end));
  }

  method WalkForward(m: FM.ForwardMatcher, probe: nat -> bool, rs: seq<Range>, s: nat, e: nat) returns (drc: Drc)
    requires m.Valid() && Sorted(rs) && s < e < ADDRESS_SPACE && ADDRESS_SPACE % m.q.pageSize == 0
    requires NeverWraps(m.q, m.t, probe, ForwardPlan(rs, s, e), m.pmatches)
    modifies m, m.page
    ensures m.Valid()
    ensures Reports(RunForward(m.q, m.t, probe, ForwardPlan(rs, s, e), old(m.pmatches)), drc, m.foundEa, m.pmatches)
  {
    hide F.FindIn, Indices, FirstForward;
    ghost var plan := ForwardPlan(rs, s, e);
    var p, first := PickForward(rs, s, e);
    if first == None {
      return DrcFailed;
    }
    drc := SearchForward(m, probe, first.value.start, first.value.end);
    assert plan[1..] == LaterForward(rs, e, p + 1);
    if drc != DrcFailed {
      return;
    }
    drc := WalkOnForward(m, probe, rs, e, p + 1);
  }

  method WalkOnForward(m: FM.ForwardMatcher, probe: nat -> bool, rs: seq<Range>, e: nat, from: nat) returns (drc: Drc)
    requires m.Valid() && Sorted(rs) && e < ADDRESS_SPACE && ADDRESS_SPACE % m.q.pageSize == 0 && from <= |rs|
    requires NeverWraps(m.q, m.t, probe, LaterForward(rs, e, from), m.pmatches)
    modifies m, m.page
    ensures m.Valid()
    ensures Reports(RunForward(m.q, m.t, probe, LaterForward(rs, e, from), old(m.pmatches)), drc, m.foundEa, m.pmatches)
  {
    hide F.FindIn, Indices;
    ghost var outcome := RunForward(m.q, m.t, probe, LaterForward(rs, e, from), m.pmatches);
    var p := from;
    while p < |rs| && e >= rs[p].end
      invariant m.Valid() && p <= |rs|
      invariant NeverWraps(m.q, m.t, probe, LaterForward(rs, e, p), m.pmatches)
      invariant outcome == RunForward(m.q, m.t, probe, LaterForward(rs, e, p), m.pmatches)
    {
      assert LaterForward(rs, e, p)[1..] == LaterForward(rs, e, p + 1);
      drc := SearchForward(m, probe, rs[p].start, rs[p].end);
      if drc != DrcFailed {
        return;
      }
      p := p + 1;
    }
    return DrcFailed;
  }

  /** The first part of the backward walk, and the index of its range. */
  method PickBackward(rs: seq<Range>, s: nat, e: nat) returns (p: int, first: Option<Range>)
    requires Sorted(rs) && s < e
    ensures -1 <= p < |rs| && (first.Some? ==> 0 <= p && rs[p].start < e && first.value.start <= first.value.end <= e)
    ensures BackwardPlan(rs, s, e) == if first.Some? then [first.value] + LaterBackward(rs, s, p) else []
  {
    p := |rs| - 1;
    var rangeEnd: Option<nat> := None;
    while p >= 0
      invariant -1 <= p < |rs| && rangeEnd == None
      invariant LastBelow(rs, e, |rs|) == LastBelow(rs, e, p + 1)
    {
      if rs[p].start < e {
        rangeEnd := Some(if e < rs[p].end then e else rs[p].end);
        break;
      }
      p := p - 1;
    }
    if rangeEnd == None {
      return p, None;
    }
    first := Some(Range(if rs[p].Contains(s) then s else rs[p].start, rangeEnd.value));
  }

  method WalkBackward(m: BM.BackwardMatcher, probe: nat -> bool, rs: seq<Range>, s: nat, e: nat) returns (drc: Drc)
    requires m.Valid() && Sorted(rs) && s < e < ADDRESS_SPACE && ADDRESS_SPACE % m.q.pageSize == 0
    modifies m, m.page
    ensures m.Valid()
    ensures Reports(RunBackward(m.q, m.t, probe, BackwardPlan(rs, s, e), old(m.pmatches)), drc, m.foundEa, m.pmatches)
  {
    hide B.FindIn, Indices, LastBelow;
    ghost var plan := BackwardPlan(rs, s, e);
    var p, first := PickBackward(rs, s, e);
    if first == None {
      return DrcFailed;
    }
    drc := SearchBackward(m, probe, first.value.start, first.value.end);
    assert plan[1..] == LaterBackward(rs, s, p);
    if drc != DrcFailed {
      return;
    }
    drc := WalkOnBackward(m, probe, rs, s, e, p);
  }

  method WalkOnBackward(m: BM.BackwardMatcher, probe: nat -> bool, rs: seq<Range>, s: nat, ghost e: nat, from: nat)
    returns (drc: Drc)
    requires m.Valid() && Sorted(rs) && e < ADDRESS_SPACE && ADDRESS_SPACE % m.q.pageSize == 0
    requires from < |rs| && rs[from].start < e
    modifies m, m.page
    ensures m.Valid()
    ensures Reports(RunBackward(m.q, m.t, probe, LaterBackward(rs, s, from), old(m.pmatches)), drc,
                    m.foundEa, m.pmatches)
  {
    hide B.FindIn, Indices;
    ghost var outcome := RunBackward(m.q, m.t, probe, LaterBackward(rs, s, from), m.pmatches);
    var p: int := from - 1;
    while p >= 0 && s < rs[p].end
      invariant m.Valid() && -1 <= p < from
      invariant outcome == RunBackward(m.q, m.t, probe, LaterBackward(rs, s, p + 1), m.pmatches)
    {
      var rangeStart := if rs[p].Contains(s) then s else rs[p].start;
      assert LaterBackward(rs, s, p + 1)[1..] == LaterBackward(rs, s, p);
      assert rs[p].end <= rs[from].start;
      drc := SearchBackward(m, probe, rangeStart, rs[p].end);
      if drc != DrcFailed {
        return;
      }
      p := p - 1;
    }
    return DrcFailed;
  }
}
