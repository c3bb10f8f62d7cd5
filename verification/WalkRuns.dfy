/** The searches of a walk, one after the other on the same matcher: when no
    occurrence is missed, and exactly when a reported one is real. */
module WalkRuns {
  import opened BinPattern
  import opened PageScan
  import opened WalkPlans
  import opened Words
  import F = ForwardSearch
  import B = BackwardSearch

  /** The searches of a plan; a piece whose first byte cannot be read is skipped. */
  ghost function RunForward(q: Query, t: Target, probe: nat -> bool, plan: seq<Range>, pms: seq<Partial>): F.Outcome
    requires q.Valid()
  {
    if plan == [] then F.NotFound(pms)
    else if !probe(plan[0].start) then RunForward(q, t, probe, plan[1..], pms)
    else
      var r := F.FindIn(q, t, plan[0].start, plan[0].end, pms);
      if r.NotFound? then RunForward(q, t, probe, plan[1..], r.pms) else r
  }

  ghost function RunBackward(q: Query, t: Target, probe: nat -> bool, plan: seq<Range>, pms: seq<Partial>): F.Outcome
    requires q.Valid()
  {
    if plan == [] then F.NotFound(pms)
    else if !probe(plan[0].start) then RunBackward(q, t, probe, plan[1..], pms)
    else
      var r := B.FindIn(q, t, plan[0].start, plan[0].end, pms);
      if r.NotFound? then RunBackward(q, t, probe, plan[1..], r.pms) else r
  }

  /** The pieces that are searched. */
  function Searched(plan: seq<Range>, probe: nat -> bool): (r: seq<Range>)
    ensures forall k | 0 <= k < |r| :: r[k] in plan && probe(r[k].start)
  {
    if plan == [] then []
    else (if probe(plan[0].start) then [plan[0]] else []) + Searched(plan[1..], probe)
  }

  lemma {:induction false} SkippedForward(q: Query, t: Target, probe: nat -> bool, plan: seq<Range>, pms: seq<Partial>)
    requires q.Valid()
    ensures RunForward(q, t, probe, plan, pms) == RunForward(q, t, probe, Searched(plan, probe), pms)
    decreases |plan|
  {
    hide F.FindIn;
    if plan != [] {
      var rest := Searched(plan[1..], probe);
      if !probe(plan[0].start) {
        assert Searched(plan, probe) == rest;
        SkippedForward(q, t, probe, plan[1..], pms);
      } else {
        assert Searched(plan, probe)[1..] == rest;
        var r := F.FindIn(q, t, plan[0].start, plan[0].end, pms);
        if r.NotFound? {
          SkippedForward(q, t, probe, plan[1..], r.pms);
        }
      }
    }
  }

  /** The pieces that the backward search looks at: it passes over those that end
      in the last page of the address space. */
  function LookedAt(plan: seq<Range>, probe: nat -> bool, pageSize: nat): (r: seq<Range>)
    ensures forall k | 0 <= k < |r| :: r[k] in plan && probe(r[k].start) && r[k].end <= ADDRESS_SPACE - pageSize
  {
    if plan == [] then []
    else
      (if probe(plan[0].start) && plan[0].end <= ADDRESS_SPACE - pageSize then [plan[0]] else [])
      + LookedAt(plan[1..], probe, pageSize)
  }

  lemma {:induction false} SkippedBackward(q: Query, t: Target, probe: nat -> bool, plan: seq<Range>, pms: seq<Partial>)
    requires q.Valid()
    ensures RunBackward(q, t, probe, plan, pms) == RunBackward(q, t, probe, LookedAt(plan, probe, q.pageSize), pms)
    decreases |plan|
  {
    hide B.Find;
    if plan != [] {
      var rest := LookedAt(plan[1..], probe, q.pageSize);
      if !probe(plan[0].start) || plan[0].end > ADDRESS_SPACE - q.pageSize {
        assert LookedAt(plan, probe, q.pageSize) == rest;
        SkippedBackward(q, t, probe, plan[1..], pms);
      } else {
        assert LookedAt(plan, probe, q.pageSize)[1..] == rest;
        var r := B.FindIn(q, t, plan[0].start, plan[0].end, pms);
        if r.NotFound? {
          SkippedBackward(q, t, probe, plan[1..], r.pms);
        }
      }
    }
  }

  lemma {:induction false} SplitForward(q: Query, t: Target, probe: nat -> bool, a: seq<Range>, b: seq<Range>,
                                        pms: seq<Partial>)
    requires q.Valid()
    ensures RunForward(q, t, probe, a + b, pms) ==
            var first := RunForward(q, t, probe, a, pms);
            if first.NotFound? then RunForward(q, t, probe, b, first.pms) else first
    decreases |a|
  {
    hide F.FindIn;
    if a == [] {
      assert a + b == b;
    } else {
      assert (a + b)[1..] == a[1..] + b;
      var r := F.FindIn(q, t, a[0].start, a[0].end, pms);
      SplitForward(q, t, probe, a[1..], b, if probe(a[0].start) && r.NotFound? then r.pms else pms);
    }
  }

  lemma {:induction false} SplitBackward(q: Query, t: Target, probe: nat -> bool, a: seq<Range>, b: seq<Range>,
                                         pms: seq<Partial>)
    requires q.Valid()
    ensures RunBackward(q, t, probe, a + b, pms) ==
            var first := RunBackward(q, t, probe, a, pms);
            if first.NotFound? then RunBackward(q, t, probe, b, first.pms) else first
    decreases |a|
  {
    hide B.FindIn;
    if a == [] {
      assert a + b == b;
    } else {
      assert (a + b)[1..] == a[1..] + b;
      var r := B.FindIn(q, t, a[0].start, a[0].end, pms);
      SplitBackward(q, t, probe, a[1..], b, if probe(a[0].start) && r.NotFound? then r.pms else pms);
    }
  }

  // -------------------------------------------------- adjoining pieces in a row

  ghost predicate Boundary(ea: nat, pageSize: nat)
    requires 0 < pageSize
  {
    ea % pageSize == 0
  }

  /** Searched pieces, upwards, each beginning at the page boundary at which the
      one before it ends. */
  ghost predicate ChainUp(plan: seq<Range>, probe: nat -> bool, pageSize: nat)
    requires 0 < pageSize
  {
    && plan != []
    && (forall k | 0 <= k < |plan| :: plan[k].start < plan[k].end && probe(plan[k].start))
    && (forall k | 0 < k < |plan| :: plan[k - 1].end == plan[k].start && Boundary(plan[k].start, pageSize))
  }

  /** The same downwards, within the reach of the backward search. */
  ghost predicate ChainDown(plan: seq<Range>, probe: nat -> bool, pageSize: nat)
    requires 0 < pageSize
  {
    && plan != []
    && plan[0].end <= ADDRESS_SPACE - pageSize
    && (forall k | 0 <= k < |plan| :: plan[k].start < plan[k].end && probe(plan[k].start))
    && (forall k | 0 < k < |plan| :: plan[k].end == plan[k - 1].start && Boundary(plan[k].end, pageSize))
  }

  lemma {:induction false} ChainUpRest(plan: seq<Range>, probe: nat -> bool, pageSize: nat)
    requires 0 < pageSize && ChainUp(plan, probe, pageSize)
    ensures forall k | 0 <= k < |plan| :: plan[0].end <= plan[k].end
    ensures 1 < |plan| ==> ChainUp(plan[1..], probe, pageSize) && Boundary(plan[0].end, pageSize)
  {
    if 1 < |plan| {
      var rest := plan[1..];
      assert forall k | 0 <= k < |rest| :: rest[k] == plan[k + 1];
      assert plan[1 - 1].end == plan[1].start && Boundary(plan[1].start, pageSize);
      forall k | 0 < k < |rest| ensures rest[k - 1].end == rest[k].start && Boundary(rest[k].start, pageSize) {
        assert plan[k].end == plan[k + 1].start;
      }
      ChainUpRest(rest, probe, pageSize);
    }
  }

  lemma {:induction false} ChainDownRest(plan: seq<Range>, probe: nat -> bool, pageSize: nat)
    requires 0 < pageSize && ChainDown(plan, probe, pageSize)
    ensures forall k | 0 <= k < |plan| :: plan[k].start <= plan[0].start
    ensures 1 < |plan| ==> ChainDown(plan[1..], probe, pageSize) && Boundary(plan[0].start, pageSize)
  {
    hide Boundary;
    if 1 < |plan| {
      var rest := plan[1..];
      assert forall k | 0 <= k < |rest| :: rest[k] == plan[k + 1];
      assert plan[1].end == plan[0].start && Boundary(plan[1].end, pageSize);
      assert rest[0].end <= ADDRESS_SPACE - pageSize;
      forall k | 0 < k < |rest| ensures rest[k].end == rest[k - 1].start && Boundary(rest[k].end, pageSize) {
        assert plan[k + 1].end == plan[k].start;
      }
      ChainDownRest(rest, probe, pageSize);
    }
  }

  /** After one piece without success, the rest of the chain. */
  lemma {:induction false} ChainUpGoesOn(q: Query, t: Target, probe: nat -> bool, lo: nat, plan: seq<Range>,
                                         pms: seq<Partial>)
    requires q.Valid() && ChainUp(plan, probe, q.pageSize) && Boundary(plan[0].start, q.pageSize)
    requires lo <= plan[0].start && F.PageEntry(q, t.bytes, lo, plan[0].start, pms)
    ensures F.OutcomeMeans(q, t.bytes, lo, plan[|plan| - 1].end, false, RunForward(q, t, probe, plan, pms))
    decreases |plan|
  {
    hide F.FindIn, F.PageEntry, Occurs, NoneInside, FirstOf;
    ChainUpRest(plan, probe, q.pageSize);
    F.ContinuedFind(q, t, lo, plan[0].start, plan[0].end, pms);
    var r := F.FindIn(q, t, plan[0].start, plan[0].end, pms);
    if r.FoundAt? {
      var i: nat :| FirstOf(q, t.bytes, i, r.ea, lo, plan[0].end);
      FirstOfWidens(q, t.bytes, i, r.ea, lo, plan[0].end, plan[|plan| - 1].end);
    } else if r.NotFound? {
      if 1 < |plan| {
        ChainUpGoesOn(q, t, probe, lo, plan[1..], r.pms);
      } else {
        assert RunForward(q, t, probe, plan[1..], r.pms) == r;
      }
    }
  }

  /** A fresh search of a chain does what the search of the whole does. */
  lemma {:induction false} FreshChainUp(q: Query, t: Target, probe: nat -> bool, plan: seq<Range>)
    requires q.Valid() && ChainUp(plan, probe, q.pageSize)
    ensures F.OutcomeMeans(q, t.bytes, plan[0].start, plan[|plan| - 1].end, false, RunForward(q, t, probe, plan, []))
  {
    hide F.FindIn, F.PageEntry, Occurs, NoneInside, FirstOf;
    ChainUpRest(plan, probe, q.pageSize);
    var lo := plan[0].start;
    F.FreshFind(q, t, lo, plan[0].end);
    var r := F.FindIn(q, t, lo, plan[0].end, []);
    if r.FoundAt? {
      var i: nat :| FirstOf(q, t.bytes, i, r.ea, lo, plan[0].end);
      FirstOfWidens(q, t.bytes, i, r.ea, lo, plan[0].end, plan[|plan| - 1].end);
    } else if r.NotFound? {
      if 1 < |plan| {
        ChainUpGoesOn(q, t, probe, lo, plan[1..], r.pms);
      } else {
        assert RunForward(q, t, probe, plan[1..], r.pms) == r;
      }
    }
  }

  lemma {:induction false} ChainDownGoesOn(q: Query, t: Target, probe: nat -> bool, hi: nat, plan: seq<Range>,
                                           pms: seq<Partial>)
    requires q.Valid() && ChainDown(plan, probe, q.pageSize) && Boundary(plan[0].end, q.pageSize)
    requires plan[0].end <= hi && B.PageEntry(q, t.bytes, hi, plan[0].end, pms)
    ensures B.OutcomeMeans(q, t.bytes, plan[|plan| - 1].start, hi, false, RunBackward(q, t, probe, plan, pms))
    decreases |plan|
  {
    hide B.FindIn, B.PageEntry, Occurs, NoneInside, LastOf;
    ChainDownRest(plan, probe, q.pageSize);
    B.ContinuedFind(q, t, plan[0].start, plan[0].end, hi, pms);
    var r := B.FindIn(q, t, plan[0].start, plan[0].end, pms);
    if r.FoundAt? {
      var i: nat :| LastOf(q, t.bytes, i, r.ea, plan[0].start, hi);
      LastOfWidens(q, t.bytes, i, r.ea, plan[0].start, hi, plan[|plan| - 1].start);
    } else if r.NotFound? {
      if 1 < |plan| {
        ChainDownGoesOn(q, t, probe, hi, plan[1..], r.pms);
      } else {
        assert RunBackward(q, t, probe, plan[1..], r.pms) == r;
      }
    }
  }

  lemma {:induction false} FreshChainDown(q: Query, t: Target, probe: nat -> bool, plan: seq<Range>)
    requires q.Valid() && ChainDown(plan, probe, q.pageSize)
    ensures B.OutcomeMeans(q, t.bytes, plan[|plan| - 1].start, plan[0].end, false, RunBackward(q, t, probe, plan, []))
  {
    hide B.FindIn, B.PageEntry, Occurs, NoneInside, LastOf;
    ChainDownRest(plan, probe, q.pageSize);
    var hi := plan[0].end;
    B.FreshFind(q, t, plan[0].start, hi);
    var r := B.FindIn(q, t, plan[0].start, hi, []);
    if r.FoundAt? {
      var i: nat :| LastOf(q, t.bytes, i, r.ea, plan[0].start, hi);
      LastOfWidens(q, t.bytes, i, r.ea, plan[0].start, hi, plan[|plan| - 1].start);
    } else if r.NotFound? {
      if 1 < |plan| {
        ChainDownGoesOn(q, t, probe, hi, plan[1..], r.pms);
      } else {
        assert RunBackward(q, t, probe, plan[1..], r.pms) == r;
      }
    }
  }

  // ------------------------------------------------- a walk misses nothing

  /** Matches carried into a run never hide anything in it. */
  lemma {:induction false} RunForwardHidesNothing(q: Query, t: Target, probe: nat -> bool, plan: seq<Range>,
                                                  stale: seq<Partial>, pms: seq<Partial>)
    requires q.Valid() && RunForward(q, t, probe, plan, stale + pms).NotFound?
    ensures RunForward(q, t, probe, plan, pms).NotFound?
    decreases |plan|
  {
    hide F.FindIn;
    if plan != [] {
      if !probe(plan[0].start) {
        RunForwardHidesNothing(q, t, probe, plan[1..], stale, pms);
      } else {
        var left := F.CarriedAlong(q, t, plan[0].start, plan[0].end, stale, pms);
        RunForwardHidesNothing(q, t, probe, plan[1..], left, F.FindIn(q, t, plan[0].start, plan[0].end, pms).pms);
      }
    }
  }

  lemma {:induction false} RunBackwardHidesNothing(q: Query, t: Target, probe: nat -> bool, plan: seq<Range>,
                                                   stale: seq<Partial>, pms: seq<Partial>)
    requires q.Valid() && RunBackward(q, t, probe, plan, stale + pms).NotFound?
    ensures RunBackward(q, t, probe, plan, pms).NotFound?
    decreases |plan|
  {
    hide B.FindIn;
    if plan != [] {
      if !probe(plan[0].start) {
        RunBackwardHidesNothing(q, t, probe, plan[1..], stale, pms);
      } else {
        var left := B.CarriedAlong(q, t, plan[0].start, plan[0].end, stale, pms);
        RunBackwardHidesNothing(q, t, probe, plan[1..], left, B.FindIn(q, t, plan[0].start, plan[0].end, pms).pms);
      }
    }
  }

  /** A run without success has no success on any part of its plan. */
  lemma {:induction false} PartOfForwardRun(q: Query, t: Target, probe: nat -> bool, plan: seq<Range>,
                                            pms: seq<Partial>, a: nat, b: nat)
    requires q.Valid() && RunForward(q, t, probe, plan, pms).NotFound? && a <= b <= |plan|
    ensures RunForward(q, t, probe, plan[a..b], []).NotFound?
  {
    hide RunForward;
    SplitForward(q, t, probe, plan[..a], plan[a..], pms);
    assert plan == plan[..a] + plan[a..];
    var before := RunForward(q, t, probe, plan[..a], pms).pms;
    SplitForward(q, t, probe, plan[a..b], plan[b..], before);
    assert plan[a..] == plan[a..b] + plan[b..];
    assert before + [] == before;
    RunForwardHidesNothing(q, t, probe, plan[a..b], before, []);
  }

  lemma {:induction false} PartOfBackwardRun(q: Query, t: Target, probe: nat -> bool, plan: seq<Range>,
                                             pms: seq<Partial>, a: nat, b: nat)
    requires q.Valid() && RunBackward(q, t, probe, plan, pms).NotFound? && a <= b <= |plan|
    ensures RunBackward(q, t, probe, plan[a..b], []).NotFound?
  {
    hide RunBackward;
    SplitBackward(q, t, probe, plan[..a], plan[a..], pms);
    assert plan == plan[..a] + plan[a..];
    var before := RunBackward(q, t, probe, plan[..a], pms).pms;
    SplitBackward(q, t, probe, plan[a..b], plan[b..], before);
    assert plan[a..] == plan[a..b] + plan[b..];
    assert before + [] == before;
    RunBackwardHidesNothing(q, t, probe, plan[a..b], before, []);
  }

  /** The memory ranges from `k` to `m` follow one another without a gap, at page
      boundaries, meet the range asked for, and can be read at their begins. */
  ghost predicate BlockOf(rs: seq<Range>, probe: nat -> bool, pageSize: nat, s: nat, e: nat, k: nat, m: nat)
    requires 0 < pageSize
  {
    && k <= m < |rs|
    && (forall j | k <= j <= m :: Meets(rs[j], s, e) && probe(Clip(rs[j], s, e).start))
    && (forall j | k < j <= m :: rs[j - 1].end == rs[j].start && Boundary(rs[j].start, pageSize))
  }

  /** Main result for the forward walk: when it reports no match, no pattern
      occurs in any block of memory ranges that follow one another, as far as the
      block is in the range asked for; also none that spans several ranges. Only
      ranges that cannot be read or that stop the walk are exempt. It does not
      matter what the matcher carried before or carries from other ranges. */
  lemma {:induction false} ForwardWalkComplete(q: Query, t: Target, probe: nat -> bool, rs: seq<Range>, s: nat, e: nat,
                                               pms: seq<Partial>, k: nat, m: nat)
    requires q.Valid() && Sorted(rs) && s < e && BlockOf(rs, probe, q.pageSize, s, e, k, m)
    requires forall j | k <= j <= m :: !Cuts(rs, s, e, j)
    requires RunForward(q, t, probe, ForwardPlan(rs, s, e), pms).NotFound?
    ensures NoneInside(q, t.bytes, Clip(rs[k], s, e).start, Clip(rs[m], s, e).end)
  {
    hide ForwardPlan, RunForward, NoneInside, Cuts, BlockOf, ChainUp, Sorted;
    var plan := ForwardPlan(rs, s, e);
    var a, b := BlockInForwardPlan(rs, probe, q.pageSize, s, e, k, m);
    PartOfForwardRun(q, t, probe, plan, pms, a, b);
    FreshChainUp(q, t, probe, plan[a..b]);
  }

  /** A block is a chain of pieces of the plan. */
  lemma {:induction false} BlockInForwardPlan(rs: seq<Range>, probe: nat -> bool, pageSize: nat, s: nat, e: nat, k: nat,
                                              m: nat)
    returns (a: nat, b: nat)
    requires 0 < pageSize && Sorted(rs) && s < e && BlockOf(rs, probe, pageSize, s, e, k, m)
    requires forall j | k <= j <= m :: !Cuts(rs, s, e, j)
    ensures a < b <= |ForwardPlan(rs, s, e)| && ChainUp(ForwardPlan(rs, s, e)[a..b], probe, pageSize)
    ensures ForwardPlan(rs, s, e)[a].start == Clip(rs[k], s, e).start
    ensures ForwardPlan(rs, s, e)[b - 1].end == Clip(rs[m], s, e).end
  {
    hide ForwardPlan, Cuts, ChainUp, FirstForward, Clip, Boundary;
    var plan, p := ForwardPlan(rs, s, e), FirstForward(rs, s, 0);
    ForwardPlanAt(rs, s, e, k);
    ForwardPlanAt(rs, s, e, m);
    a, b := k - p, m - p + 1;
    var block := plan[a..b];
    forall x | 0 <= x < |block| ensures block[x] == Clip(rs[k + x], s, e) {
      ForwardPlanAt(rs, s, e, k + x);
    }
    BlockIsChainUp(rs, probe, pageSize, s, e, k, m, block);
  }

  lemma {:induction false} BlockIsChainUp(rs: seq<Range>, probe: nat -> bool, pageSize: nat, s: nat, e: nat, k: nat,
                                          m: nat, block: seq<Range>)
    requires 0 < pageSize && Sorted(rs) && s < e && BlockOf(rs, probe, pageSize, s, e, k, m) && |block| == m - k + 1
    requires forall x | 0 <= x < |block| :: block[x] == Clip(rs[k + x], s, e)
    ensures ChainUp(block, probe, pageSize)
  {
    hide Boundary;
    forall x | 0 < x < |block| ensures block[x - 1].end == block[x].start && Boundary(block[x].start, pageSize) {
      var j := k + x;
      assert rs[j - 1].end == rs[j].start && block[x - 1] == Clip(rs[j - 1], s, e) && block[x] == Clip(rs[j], s, e);
      assert Meets(rs[j], s, e) && Meets(rs[j - 1], s, e);
    }
  }

  lemma {:induction false} BlockIsChainDown(rs: seq<Range>, probe: nat -> bool, pageSize: nat, s: nat, e: nat, k: nat,
                                            m: nat, block: seq<Range>)
    requires 0 < pageSize && Sorted(rs) && s < e && BlockOf(rs, probe, pageSize, s, e, k, m)
    requires Clip(rs[m], s, e).end <= ADDRESS_SPACE - pageSize
    requires |block| == m - k + 1 && forall x | 0 <= x < |block| :: block[x] == Clip(rs[m - x], s, e)
    ensures ChainDown(block, probe, pageSize)
  {
    hide Boundary;
    forall x | 0 < x < |block| ensures block[x].end == block[x - 1].start && Boundary(block[x].end, pageSize) {
      var j := m - x + 1;
      assert rs[j - 1].end == rs[j].start && block[x] == Clip(rs[j - 1], s, e) && block[x - 1] == Clip(rs[j], s, e);
      assert Meets(rs[j], s, e) && Meets(rs[j - 1], s, e);
    }
  }

  /** The same for the backward walk, which no range stops too early. It does not
      look at pieces that end in the last page of the address space. */
  lemma {:induction false} BackwardWalkComplete(q: Query, t: Target, probe: nat -> bool, rs: seq<Range>, s: nat, e: nat,
                                                pms: seq<Partial>, k: nat, m: nat)
    requires q.Valid() && Sorted(rs) && s < e && BlockOf(rs, probe, q.pageSize, s, e, k, m)
    requires Clip(rs[m], s, e).end <= ADDRESS_SPACE - q.pageSize
    requires RunBackward(q, t, probe, BackwardPlan(rs, s, e), pms).NotFound?
    ensures NoneInside(q, t.bytes, Clip(rs[k], s, e).start, Clip(rs[m], s, e).end)
  {
    hide BackwardPlan, RunBackward, NoneInside, BlockOf, ChainDown, Sorted;
    var plan := BackwardPlan(rs, s, e);
    var a, b := BlockInBackwardPlan(rs, probe, q.pageSize, s, e, k, m);
    PartOfBackwardRun(q, t, probe, plan, pms, a, b);
    FreshChainDown(q, t, probe, plan[a..b]);
  }

  lemma {:induction false} BlockInBackwardPlan(rs: seq<Range>, probe: nat -> bool, pageSize: nat, s: nat, e: nat,
                                               k: nat, m: nat)
    returns (a: nat, b: nat)
    requires 0 < pageSize && Sorted(rs) && s < e && BlockOf(rs, probe, pageSize, s, e, k, m)
    requires Clip(rs[m], s, e).end <= ADDRESS_SPACE - pageSize
    ensures a < b <= |BackwardPlan(rs, s, e)| && ChainDown(BackwardPlan(rs, s, e)[a..b], probe, pageSize)
    ensures BackwardPlan(rs, s, e)[b - 1].start == Clip(rs[k], s, e).start
    ensures BackwardPlan(rs, s, e)[a].end == Clip(rs[m], s, e).end
  {
    hide BackwardPlan, ChainDown, LastBelow, Clip, Boundary;
    var plan, n := BackwardPlan(rs, s, e), LastBelow(rs, e, |rs|);
    BackwardPlanAt(rs, s, e, k);
    BackwardPlanAt(rs, s, e, m);
    a, b := n - 1 - m, n - k;
    var block := plan[a..b];
    forall x | 0 <= x < |block| ensures block[x] == Clip(rs[m - x], s, e) {
      BackwardPlanAt(rs, s, e, m - x);
    }
    BlockIsChainDown(rs, probe, pageSize, s, e, k, m, block);
  }
}
