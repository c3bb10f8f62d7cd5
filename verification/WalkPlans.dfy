/** Which parts of the memory ranges of the process the two walks search, and
    exactly when that is what the caller asked for. */
module WalkPlans {
  import opened BinPattern

  datatype Range = Range(start: nat, end: nat) {
    predicate Contains(ea: nat) {
      start <= ea < end
    }
  }

  /** Non-empty ranges in address order without overlaps. */
  ghost predicate Sorted(rs: seq<Range>) {
    && (forall k | 0 <= k < |rs| :: rs[k].start < rs[k].end)
    && (forall j, k | 0 <= j < k < |rs| :: rs[j].end <= rs[k].start)
  }

  /** It is enough to compare neighbours. */
  lemma {:induction false} SortedByNeighbours(rs: seq<Range>)
    ensures Sorted(rs) <==>
            && (forall k | 0 <= k < |rs| :: rs[k].start < rs[k].end)
            && (forall k | 0 <= k < |rs| - 1 :: rs[k].end <= rs[k + 1].start)
  {
    if 1 < |rs| {
      var n := |rs| - 1;
      var front := rs[..n];
      SortedByNeighbours(front);
      if (forall k | 0 <= k < |rs| :: rs[k].start < rs[k].end)
         && (forall k | 0 <= k < |rs| - 1 :: rs[k].end <= rs[k + 1].start)
      {
        forall k | 0 <= k < |front| - 1 ensures front[k].end <= front[k + 1].start {
          assert rs[k].end <= rs[k + 1].start;
        }
        forall j, k | 0 <= j < k < |rs| ensures rs[j].end <= rs[k].start {
          assert rs[j] == front[j] && (k < n ==> rs[k] == front[k]);
          assert rs[n - 1].end <= rs[n - 1 + 1].start;
          assert j < n - 1 ==> front[j].end <= front[n - 1].start;
        }
      }
    }
  }

  // ------------------------------------------------- which parts are searched

  /** The range in which the forward walk starts. */
  function FirstForward(rs: seq<Range>, s: nat, k: nat): (p: nat)
    requires k <= |rs|
    ensures k <= p <= |rs|
    ensures p < |rs| ==> rs[p].Contains(s) || rs[p].start > s
    ensures forall j | k <= j < p :: !rs[j].Contains(s) && rs[j].start <= s
    decreases |rs| - k
  {
    if k == |rs| || rs[k].Contains(s) || rs[k].start > s then k else FirstForward(rs, s, k + 1)
  }

  /** The ranges after it, up to the first one that ends above `e`. */
  function LaterForward(rs: seq<Range>, e: nat, k: nat): seq<Range>
    requires k <= |rs|
    decreases |rs| - k
  {
    if k == |rs| || e < rs[k].end then [] else [rs[k]] + LaterForward(rs, e, k + 1)
  }

  function ForwardPlan(rs: seq<Range>, s: nat, e: nat): seq<Range> {
    var p := FirstForward(rs, s, 0);
    if p == |rs| || (!rs[p].Contains(s) && rs[p].start >= e) then []
    else [Range(if rs[p].Contains(s) then s else rs[p].start, Min(e, rs[p].end))] + LaterForward(rs, e, p + 1)
  }

  /** How many ranges begin below `e`; the backward walk starts in the last one. */
  function LastBelow(rs: seq<Range>, e: nat, n: nat): (m: nat)
    requires n <= |rs|
    ensures m <= n
    ensures 0 < m ==> rs[m - 1].start < e
    ensures forall j | m <= j < n :: rs[j].start >= e
  {
    if n == 0 || rs[n - 1].start < e then n else LastBelow(rs, e, n - 1)
  }

  function LowestOf(r: Range, s: nat): nat {
    if r.Contains(s) then s else r.start
  }

  /** The ranges before it, down to the first one that ends at or below `s`. */
  function LaterBackward(rs: seq<Range>, s: nat, n: nat): seq<Range>
    requires n <= |rs|
  {
    if n == 0 || s >= rs[n - 1].end then []
    else [Range(LowestOf(rs[n - 1], s), rs[n - 1].end)] + LaterBackward(rs, s, n - 1)
  }

  function BackwardPlan(rs: seq<Range>, s: nat, e: nat): seq<Range> {
    var n := LastBelow(rs, e, |rs|);
    if n == 0 then []
    else [Range(LowestOf(rs[n - 1], s), Min(e, rs[n - 1].end))] + LaterBackward(rs, s, n - 1)
  }

  ghost predicate Covered(plan: seq<Range>, x: nat) {
    exists j | 0 <= j < |plan| :: plan[j].Contains(x)
  }

  /** The caller wants `x` searched: it is in the range asked for and mapped. */
  ghost predicate Wanted(rs: seq<Range>, s: nat, e: nat, x: nat) {
    s <= x < e && exists k | 0 <= k < |rs| :: rs[k].Contains(x)
  }

  ghost predicate PlanExact(rs: seq<Range>, s: nat, e: nat, plan: seq<Range>) {
    forall x: nat :: Covered(plan, x) <==> Wanted(rs, s, e, x)
  }

  lemma {:induction false} CoveredCons(r: Range, rest: seq<Range>, x: nat)
    ensures Covered([r] + rest, x) <==> r.Contains(x) || Covered(rest, x)
  {
    if r.Contains(x) {
      assert ([r] + rest)[0].Contains(x);
    }
    if Covered(rest, x) {
      var j :| 0 <= j < |rest| && rest[j].Contains(x);
      assert ([r] + rest)[j + 1].Contains(x);
    }
  }

  lemma {:induction false} LaterForwardCovers(rs: seq<Range>, e: nat, k: nat, x: nat)
    requires Sorted(rs) && k <= |rs|
    ensures Covered(LaterForward(rs, e, k), x) <==> exists j | k <= j < |rs| :: rs[j].Contains(x) && rs[j].end <= e
    decreases |rs| - k
  {
    if k < |rs| && rs[k].end <= e {
      LaterForwardCovers(rs, e, k + 1, x);
      CoveredCons(rs[k], LaterForward(rs, e, k + 1), x);
    } else if k < |rs| {
      forall j | k <= j < |rs|
        ensures rs[j].end > e
      {
      }
    }
  }

  /** The range that stops the forward walk too early: a later one that the end
      of the search falls into. */
  ghost predicate Cuts(rs: seq<Range>, s: nat, e: nat, k: nat) {
    FirstForward(rs, s, 0) < k < |rs| && rs[k].start < e < rs[k].end
  }

  /** The forward walk searches exactly the wanted addresses if and only if its
      end does not fall into a range after the one in which it starts. */
  lemma {:induction false} ForwardPlanExact(rs: seq<Range>, s: nat, e: nat)
    requires Sorted(rs) && s < e
    ensures PlanExact(rs, s, e, ForwardPlan(rs, s, e)) <==> forall k: nat :: !Cuts(rs, s, e, k)
  {
    var p := FirstForward(rs, s, 0);
    forall x: nat
      ensures Covered(ForwardPlan(rs, s, e), x) <==>
              s <= x < e && exists k | 0 <= k < |rs| :: rs[k].Contains(x) && !Cuts(rs, s, e, k)
    {
      ForwardPlanCovers(rs, s, e, x);
    }
    if k: nat :| Cuts(rs, s, e, k) {
      var x := rs[k].start;
      assert rs[k].Contains(x);
      assert Wanted(rs, s, e, x) && !Covered(ForwardPlan(rs, s, e), x);
    }
  }

  lemma {:induction false} ForwardPlanCovers(rs: seq<Range>, s: nat, e: nat, x: nat)
    requires Sorted(rs) && s < e
    ensures Covered(ForwardPlan(rs, s, e), x) <==>
            s <= x < e && exists k | 0 <= k < |rs| :: rs[k].Contains(x) && !Cuts(rs, s, e, k)
  {
    var p := FirstForward(rs, s, 0);
    if p < |rs| && (rs[p].Contains(s) || rs[p].start < e) {
      var first := Range(if rs[p].Contains(s) then s else rs[p].start, Min(e, rs[p].end));
      CoveredCons(first, LaterForward(rs, e, p + 1), x);
      LaterForwardCovers(rs, e, p + 1, x);
      if first.Contains(x) {
        assert rs[p].Contains(x) && !Cuts(rs, s, e, p);
      }
    }
  }

  lemma {:induction false} LaterBackwardCovers(rs: seq<Range>, s: nat, n: nat, x: nat)
    requires Sorted(rs) && n <= |rs|
    ensures Covered(LaterBackward(rs, s, n), x) <==> s <= x && exists j | 0 <= j < n :: rs[j].Contains(x)
  {
    if 0 < n && s < rs[n - 1].end {
      LaterBackwardCovers(rs, s, n - 1, x);
      CoveredCons(Range(LowestOf(rs[n - 1], s), rs[n - 1].end), LaterBackward(rs, s, n - 1), x);
    } else if 0 < n {
      forall j | 0 <= j < n
        ensures rs[j].end <= s
      {
      }
    }
  }

  /** The backward walk searches exactly the wanted addresses if and only if some
      range meets the one asked for, or none begins below its end. Otherwise it
      searches the nearest range below, which was not asked for. */
  lemma {:induction false} BackwardPlanExact(rs: seq<Range>, s: nat, e: nat)
    requires Sorted(rs) && s < e
    ensures PlanExact(rs, s, e, BackwardPlan(rs, s, e)) <==>
            (exists k | 0 <= k < |rs| :: rs[k].start < e && s < rs[k].end)
            || forall k | 0 <= k < |rs| :: e <= rs[k].start
  {
    var n := LastBelow(rs, e, |rs|);
    if 0 < n {
      var r, plan := rs[n - 1], BackwardPlan(rs, s, e);
      if r.end <= s {
        BackwardPlanCovers(rs, s, e, r.start);
        assert Covered(plan, r.start) && !Wanted(rs, s, e, r.start);
      } else {
        forall x: nat
          ensures Covered(plan, x) <==> Wanted(rs, s, e, x)
        {
          BackwardPlanCovers(rs, s, e, x);
        }
      }
    }
  }

  lemma {:induction false} BackwardPlanCovers(rs: seq<Range>, s: nat, e: nat, x: nat)
    requires Sorted(rs) && s < e && 0 < LastBelow(rs, e, |rs|)
    ensures var r := rs[LastBelow(rs, e, |rs|) - 1];
            Covered(BackwardPlan(rs, s, e), x) <==> if r.end <= s then r.Contains(x) else Wanted(rs, s, e, x)
  {
    hide LastBelow, LaterBackward, Covered;
    var n := LastBelow(rs, e, |rs|);
    var r := rs[n - 1];
    CoveredCons(Range(LowestOf(r, s), Min(e, r.end)), LaterBackward(rs, s, n - 1), x);
    LaterBackwardCovers(rs, s, n - 1, x);
    if j :| 0 <= j < n - 1 && rs[j].Contains(x) {
      assert rs[j].end <= r.start;
    }
  }

  // --------------------------------------------------- the pieces of a plan

  /** A memory range, as far as it is in the range asked for. */
  function Clip(r: Range, s: nat, e: nat): Range {
    Range(if r.start < s then s else r.start, Min(e, r.end))
  }

  /** The range meets the one asked for. */
  predicate Meets(r: Range, s: nat, e: nat) {
    r.start < e && s < r.end
  }

  lemma {:induction false} LaterForwardAt(rs: seq<Range>, e: nat, k: nat, j: nat)
    requires Sorted(rs) && k <= j < |rs|
    ensures j - k < |LaterForward(rs, e, k)| <==> rs[j].end <= e
    ensures rs[j].end <= e ==> LaterForward(rs, e, k)[j - k] == rs[j]
    decreases |rs| - k
  {
    assert rs[k].end <= rs[j].end;
    if k < j && rs[k].end <= e {
      LaterForwardAt(rs, e, k + 1, j);
    }
  }

  lemma {:induction false} LaterForwardLength(rs: seq<Range>, e: nat, k: nat)
    requires k <= |rs|
    ensures |LaterForward(rs, e, k)| <= |rs| - k
    decreases |rs| - k
  {
    if k < |rs| {
      LaterForwardLength(rs, e, k + 1);
    }
  }

  /** Every range that meets the one asked for is searched as one piece, in its
      place, unless it stops the walk. */
  lemma {:induction false} ForwardPlanAt(rs: seq<Range>, s: nat, e: nat, k: nat)
    requires Sorted(rs) && s < e && k < |rs| && Meets(rs[k], s, e) && !Cuts(rs, s, e, k)
    ensures var x := k - FirstForward(rs, s, 0);
            0 <= x < |ForwardPlan(rs, s, e)| && ForwardPlan(rs, s, e)[x] == Clip(rs[k], s, e)
  {
    hide LaterForward, FirstForward;
    var p := FirstForward(rs, s, 0);
    assert p <= k;
    if p < k {
      assert rs[p].end <= rs[k].start;
      LaterForwardAt(rs, e, p + 1, k);
    }
  }

  /** Every piece is a range that meets the one asked for. */
  lemma {:induction false} ForwardPieceOf(rs: seq<Range>, s: nat, e: nat, x: nat)
    requires Sorted(rs) && s < e && x < |ForwardPlan(rs, s, e)|
    ensures var k := FirstForward(rs, s, 0) + x;
            k < |rs| && Meets(rs[k], s, e) && ForwardPlan(rs, s, e)[x] == Clip(rs[k], s, e)
  {
    hide LaterForward, FirstForward;
    var p := FirstForward(rs, s, 0);
    if 0 < x {
      LaterForwardLength(rs, e, p + 1);
      LaterForwardAt(rs, e, p + 1, p + x);
      assert rs[p].start < rs[p].end <= rs[p + x].start < rs[p + x].end;
    }
  }

  lemma {:induction false} LaterBackwardAt(rs: seq<Range>, s: nat, n: nat, j: nat)
    requires Sorted(rs) && j < n <= |rs|
    ensures n - 1 - j < |LaterBackward(rs, s, n)| <==> s < rs[j].end
    ensures s < rs[j].end ==> LaterBackward(rs, s, n)[n - 1 - j] == Range(LowestOf(rs[j], s), rs[j].end)
  {
    assert rs[j].end <= rs[n - 1].end;
    if j < n - 1 && s < rs[n - 1].end {
      LaterBackwardAt(rs, s, n - 1, j);
    }
  }

  lemma {:induction false} LaterBackwardLength(rs: seq<Range>, s: nat, n: nat)
    requires n <= |rs|
    ensures |LaterBackward(rs, s, n)| <= n
  {
    if 0 < n {
      LaterBackwardLength(rs, s, n - 1);
    }
  }

  /** The same for the backward walk, which no range stops too early. */
  lemma {:induction false} BackwardPlanAt(rs: seq<Range>, s: nat, e: nat, k: nat)
    requires Sorted(rs) && s < e && k < |rs| && Meets(rs[k], s, e)
    ensures var x := LastBelow(rs, e, |rs|) - 1 - k;
            0 <= x < |BackwardPlan(rs, s, e)| && BackwardPlan(rs, s, e)[x] == Clip(rs[k], s, e)
  {
    hide LaterBackward, LastBelow;
    var n := LastBelow(rs, e, |rs|);
    assert k < n;
    if k < n - 1 {
      assert rs[k].end <= rs[n - 1].start;
      LaterBackwardAt(rs, s, n - 1, k);
    }
  }

  /** Every piece but the first is a range that meets the one asked for; the
      first one at least begins below its end. */
  lemma {:induction false} BackwardPieceOf(rs: seq<Range>, s: nat, e: nat, x: nat)
    requires Sorted(rs) && s < e && x < |BackwardPlan(rs, s, e)|
    ensures var k := LastBelow(rs, e, |rs|) - 1 - x;
            && 0 <= k && rs[k].start < e
            && BackwardPlan(rs, s, e)[x] == Range(LowestOf(rs[k], s), Min(e, rs[k].end))
            && (0 < x ==> Meets(rs[k], s, e))
  {
    hide LaterBackward, LastBelow;
    var n := LastBelow(rs, e, |rs|);
    LaterBackwardLength(rs, s, n - 1);
    if 0 < x {
      assert rs[n - 1 - x].end <= rs[n - 1].start;
      LaterBackwardAt(rs, s, n - 1, n - 1 - x);
    }
  }
}
