/** When a walk reports an address, does a pattern occur there? A matcher keeps
    its partial matches between two pieces, so this depends on the pieces. */
module WalkSoundness {
  import opened BinPattern
  import opened PageScan
  import opened WalkPlans
  import opened StaleMatches
  import opened WalkRuns
  import opened Words
  import Arith
  import F = ForwardSearch
  import B = BackwardSearch

  // ------------------------------------------------------------ two ranges

  /** The place lies in one of two searched ranges, or in both when they meet. */
  ghost predicate InSearched(q: Query, mem: int -> byte, i: nat, ea: int, a: nat, b: nat, c: nat, d: nat) {
    Occurs(q, mem, i, ea, a, b) || Occurs(q, mem, i, ea, c, d) || (b == c && Occurs(q, mem, i, ea, a, d))
  }

  /** After [a, b) without success, what is found in [c, d) does occur. */
  ghost predicate SecondSound(q: Query, t: Target, a: nat, b: nat, c: nat, d: nat) {
    q.Valid() &&
    var first := F.FindIn(q, t, a, b, []);
    first.NotFound? ==>
      var second := F.FindIn(q, t, c, d, first.pms);
      second.FoundAt? ==> exists i: nat :: InSearched(q, t.bytes, i, second.ea, a, b, c, d)
  }

  /** After [c, d) without success, what is found downwards in [a, b) does occur. */
  ghost predicate SecondSoundBackward(q: Query, t: Target, a: nat, b: nat, c: nat, d: nat) {
    q.Valid() &&
    var first := B.FindIn(q, t, c, d, []);
    first.NotFound? ==>
      var second := B.FindIn(q, t, a, b, first.pms);
      second.FoundAt? ==> exists i: nat :: InSearched(q, t.bytes, i, second.ea, a, b, c, d)
  }

  /** Main result for two ranges: a forward search of the first and then the
      second is sound, for every query and memory, exactly when they meet at a
      page boundary. */
  lemma SoundExactlyWhenAdjacent(pageSize: nat, a: nat, b: nat, c: nat, d: nat)
    requires 0 < pageSize < 0x8000_0000 && a < b <= c < d
    ensures (forall q: Query, t: Target | q.Valid() && q.pageSize == pageSize :: SecondSound(q, t, a, b, c, d))
            <==> b == c && Boundary(b, pageSize)
  {
    hide SecondSound, Boundary;
    if b == c && Boundary(b, pageSize) {
      forall q: Query, t: Target | q.Valid() && q.pageSize == pageSize
        ensures SecondSound(q, t, a, b, c, d)
      {
        AdjacentSound(q, t, a, b, d);
      }
    } else {
      StaleMatch(pageSize, a, b, c, d);
    }
  }

  /** The same for a backward search of the second range and then the first,
      which does not look at a range that ends in the last page of the address
      space. */
  lemma BackwardSoundExactlyWhenAdjacent(pageSize: nat, a: nat, b: nat, c: nat, d: nat)
    requires 0 < pageSize < 0x8000_0000 && a < b <= c < d
    ensures (forall q: Query, t: Target | q.Valid() && q.pageSize == pageSize :: SecondSoundBackward(q, t, a, b, c, d))
            <==> d > ADDRESS_SPACE - pageSize || (b == c && Boundary(b, pageSize))
  {
    hide SecondSoundBackward, Boundary;
    if d > ADDRESS_SPACE - pageSize {
      forall q: Query, t: Target | q.Valid() && q.pageSize == pageSize
        ensures SecondSoundBackward(q, t, a, b, c, d)
      {
        OnlyOneSound(q, t, a, b, c, d);
      }
    } else if b == c && Boundary(b, pageSize) {
      forall q: Query, t: Target | q.Valid() && q.pageSize == pageSize
        ensures SecondSoundBackward(q, t, a, b, c, d)
      {
        BackwardAdjacentSound(q, t, a, b, d);
      }
    } else {
      BackwardStaleMatch(pageSize, a, b, c, d);
    }
  }

  lemma OnlyOneSound(q: Query, t: Target, a: nat, b: nat, c: nat, d: nat)
    requires q.Valid() && a < b <= c < d && d > ADDRESS_SPACE - q.pageSize
    ensures SecondSoundBackward(q, t, a, b, c, d)
  {
    hide B.Find, LastOf, Occurs, NoneInside;
    var second := B.FindIn(q, t, a, b, []);
    if second.FoundAt? {
      B.FreshFind(q, t, a, b);
      var i: nat :| LastOf(q, t.bytes, i, second.ea, a, b);
      LastOccurs(q, t.bytes, i, second.ea, a, b);
      assert InSearched(q, t.bytes, i, second.ea, a, b, c, d);
    }
  }

  lemma AdjacentSound(q: Query, t: Target, a: nat, b: nat, d: nat)
    requires q.Valid() && a < b < d && Boundary(b, q.pageSize)
    ensures SecondSound(q, t, a, b, b, d)
  {
    hide F.FindIn, F.PageEntry, FirstOf, Occurs, NoneInside;
    F.FreshFind(q, t, a, b);
    var first := F.FindIn(q, t, a, b, []);
    if first.NotFound? {
      F.ContinuedFind(q, t, a, b, d, first.pms);
      var second := F.FindIn(q, t, b, d, first.pms);
      if second.FoundAt? {
        var i: nat :| FirstOf(q, t.bytes, i, second.ea, a, d);
        FirstOccurs(q, t.bytes, i, second.ea, a, d);
        assert InSearched(q, t.bytes, i, second.ea, a, b, b, d);
      }
    }
  }

  lemma BackwardAdjacentSound(q: Query, t: Target, a: nat, b: nat, d: nat)
    requires q.Valid() && a < b < d <= ADDRESS_SPACE - q.pageSize && Boundary(b, q.pageSize)
    ensures SecondSoundBackward(q, t, a, b, b, d)
  {
    hide B.FindIn, B.PageEntry, LastOf, Occurs, NoneInside;
    B.FreshFind(q, t, b, d);
    var first := B.FindIn(q, t, b, d, []);
    if first.NotFound? {
      B.ContinuedFind(q, t, a, b, d, first.pms);
      var second := B.FindIn(q, t, a, b, first.pms);
      if second.FoundAt? {
        var i: nat :| LastOf(q, t.bytes, i, second.ea, a, d);
        LastOccurs(q, t.bytes, i, second.ea, a, d);
        assert InSearched(q, t.bytes, i, second.ea, a, b, b, d);
      }
    }
  }

  lemma FirstOccurs(q: Query, mem: int -> byte, i: nat, s: int, lo: int, hi: int)
    requires FirstOf(q, mem, i, s, lo, hi)
    ensures Occurs(q, mem, i, s, lo, hi)
  {
  }

  lemma LastOccurs(q: Query, mem: int -> byte, i: nat, s: int, lo: int, hi: int)
    requires LastOf(q, mem, i, s, lo, hi)
    ensures Occurs(q, mem, i, s, lo, hi)
  {
  }

  /** Between ranges that do not meet at a page boundary a match is reported that
      does not occur in them. */
  lemma StaleMatch(pageSize: nat, a: nat, b: nat, c: nat, d: nat)
    requires 0 < pageSize < 0x8000_0000 && a < b <= c < d && !(b == c && Boundary(b, pageSize))
    ensures UpQuery(pageSize, b, c).Valid()
            && !SecondSound(UpQuery(pageSize, b, c), UpTarget(pageSize, b, c), a, b, c, d)
  {
    hide F.FindIn, Occurs, UpQuery, UpTarget, Boundary;
    UpShape(pageSize, b, c);
    var q, t := UpQuery(pageSize, b, c), UpTarget(pageSize, b, c);
    var first := F.FindIn(q, t, a, b, []);
    UpVerdict(pageSize, b, c, a, b, []);
    F.FreshFind(q, t, a, b);
    UpRemembers(pageSize, a, b, c, []);
    UpOutside(pageSize, b, c, a, b);
    UpTakesStale(pageSize, b, c, d, first.pms);
    UpVerdict(pageSize, b, c, c, d, first.pms);
    UpOutside(pageSize, b, c, c, d);
    if b == c {
      UpOutside(pageSize, b, c, a, d);
    }
  }

  /** Nothing of it is in a range, nor in two that meet. */
  lemma UpOutside(pageSize: nat, b: nat, c: nat, lo: int, hi: int)
    requires 0 < pageSize && 0 < b <= c && !(b == c && Boundary(b, pageSize))
    requires hi <= b || c <= lo || b == c
    ensures NoneInside(UpQuery(pageSize, b, c), UpTarget(pageSize, b, c).bytes, lo, hi)
  {
    hide Occurs, UpQuery, UpTarget;
    Arith.AlignedDown(c, pageSize);
    forall i: nat, s: int ensures !Occurs(UpQuery(pageSize, b, c), UpTarget(pageSize, b, c).bytes, i, s, lo, hi) {
      UpOccurs(pageSize, b, c, i, s, lo, hi);
    }
  }

  lemma DownOutside(pageSize: nat, b: nat, c: nat, lo: int, hi: int)
    requires 0 < pageSize && 0 < b <= c && !(b == c && Boundary(b, pageSize))
    requires hi <= b || c <= lo || b == c
    ensures NoneInside(DownQuery(pageSize, b, c), DownTarget(pageSize, b, c).bytes, lo, hi)
  {
    hide Occurs, DownQuery, DownTarget, PageEnd;
    PageEndIsBoundary(b, pageSize);
    forall i: nat, s: int ensures !Occurs(DownQuery(pageSize, b, c), DownTarget(pageSize, b, c).bytes, i, s, lo, hi) {
      DownOccurs(pageSize, b, c, i, s, lo, hi);
    }
  }

  lemma BackwardStaleMatch(pageSize: nat, a: nat, b: nat, c: nat, d: nat)
    requires 0 < pageSize < 0x8000_0000 && a < b <= c < d <= ADDRESS_SPACE - pageSize
            && !(b == c && Boundary(b, pageSize))
    ensures DownQuery(pageSize, b, c).Valid()
            && !SecondSoundBackward(DownQuery(pageSize, b, c), DownTarget(pageSize, b, c), a, b, c, d)
  {
    hide B.FindIn, Occurs, DownQuery, DownTarget, Boundary;
    DownShape(pageSize, b, c);
    var q, t := DownQuery(pageSize, b, c), DownTarget(pageSize, b, c);
    var first := B.FindIn(q, t, c, d, []);
    DownVerdict(pageSize, b, c, c, d, []);
    B.FreshFind(q, t, c, d);
    DownOutside(pageSize, b, c, c, d);
    DownRemembers(pageSize, b, c, d, []);
    DownTakesStale(pageSize, a, b, c, first.pms);
    DownVerdict(pageSize, b, c, a, b, first.pms);
    DownOutside(pageSize, b, c, a, b);
    if b == c {
      DownOutside(pageSize, b, c, a, d);
    }
  }

  // ------------------------------------------------------------ whole plans

  /** Pieces upwards, none of them empty. */
  ghost predicate PiecesUp(plan: seq<Range>) {
    && (forall k | 0 <= k < |plan| :: plan[k].start < plan[k].end)
    && (forall j, k | 0 <= j < k < |plan| :: plan[j].end <= plan[k].start)
  }

  ghost predicate PiecesDown(plan: seq<Range>) {
    && (forall k | 0 <= k < |plan| :: plan[k].start < plan[k].end)
    && (forall j, k | 0 <= j < k < |plan| :: plan[k].end <= plan[j].start)
  }

  /** Each piece begins where the one before it ends (downwards: ends where it begins). */
  ghost predicate AdjoinUp(plan: seq<Range>) {
    forall k | 0 < k < |plan| :: plan[k - 1].end == plan[k].start
  }

  ghost predicate AdjoinDown(plan: seq<Range>) {
    forall k | 0 < k < |plan| :: plan[k].end == plan[k - 1].start
  }

  /** Each piece begins, at a page boundary, where the one before it ends. */
  ghost predicate JoinedUp(plan: seq<Range>, pageSize: nat)
    requires 0 < pageSize
  {
    forall k | 0 < k < |plan| :: plan[k - 1].end == plan[k].start && Boundary(plan[k].start, pageSize)
  }

  /** Each piece ends, at a page boundary, where the one before it begins. */
  ghost predicate JoinedDown(plan: seq<Range>, pageSize: nat)
    requires 0 < pageSize
  {
    forall k | 0 < k < |plan| :: plan[k].end == plan[k - 1].start && Boundary(plan[k].end, pageSize)
  }

  /** A pattern occurs at `ea`, inside one piece or inside the hull of pieces that adjoin. */
  ghost predicate OccursUp(q: Query, mem: int -> byte, plan: seq<Range>, ea: int) {
    exists i: nat, a: nat, b: nat ::
      a <= b < |plan| && AdjoinUp(plan[a..b + 1]) && Occurs(q, mem, i, ea, plan[a].start, plan[b].end)
  }

  ghost predicate OccursDown(q: Query, mem: int -> byte, plan: seq<Range>, ea: int) {
    exists i: nat, a: nat, b: nat ::
      a <= b < |plan| && AdjoinDown(plan[a..b + 1]) && Occurs(q, mem, i, ea, plan[b].start, plan[a].end)
  }

  /** What a run of fresh searches reports does occur in the searched pieces. */
  ghost predicate ForwardSound(q: Query, t: Target, probe: nat -> bool, plan: seq<Range>) {
    q.Valid() &&
    var r := RunForward(q, t, probe, plan, []);
    r.FoundAt? ==> OccursUp(q, t.bytes, Searched(plan, probe), r.ea)
  }

  ghost predicate BackwardSound(q: Query, t: Target, probe: nat -> bool, plan: seq<Range>) {
    q.Valid() &&
    var r := RunBackward(q, t, probe, plan, []);
    r.FoundAt? ==> OccursDown(q, t.bytes, LookedAt(plan, probe, q.pageSize), r.ea)
  }

  /** Main result for whole plans, upwards: what is reported occurs, for every
      query and memory, exactly when the searched pieces join at page boundaries. */
  lemma {:induction false} ForwardSoundExactly(pageSize: nat, probe: nat -> bool, plan: seq<Range>)
    requires 0 < pageSize < 0x8000_0000 && PiecesUp(Searched(plan, probe))
    ensures (forall q: Query, t: Target | q.Valid() && q.pageSize == pageSize :: ForwardSound(q, t, probe, plan))
            <==> JoinedUp(Searched(plan, probe), pageSize)
  {
    hide PiecesUp, OccursUp, RunForward, UpQuery, UpTarget, Boundary;
    var pieces := Searched(plan, probe);
    if JoinedUp(pieces, pageSize) {
      forall q: Query, t: Target | q.Valid() && q.pageSize == pageSize ensures ForwardSound(q, t, probe, plan) {
        SkippedForward(q, t, probe, plan, []);
        JoinedForward(q, t, probe, pieces);
      }
    } else {
      var k :| 0 < k < |pieces| && !(pieces[k - 1].end == pieces[k].start && Boundary(pieces[k].start, pageSize));
      var q, t := UpQuery(pageSize, pieces[k - 1].end, pieces[k].start),
                  UpTarget(pageSize, pieces[k - 1].end, pieces[k].start);
      GapForward(pageSize, probe, pieces, k);
      SkippedForward(q, t, probe, plan, []);
      assert !ForwardSound(q, t, probe, plan);
    }
  }

  lemma {:induction false} JoinedForward(q: Query, t: Target, probe: nat -> bool, pieces: seq<Range>)
    requires q.Valid() && PiecesUp(pieces) && JoinedUp(pieces, q.pageSize)
    requires forall k | 0 <= k < |pieces| :: probe(pieces[k].start)
    ensures var r := RunForward(q, t, probe, pieces, []); r.FoundAt? ==> OccursUp(q, t.bytes, pieces, r.ea)
  {
    hide Occurs, FirstOf;
    var r := RunForward(q, t, probe, pieces, []);
    if r.FoundAt? {
      var n := |pieces|;
      FreshChainUp(q, t, probe, pieces);
      var i: nat :| FirstOf(q, t.bytes, i, r.ea, pieces[0].start, pieces[n - 1].end);
      FirstOccurs(q, t.bytes, i, r.ea, pieces[0].start, pieces[n - 1].end);
      assert pieces[0..n - 1 + 1] == pieces;
    }
  }

  /** Where piece `k` does not join the one before it at a page boundary, the run
      reports a match that does not occur in the pieces. */
  lemma {:induction false} GapForward(pageSize: nat, probe: nat -> bool, pieces: seq<Range>, k: nat)
    requires 0 < pageSize < 0x8000_0000 && PiecesUp(pieces)
    requires forall j | 0 <= j < |pieces| :: probe(pieces[j].start)
    requires 0 < k < |pieces| && !(pieces[k - 1].end == pieces[k].start && Boundary(pieces[k].start, pageSize))
    ensures var q, t := UpQuery(pageSize, pieces[k - 1].end, pieces[k].start),
                        UpTarget(pageSize, pieces[k - 1].end, pieces[k].start);
            q.Valid() && q.pageSize == pageSize &&
            var r := RunForward(q, t, probe, pieces, []);
            r.FoundAt? && !OccursUp(q, t.bytes, pieces, r.ea)
  {
    hide F.FindIn, Occurs, RunForward, Searched, UpQuery, UpTarget, Boundary;
    assert pieces[k - 1].end <= pieces[k].start;
    var b, c := pieces[k - 1].end, pieces[k].start;
    var q, t := UpQuery(pageSize, b, c), UpTarget(pageSize, b, c);
    UpShape(pageSize, b, c);
    ForwardRunVerdict(pageSize, b, c, probe, pieces, []);
    GapNotMissedForward(pageSize, probe, pieces, k);
    var ea := RunForward(q, t, probe, pieces, []).ea;
    forall i: nat, x: nat, y: nat | x <= y < |pieces| && AdjoinUp(pieces[x..y + 1])
      ensures !Occurs(q, t.bytes, i, ea, pieces[x].start, pieces[y].end)
    {
      HullMissesGapUp(pieces, x, y, k);
      UpOutside(pageSize, b, c, pieces[x].start, pieces[y].end);
    }
  }

  /** Pieces that adjoin lie on one side of the place before piece `k`, unless
      nothing is missing there. */
  lemma {:induction false} HullMissesGapUp(pieces: seq<Range>, x: nat, y: nat, k: nat)
    requires PiecesUp(pieces) && x <= y < |pieces| && 0 < k < |pieces| && AdjoinUp(pieces[x..y + 1])
    ensures pieces[y].end <= pieces[k - 1].end || pieces[k].start <= pieces[x].start
            || pieces[k - 1].end == pieces[k].start
  {
    var hull := pieces[x..y + 1];
    if x < k <= y {
      assert hull[k - x - 1] == pieces[k - 1] && hull[k - x] == pieces[k];
    } else if y < k {
      assert y == k - 1 || pieces[y].end <= pieces[k - 1].start;
    } else {
      assert x == k || pieces[k].end <= pieces[x].start;
    }
  }

  lemma {:induction false} GapNotMissedForward(pageSize: nat, probe: nat -> bool, pieces: seq<Range>, k: nat)
    requires 0 < pageSize < 0x8000_0000 && PiecesUp(pieces)
    requires forall j | 0 <= j < |pieces| :: probe(pieces[j].start)
    requires 0 < k < |pieces|
    ensures var q, t := UpQuery(pageSize, pieces[k - 1].end, pieces[k].start),
                        UpTarget(pageSize, pieces[k - 1].end, pieces[k].start);
            q.Valid() && !RunForward(q, t, probe, pieces, []).NotFound?
  {
    hide RunForward, UpQuery, UpTarget;
    assert pieces[k - 1].end <= pieces[k].start;
    var b, c := pieces[k - 1].end, pieces[k].start;
    var q, t := UpQuery(pageSize, b, c), UpTarget(pageSize, b, c);
    UpShape(pageSize, b, c);
    var front, x, y, rest := pieces[..k - 1], pieces[k - 1], pieces[k], pieces[k + 1..];
    assert pieces == front + ([x, y] + rest);
    SplitForward(q, t, probe, front, [x, y] + rest, []);
    var before := RunForward(q, t, probe, front, []);
    if before.NotFound? {
      SplitForward(q, t, probe, [x, y], rest, before.pms);
      PairNotMissedForward(pageSize, probe, x, y, before.pms);
    }
  }

  lemma PairNotMissedForward(pageSize: nat, probe: nat -> bool, x: Range, y: Range, pms: seq<Partial>)
    requires 0 < pageSize < 0x8000_0000 && probe(x.start) && probe(y.start)
    requires x.start < x.end <= y.start < y.end
    ensures var q, t := UpQuery(pageSize, x.end, y.start), UpTarget(pageSize, x.end, y.start);
            q.Valid() && !RunForward(q, t, probe, [x, y], pms).NotFound?
  {
    hide F.FindIn, UpQuery, UpTarget;
    UpShape(pageSize, x.end, y.start);
    var q, t := UpQuery(pageSize, x.end, y.start), UpTarget(pageSize, x.end, y.start);
    var first := F.FindIn(q, t, x.start, x.end, pms);
    assert [x, y][1..] == [y] && [y][0] == y;
    if first.NotFound? {
      UpRemembers(pageSize, x.start, x.end, y.start, pms);
      UpTakesStale(pageSize, x.end, y.start, y.end, first.pms);
    }
  }

  lemma {:induction false} ForwardRunVerdict(pageSize: nat, b: nat, c: nat, probe: nat -> bool, plan: seq<Range>,
                                             pms: seq<Partial>)
    requires 0 < pageSize < 0x8000_0000
    ensures var r := RunForward(UpQuery(pageSize, b, c), UpTarget(pageSize, b, c), probe, plan, pms);
            r.FoundAt? || r.NotFound?
    decreases |plan|
  {
    hide F.FindIn;
    if plan != [] {
      UpVerdict(pageSize, b, c, plan[0].start, plan[0].end, pms);
      var r := F.FindIn(UpQuery(pageSize, b, c), UpTarget(pageSize, b, c), plan[0].start, plan[0].end, pms);
      ForwardRunVerdict(pageSize, b, c, probe, plan[1..], if probe(plan[0].start) && r.NotFound? then r.pms else pms);
    }
  }

  /** Main result for whole plans, downwards. */
  lemma {:induction false} BackwardSoundExactly(pageSize: nat, probe: nat -> bool, plan: seq<Range>)
    requires 0 < pageSize < 0x8000_0000 && PiecesDown(LookedAt(plan, probe, pageSize))
    ensures (forall q: Query, t: Target | q.Valid() && q.pageSize == pageSize :: BackwardSound(q, t, probe, plan))
            <==> JoinedDown(LookedAt(plan, probe, pageSize), pageSize)
  {
    hide PiecesDown, OccursDown, RunBackward, DownQuery, DownTarget, Boundary;
    var pieces := LookedAt(plan, probe, pageSize);
    if JoinedDown(pieces, pageSize) {
      forall q: Query, t: Target | q.Valid() && q.pageSize == pageSize ensures BackwardSound(q, t, probe, plan) {
        SkippedBackward(q, t, probe, plan, []);
        JoinedBackward(q, t, probe, pieces);
      }
    } else {
      var k :| 0 < k < |pieces| && !(pieces[k].end == pieces[k - 1].start && Boundary(pieces[k].end, pageSize));
      GapBackward(pageSize, probe, pieces, k);
      var q, t := DownQuery(pageSize, pieces[k].end, pieces[k - 1].start),
                  DownTarget(pageSize, pieces[k].end, pieces[k - 1].start);
      SkippedBackward(q, t, probe, plan, []);
      assert !BackwardSound(q, t, probe, plan);
    }
  }

  lemma {:induction false} JoinedBackward(q: Query, t: Target, probe: nat -> bool, pieces: seq<Range>)
    requires q.Valid() && PiecesDown(pieces) && JoinedDown(pieces, q.pageSize)
    requires forall k | 0 <= k < |pieces| :: probe(pieces[k].start) && pieces[k].end <= ADDRESS_SPACE - q.pageSize
    ensures var r := RunBackward(q, t, probe, pieces, []); r.FoundAt? ==> OccursDown(q, t.bytes, pieces, r.ea)
  {
    hide Occurs, LastOf;
    var r := RunBackward(q, t, probe, pieces, []);
    if r.FoundAt? {
      var n := |pieces|;
      FreshChainDown(q, t, probe, pieces);
      var i: nat :| LastOf(q, t.bytes, i, r.ea, pieces[n - 1].start, pieces[0].end);
      LastOccurs(q, t.bytes, i, r.ea, pieces[n - 1].start, pieces[0].end);
      assert pieces[0..n - 1 + 1] == pieces;
    }
  }

  lemma {:induction false} GapBackward(pageSize: nat, probe: nat -> bool, pieces: seq<Range>, k: nat)
    requires 0 < pageSize < 0x8000_0000 && PiecesDown(pieces)
    requires forall j | 0 <= j < |pieces| :: probe(pieces[j].start) && pieces[j].end <= ADDRESS_SPACE - pageSize
    requires 0 < k < |pieces| && !(pieces[k].end == pieces[k - 1].start && Boundary(pieces[k].end, pageSize))
    ensures pieces[k].start < pieces[k].end
    ensures var q, t := DownQuery(pageSize, pieces[k].end, pieces[k - 1].start),
                        DownTarget(pageSize, pieces[k].end, pieces[k - 1].start);
            q.Valid() && q.pageSize == pageSize &&
            var r := RunBackward(q, t, probe, pieces, []);
            r.FoundAt? && !OccursDown(q, t.bytes, pieces, r.ea)
  {
    hide B.FindIn, Occurs, RunBackward, LookedAt, DownQuery, DownTarget, Boundary;
    assert pieces[k].end <= pieces[k - 1].start;
    var b, c := pieces[k].end, pieces[k - 1].start;
    var q, t := DownQuery(pageSize, b, c), DownTarget(pageSize, b, c);
    DownShape(pageSize, b, c);
    BackwardRunVerdict(pageSize, b, c, probe, pieces, []);
    GapNotMissedBackward(pageSize, probe, pieces, k);
    var ea := RunBackward(q, t, probe, pieces, []).ea;
    forall i: nat, x: nat, y: nat | x <= y < |pieces| && AdjoinDown(pieces[x..y + 1])
      ensures !Occurs(q, t.bytes, i, ea, pieces[y].start, pieces[x].end)
    {
      HullMissesGapDown(pieces, x, y, k);
      DownOutside(pageSize, b, c, pieces[y].start, pieces[x].end);
    }
  }

  lemma {:induction false} HullMissesGapDown(pieces: seq<Range>, x: nat, y: nat, k: nat)
    requires PiecesDown(pieces) && x <= y < |pieces| && 0 < k < |pieces| && AdjoinDown(pieces[x..y + 1])
    ensures pieces[x].end <= pieces[k].end || pieces[k - 1].start <= pieces[y].start
            || pieces[k].end == pieces[k - 1].start
  {
    var hull := pieces[x..y + 1];
    if x < k <= y {
      assert hull[k - x - 1] == pieces[k - 1] && hull[k - x] == pieces[k];
    } else if y < k {
      assert y == k - 1 || pieces[k - 1].end <= pieces[y].start;
    } else {
      assert x == k || pieces[x].end <= pieces[k].start;
    }
  }

  lemma {:induction false} GapNotMissedBackward(pageSize: nat, probe: nat -> bool, pieces: seq<Range>, k: nat)
    requires 0 < pageSize < 0x8000_0000 && PiecesDown(pieces)
    requires forall j | 0 <= j < |pieces| :: probe(pieces[j].start) && pieces[j].end <= ADDRESS_SPACE - pageSize
    requires 0 < k < |pieces|
    ensures pieces[k].start < pieces[k].end
    ensures var q, t := DownQuery(pageSize, pieces[k].end, pieces[k - 1].start),
                        DownTarget(pageSize, pieces[k].end, pieces[k - 1].start);
            q.Valid() && !RunBackward(q, t, probe, pieces, []).NotFound?
  {
    hide RunBackward, DownQuery, DownTarget;
    assert pieces[k].end <= pieces[k - 1].start;
    var b, c := pieces[k].end, pieces[k - 1].start;
    var q, t := DownQuery(pageSize, b, c), DownTarget(pageSize, b, c);
    DownShape(pageSize, b, c);
    var front, x, y, rest := pieces[..k - 1], pieces[k - 1], pieces[k], pieces[k + 1..];
    assert pieces == front + ([x, y] + rest);
    SplitBackward(q, t, probe, front, [x, y] + rest, []);
    var before := RunBackward(q, t, probe, front, []);
    if before.NotFound? {
      SplitBackward(q, t, probe, [x, y], rest, before.pms);
      PairNotMissedBackward(pageSize, probe, x, y, before.pms);
    }
  }

  lemma PairNotMissedBackward(pageSize: nat, probe: nat -> bool, x: Range, y: Range, pms: seq<Partial>)
    requires 0 < pageSize < 0x8000_0000 && probe(x.start) && probe(y.start)
    requires y.start < y.end <= x.start < x.end <= ADDRESS_SPACE - pageSize
    ensures var q, t := DownQuery(pageSize, y.end, x.start), DownTarget(pageSize, y.end, x.start);
            q.Valid() && !RunBackward(q, t, probe, [x, y], pms).NotFound?
  {
    hide B.FindIn, DownQuery, DownTarget;
    DownShape(pageSize, y.end, x.start);
    var q, t := DownQuery(pageSize, y.end, x.start), DownTarget(pageSize, y.end, x.start);
    var first := B.FindIn(q, t, x.start, x.end, pms);
    assert [x, y][1..] == [y] && [y][0] == y;
    if first.NotFound? {
      DownRemembers(pageSize, y.end, x.start, x.end, pms);
      DownTakesStale(pageSize, y.start, y.end, x.start, first.pms);
    }
  }

  lemma {:induction false} BackwardRunVerdict(pageSize: nat, b: nat, c: nat, probe: nat -> bool, plan: seq<Range>,
                                              pms: seq<Partial>)
    requires 0 < pageSize < 0x8000_0000 && 0 < b
    ensures var r := RunBackward(DownQuery(pageSize, b, c), DownTarget(pageSize, b, c), probe, plan, pms);
            r.FoundAt? || r.NotFound?
    decreases |plan|
  {
    hide B.FindIn;
    if plan != [] {
      DownVerdict(pageSize, b, c, plan[0].start, plan[0].end, pms);
      var r := B.FindIn(DownQuery(pageSize, b, c), DownTarget(pageSize, b, c), plan[0].start, plan[0].end, pms);
      BackwardRunVerdict(pageSize, b, c, probe, plan[1..], if probe(plan[0].start) && r.NotFound? then r.pms else pms);
    }
  }

  // ------------------------------------------------------------ whole walks

  lemma {:induction false} SearchedUp(plan: seq<Range>, probe: nat -> bool)
    requires PiecesUp(plan)
    ensures PiecesUp(Searched(plan, probe))
  {
    hide PiecesUp;
    if plan != [] {
      var rest := Searched(plan[1..], probe);
      RestUp(plan);
      SearchedUp(plan[1..], probe);
      forall k | 0 <= k < |rest| ensures plan[0].end <= rest[k].start {
        assert rest[k] in plan[1..];
      }
      FirstUp(plan[0], rest);
      assert [] + rest == rest;
    }
  }

  lemma {:induction false} RestUp(plan: seq<Range>)
    requires plan != [] && PiecesUp(plan)
    ensures PiecesUp(plan[1..]) && plan[0].start < plan[0].end && forall r | r in plan[1..] :: plan[0].end <= r.start
  {
    assert forall k | 0 <= k < |plan| - 1 :: plan[1..][k] == plan[k + 1];
  }

  lemma {:induction false} FirstUp(first: Range, rest: seq<Range>)
    requires PiecesUp(rest) && first.start < first.end
    requires forall k | 0 <= k < |rest| :: first.end <= rest[k].start
    ensures PiecesUp([first] + rest)
  {
    var all := [first] + rest;
    forall k | 0 <= k < |all| ensures all[k].start < all[k].end {
      assert all[k] == if k == 0 then first else rest[k - 1];
    }
    forall j, k | 0 <= j < k < |all| ensures all[j].end <= all[k].start {
      assert all[k] == rest[k - 1];
      assert all[j] == if j == 0 then first else rest[j - 1];
    }
  }

  lemma {:induction false} LookedAtDown(plan: seq<Range>, probe: nat -> bool, pageSize: nat)
    requires PiecesDown(plan)
    ensures PiecesDown(LookedAt(plan, probe, pageSize))
  {
    hide PiecesDown;
    if plan != [] {
      var rest := LookedAt(plan[1..], probe, pageSize);
      RestDown(plan);
      LookedAtDown(plan[1..], probe, pageSize);
      forall k | 0 <= k < |rest| ensures rest[k].end <= plan[0].start {
        assert rest[k] in plan[1..];
      }
      FirstDown(plan[0], rest);
      assert [] + rest == rest;
    }
  }

  lemma {:induction false} RestDown(plan: seq<Range>)
    requires plan != [] && PiecesDown(plan)
    ensures PiecesDown(plan[1..]) && plan[0].start < plan[0].end && forall r | r in plan[1..] :: r.end <= plan[0].start
  {
    assert forall k | 0 <= k < |plan| - 1 :: plan[1..][k] == plan[k + 1];
  }

  lemma {:induction false} FirstDown(first: Range, rest: seq<Range>)
    requires PiecesDown(rest) && first.start < first.end
    requires forall k | 0 <= k < |rest| :: rest[k].end <= first.start
    ensures PiecesDown([first] + rest)
  {
    var all := [first] + rest;
    forall k | 0 <= k < |all| ensures all[k].start < all[k].end {
      assert all[k] == if k == 0 then first else rest[k - 1];
    }
    forall j, k | 0 <= j < k < |all| ensures all[k].end <= all[j].start {
      assert all[k] == rest[k - 1];
      assert all[j] == if j == 0 then first else rest[j - 1];
    }
  }

  lemma {:induction false} ForwardPlanPieces(rs: seq<Range>, s: nat, e: nat)
    requires Sorted(rs) && s < e
    ensures PiecesUp(ForwardPlan(rs, s, e))
  {
    hide ForwardPlan;
    var plan, p := ForwardPlan(rs, s, e), FirstForward(rs, s, 0);
    forall x | 0 <= x < |plan| ensures plan[x].start < plan[x].end {
      ForwardPieceOf(rs, s, e, x);
    }
    forall x, y | 0 <= x < y < |plan| ensures plan[x].end <= plan[y].start {
      ForwardPieceOf(rs, s, e, x);
      ForwardPieceOf(rs, s, e, y);
      assert rs[p + x].end <= rs[p + y].start;
    }
  }

  lemma {:induction false} BackwardPlanPieces(rs: seq<Range>, s: nat, e: nat)
    requires Sorted(rs) && s < e
    ensures PiecesDown(BackwardPlan(rs, s, e))
  {
    hide BackwardPlan;
    var plan, n := BackwardPlan(rs, s, e), LastBelow(rs, e, |rs|);
    forall x | 0 <= x < |plan| ensures plan[x].start < plan[x].end {
      BackwardPieceOf(rs, s, e, x);
    }
    forall x, y | 0 <= x < y < |plan| ensures plan[y].end <= plan[x].start {
      BackwardPieceOf(rs, s, e, x);
      BackwardPieceOf(rs, s, e, y);
      assert rs[n - 1 - y].end <= rs[n - 1 - x].start;
    }
  }

  /** Main result for the forward walk: every address it reports is an occurrence,
      for every query and memory, exactly when each piece it searches begins, at a
      page boundary, where the one before it ends. */
  lemma {:induction false} ForwardWalkSoundExactly(pageSize: nat, probe: nat -> bool, rs: seq<Range>, s: nat, e: nat)
    requires 0 < pageSize < 0x8000_0000 && Sorted(rs) && s < e
    ensures (forall q: Query, t: Target | q.Valid() && q.pageSize == pageSize ::
               ForwardSound(q, t, probe, ForwardPlan(rs, s, e)))
            <==> JoinedUp(Searched(ForwardPlan(rs, s, e), probe), pageSize)
  {
    hide ForwardSound, JoinedUp, PiecesUp, ForwardPlan, Searched;
    ForwardPlanPieces(rs, s, e);
    SearchedUp(ForwardPlan(rs, s, e), probe);
    ForwardSoundExactly(pageSize, probe, ForwardPlan(rs, s, e));
  }

  /** The same for the backward walk and the pieces that it looks at. */
  lemma {:induction false} BackwardWalkSoundExactly(pageSize: nat, probe: nat -> bool, rs: seq<Range>, s: nat, e: nat)
    requires 0 < pageSize < 0x8000_0000 && Sorted(rs) && s < e
    ensures (forall q: Query, t: Target | q.Valid() && q.pageSize == pageSize ::
               BackwardSound(q, t, probe, BackwardPlan(rs, s, e)))
            <==> JoinedDown(LookedAt(BackwardPlan(rs, s, e), probe, pageSize), pageSize)
  {
    hide BackwardSound, JoinedDown, PiecesDown, BackwardPlan, LookedAt;
    BackwardPlanPieces(rs, s, e);
    LookedAtDown(BackwardPlan(rs, s, e), probe, pageSize);
    BackwardSoundExactly(pageSize, probe, BackwardPlan(rs, s, e));
  }
}
