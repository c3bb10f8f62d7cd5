/** Matches that two searches miss between them. Two ranges may meet inside a
    page. The second search goes on with the carried matches at the begin
    (downwards: at the end) of that page, where they do not continue, and an
    occurrence across the ranges is not found. */
module MissedMatches {
  import opened BinPattern
  import opened PageScan
  import opened StaleMatches
  import opened Words
  import Arith
  import F = ForwardSearch
  import B = BackwardSearch

  /** Nothing in [a, d) is missed by a search of [a, b) and then of [b, d). */
  ghost predicate NothingMissed(q: Query, t: Target, a: nat, b: nat, d: nat) {
    q.Valid() &&
    var first := F.FindIn(q, t, a, b, []);
    first.NotFound? && F.FindIn(q, t, b, d, first.pms).NotFound? ==> NoneInside(q, t.bytes, a, d)
  }

  ghost predicate NothingMissedBackward(q: Query, t: Target, a: nat, b: nat, d: nat) {
    q.Valid() &&
    var first := B.FindIn(q, t, b, d, []);
    first.NotFound? && B.FindIn(q, t, a, b, first.pms).NotFound? ==> NoneInside(q, t.bytes, a, d)
  }

  /** The pattern has two bytes, one on each side of `b`. */
  ghost function AcrossQuery(pageSize: nat): Query {
    TwoBytes(1, 2, pageSize)
  }

  ghost function AcrossTarget(b: nat): Target {
    Memory(ea => if ea == b - 1 then 1 else if ea == b then 2 else 0)
  }

  /** It occurs there and nowhere else. */
  lemma AcrossOccurs(pageSize: nat, b: nat, lo: int, hi: int)
    requires 0 < pageSize < 0x8000_0000 && 0 < b
    ensures AcrossQuery(pageSize).Valid() && Undisturbed(AcrossQuery(pageSize), AcrossTarget(b), b)
    ensures NoneInside(AcrossQuery(pageSize), AcrossTarget(b).bytes, lo, hi) <==> !(lo < b < hi)
  {
    var q, mem := AcrossQuery(pageSize), AcrossTarget(b).bytes;
    forall i: nat, s: int | Occurs(q, mem, i, s, lo, hi)
      ensures lo < b < hi
    {
      assert AgreesAt(mem, q.ptns[0], q.flags, s, 0) && mem(s + 0) == 1;
    }
    if lo < b < hi {
      assert AgreesAt(mem, q.ptns[0], q.flags, b - 1, 0) && AgreesAt(mem, q.ptns[0], q.flags, b - 1, 1);
      assert Occurs(q, mem, 0, b - 1, lo, hi);
    }
  }

  lemma AcrossShape(pageSize: nat, b: nat)
    requires 0 < pageSize < 0x8000_0000
    ensures var q, t := AcrossQuery(pageSize), AcrossTarget(b);
            && q.Valid() && q.pageSize == pageSize && q.flags.noBreak
            && (forall ea: nat :: t.readable(ea)) && (forall end: nat :: Undisturbed(q, t, end))
  {
  }

  // ---------------------------------------------------------------- upwards

  /** On the page of `b`, if it begins before `b`, nothing goes on and nothing begins. */
  lemma UpPageLeavesNothing(pageSize: nat, base: nat, b: nat, lastOff: nat, pms: seq<Partial>)
    requires 0 < pageSize < 0x8000_0000 && base < b < base + lastOff
    ensures F.PageRun(AcrossQuery(pageSize), AcrossTarget(b).bytes, base, b - base, lastOff, pms) == Carry([])
  {
    hide Scan, Attempts, Upwards;
    var q, mem := AcrossQuery(pageSize), AcrossTarget(b).bytes;
    var finalizer, trier := F.Finalizer(q, mem, base, lastOff), F.Trier(q, mem, base, lastOff);
    var att := Attempts(q, Upwards(b - base, lastOff));
    forall k | 0 <= k < |pms| ensures finalizer(pms[k]) == Carry([]) {
      if F.Incomplete(q, pms[k]) {
        assert mem(base - 1 + 1) != 2 && !AgreesAt(mem, q.ptns[0], q.flags, base - 1, 1);
      }
    }
    ScanMisses(finalizer, pms);
    F.AttemptsTryAll(q, b - base, lastOff);
    forall k | 0 <= k < |att| ensures trier(att[k]) == Carry([]) {
      assert att[k] in att;
      assert mem(base + att[k].pos + 0) != 1 && !AgreesAt(mem, q.ptns[0], q.flags, base + att[k].pos, 0);
    }
    ScanMisses(trier, att);
  }

  lemma UpMissed(pageSize: nat, a: nat, b: nat, d: nat)
    requires 0 < pageSize < 0x8000_0000 && a < b < d && b % pageSize != 0
    ensures AcrossQuery(pageSize).Valid() && !NothingMissed(AcrossQuery(pageSize), AcrossTarget(b), a, b, d)
  {
    hide F.Find, F.PageRun, AcrossQuery, AcrossTarget, NoneInside;
    var q, t := AcrossQuery(pageSize), AcrossTarget(b);
    AcrossShape(pageSize, b);
    var first := F.FindIn(q, t, a, b, []);
    AcrossOccurs(pageSize, b, a, b);
    AcrossOccurs(pageSize, b, a, d);
    VerdictUp(pageSize, b, a, b);
    F.FreshFind(q, t, a, b);
    var base := AlignDown(b, pageSize);
    Arith.AlignedDown(b, pageSize);
    assert base < b;
    UpPageLeavesNothing(pageSize, base, b, Min(d - base, pageSize), first.pms);
    F.FindUnfolds(q, t, base, b - base, d, first.pms);
    Arith.ModStep(base, pageSize, pageSize);
    if base + pageSize < d {
      F.FindInAligned(q, t, base + pageSize, d, []);
      AcrossOccurs(pageSize, b, base + pageSize, d);
      VerdictUp(pageSize, b, base + pageSize, d);
      F.FreshFind(q, t, base + pageSize, d);
    } else {
      F.FindUnfolds(q, t, base + pageSize, 0, d, []);
    }
  }

  lemma VerdictUp(pageSize: nat, b: nat, start: nat, end: nat)
    requires 0 < pageSize < 0x8000_0000
    ensures var r := F.FindIn(AcrossQuery(pageSize), AcrossTarget(b), start, end, []); r.FoundAt? || r.NotFound?
  {
    hide F.Find, AlignDown;
    var base := AlignDown(start, pageSize);
    F.NoFailure(AcrossQuery(pageSize), AcrossTarget(b), base, start - base, end, []);
  }

  /** Main result: searches of two ranges that meet miss nothing, for every query
      and memory, exactly when they meet at a page boundary. */
  lemma NothingMissedExactly(pageSize: nat, a: nat, b: nat, d: nat)
    requires 0 < pageSize < 0x8000_0000 && a < b < d
    ensures (forall q: Query, t: Target | q.Valid() && q.pageSize == pageSize :: NothingMissed(q, t, a, b, d))
            <==> b % pageSize == 0
  {
    hide F.FindIn, F.PageEntry, NoneInside, AcrossQuery, AcrossTarget;
    if b % pageSize == 0 {
      forall q: Query, t: Target | q.Valid() && q.pageSize == pageSize
        ensures NothingMissed(q, t, a, b, d)
      {
        F.FreshFind(q, t, a, b);
        var first := F.FindIn(q, t, a, b, []);
        if first.NotFound? {
          F.ContinuedFind(q, t, a, b, d, first.pms);
        }
      }
    } else {
      AcrossShape(pageSize, b);
      UpMissed(pageSize, a, b, d);
    }
  }

  // -------------------------------------------------------------- downwards

  /** On the page below `b`, if it ends above `b`, nothing goes on and nothing begins. */
  lemma DownPageLeavesNothing(pageSize: nat, base: nat, pageOff: nat, b: nat, pms: seq<Partial>)
    requires 0 < pageSize < 0x8000_0000 && base + pageOff < b < base + pageSize
    ensures B.PageRun(AcrossQuery(pageSize), AcrossTarget(b).bytes, base, pageOff, b - base, pms) == Carry([])
  {
    hide Scan, Attempts, Downwards;
    var q, mem := AcrossQuery(pageSize), AcrossTarget(b).bytes;
    var finalizer, trier := B.Finalizer(q, mem, base, pageOff), B.Trier(q, mem, base, pageOff);
    var att := Attempts(q, Downwards(pageOff, b - base));
    forall k | 0 <= k < |pms| ensures finalizer(pms[k]) == Carry([]) {
      if F.Incomplete(q, pms[k]) {
        assert mem(base + pageSize - 1 + 0) != 1 && !AgreesAt(mem, q.ptns[0], q.flags, base + pageSize - 1, 0);
      }
    }
    ScanMisses(finalizer, pms);
    B.AttemptsTryAll(q, pageOff, b - base);
    forall k | 0 <= k < |att| ensures trier(att[k]) == Carry([]) {
      assert att[k] in att;
      assert mem(base + att[k].pos - 2 + 1) != 2 && !AgreesAt(mem, q.ptns[0], q.flags, base + att[k].pos - 2, 1);
    }
    ScanMisses(trier, att);
  }

  lemma DownMissed(pageSize: nat, a: nat, b: nat, d: nat)
    requires 0 < pageSize < 0x8000_0000 && a < b < d && (b % pageSize != 0 || d > ADDRESS_SPACE - pageSize)
    ensures AcrossQuery(pageSize).Valid() && !NothingMissedBackward(AcrossQuery(pageSize), AcrossTarget(b), a, b, d)
  {
    hide B.FindIn, AcrossQuery, AcrossTarget, NoneInside;
    AcrossShape(pageSize, b);
    AcrossOccurs(pageSize, b, a, d);
    var q, t := AcrossQuery(pageSize), AcrossTarget(b);
    if d > ADDRESS_SPACE - pageSize {
      TopNotLookedAt(q, t, b, d, []);
      NothingBelow(pageSize, a, b);
    } else {
      NothingAbove(pageSize, b, d);
      PartNotFound(pageSize, a, b, B.FindIn(q, t, b, d, []).pms);
    }
  }

  lemma TopNotLookedAt(q: Query, t: Target, start: nat, end: nat, pms: seq<Partial>)
    requires q.Valid() && end > ADDRESS_SPACE - q.pageSize
    ensures B.FindIn(q, t, start, end, pms) == F.NotFound(pms)
  {
  }

  lemma NothingAbove(pageSize: nat, b: nat, d: nat)
    requires 0 < pageSize < 0x8000_0000 && 0 < b < d <= ADDRESS_SPACE - pageSize
    ensures B.FindIn(AcrossQuery(pageSize), AcrossTarget(b), b, d, []).NotFound?
  {
    hide B.FindIn, AcrossQuery, AcrossTarget, NoneInside;
    var q, t := AcrossQuery(pageSize), AcrossTarget(b);
    AcrossShape(pageSize, b);
    AcrossOccurs(pageSize, b, b, d);
    B.NoFailure(q, t, b, d, []);
    B.FreshFind(q, t, b, d);
  }

  /** A fresh search of a range that ends at or below `b` finds nothing. */
  lemma NothingBelow(pageSize: nat, a: nat, b: nat)
    requires 0 < pageSize < 0x8000_0000 && a < b
    ensures B.FindIn(AcrossQuery(pageSize), AcrossTarget(b), a, b, []).NotFound?
  {
    hide B.FindIn, AcrossQuery, AcrossTarget, NoneInside;
    AcrossShape(pageSize, b);
    if b > ADDRESS_SPACE - pageSize {
      TopNotLookedAt(AcrossQuery(pageSize), AcrossTarget(b), a, b, []);
    } else {
      EndNotFound(pageSize, a, b, b);
    }
  }

  lemma EndNotFound(pageSize: nat, a: nat, end: nat, b: nat)
    requires 0 < pageSize < 0x8000_0000 && a <= end <= b && 0 < b && end <= ADDRESS_SPACE - pageSize
    ensures B.FindIn(AcrossQuery(pageSize), AcrossTarget(b), a, end, []).NotFound?
  {
    hide B.FindIn, AcrossQuery, AcrossTarget, NoneInside;
    var q, t := AcrossQuery(pageSize), AcrossTarget(b);
    AcrossShape(pageSize, b);
    AcrossOccurs(pageSize, b, a, end);
    B.NoFailure(q, t, a, end, []);
    B.FreshFind(q, t, a, end);
  }

  lemma InsidePage(b: nat, pageSize: nat)
    requires 0 < b && 0 < pageSize && b % pageSize != 0
    ensures var base := AlignDown(b - 1, pageSize);
            base < b < base + pageSize && base % pageSize == 0
                && (pageSize <= base ==> AlignDown(base - 1, pageSize) == base - pageSize)
  {
    var base := AlignDown(b - 1, pageSize);
    Arith.AlignedDown(b - 1, pageSize);
    Arith.ModStep(base, pageSize, pageSize);
    if pageSize <= base {
      B.PageBelow(base, pageSize);
    }
  }

  /** The second search, whatever it carries. */
  lemma PartNotFound(pageSize: nat, a: nat, b: nat, pms: seq<Partial>)
    requires 0 < pageSize < 0x8000_0000 && a < b <= ADDRESS_SPACE - pageSize && b % pageSize != 0
    ensures B.FindIn(AcrossQuery(pageSize), AcrossTarget(b), a, b, pms).NotFound?
  {
    hide B.Find, B.PageRun, AcrossQuery, AcrossTarget, AlignDown;
    var q, t := AcrossQuery(pageSize), AcrossTarget(b);
    AcrossShape(pageSize, b);
    var base := AlignDown(b - 1, pageSize);
    InsidePage(b, pageSize);
    B.FindUnfolds(q, t, base, a, b - base, pms);
    DownPageLeavesNothing(pageSize, base, B.OffsetOf(a, base), b, pms);
    if pageSize <= base {
      if base <= a {
        B.FindUnfolds(q, t, base - pageSize, a, pageSize, []);
      } else {
        EndNotFound(pageSize, a, base, b);
      }
    }
  }

  /** The same for a backward search of the second range and then the first; it
      must also look at the second one. */
  lemma NothingMissedBackwardExactly(pageSize: nat, a: nat, b: nat, d: nat)
    requires 0 < pageSize < 0x8000_0000 && a < b < d
    ensures (forall q: Query, t: Target | q.Valid() && q.pageSize == pageSize :: NothingMissedBackward(q, t, a, b, d))
            <==> b % pageSize == 0 && d <= ADDRESS_SPACE - pageSize
  {
    hide B.FindIn, B.PageEntry, NoneInside, AcrossQuery, AcrossTarget;
    if b % pageSize == 0 && d <= ADDRESS_SPACE - pageSize {
      forall q: Query, t: Target | q.Valid() && q.pageSize == pageSize
        ensures NothingMissedBackward(q, t, a, b, d)
      {
        B.FreshFind(q, t, b, d);
        var first := B.FindIn(q, t, b, d, []);
        if first.NotFound? {
          B.ContinuedFind(q, t, a, b, d, first.pms);
        }
      }
    } else {
      AcrossShape(pageSize, b);
      DownMissed(pageSize, a, b, d);
    }
  }
}
