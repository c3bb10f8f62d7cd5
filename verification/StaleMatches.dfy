/** Matches that the two searches make up. A matcher keeps its partial matches
    from one range to the next and goes on with them at the begin (downwards: the
    end) of the page in which the next range lies. For every two ranges that do
    not meet at a page boundary, these are a query and a memory for which the
    result is no occurrence in the ranges. */
module StaleMatches {
  import opened BinPattern
  import opened Options
  import opened PageScan
  import opened Words
  import Arith
  import F = ForwardSearch
  import B = BackwardSearch

  ghost function TwoBytes(first: byte, second: byte, pageSize: nat): Query {
    Query([RawPattern([first, second], [])], Flags(true, false, true), pageSize)
  }

  ghost function Memory(bytes: int -> byte): Target {
    Target(bytes, _ => true, _ => false)
  }

  /** The page of an address is known by its boundary. */
  lemma InPage(ea: nat, base: nat, pageSize: nat)
    requires 0 < pageSize && base % pageSize == 0 && base <= ea < base + pageSize
    ensures AlignDown(ea, pageSize) == base
  {
    Arith.DivModUnique(ea, pageSize, base / pageSize, ea - base);
  }

  // ---------------------------------------------------------------- upwards

  /** The first byte lies before `b`, the second where the page of `c` begins. If
      that is the same place, the pattern has this byte twice. */
  ghost function UpQuery(pageSize: nat, b: nat, c: nat): Query
    requires 0 < pageSize
  {
    TwoBytes(1, if AlignDown(c, pageSize) == b - 1 then 1 else 2, pageSize)
  }

  ghost function UpTarget(pageSize: nat, b: nat, c: nat): Target
    requires 0 < pageSize
  {
    Memory(ea => if ea == b - 1 then 1 else if ea == AlignDown(c, pageSize) then 2 else 0)
  }

  /** The pattern occurs at most across `b`, when the page of `c` begins there. */
  lemma UpOccurs(pageSize: nat, b: nat, c: nat, i: nat, s: int, lo: int, hi: int)
    requires 0 < pageSize && 0 < b <= c
    ensures Occurs(UpQuery(pageSize, b, c), UpTarget(pageSize, b, c).bytes, i, s, lo, hi) ==>
              lo < b < hi && AlignDown(c, pageSize) == b
  {
    var q, mem := UpQuery(pageSize, b, c), UpTarget(pageSize, b, c).bytes;
    if Occurs(q, mem, i, s, lo, hi) {
      assert AgreesAt(mem, q.ptns[0], q.flags, s, 0) && AgreesAt(mem, q.ptns[0], q.flags, s, 1);
      assert mem(s + 0) == 1 && mem(s + 1) == q.ptns[0].bytes[1];
    }
  }

  /** A search of a range that ends at `b` remembers the byte before `b`, whatever
      else it carries. */
  lemma UpRemembers(pageSize: nat, a: nat, b: nat, c: nat, pms: seq<Partial>)
    requires 0 < pageSize < 0x8000_0000 && a < b <= c
    ensures var first := F.FindIn(UpQuery(pageSize, b, c), UpTarget(pageSize, b, c), a, b, pms);
            first.NotFound? ==> Partial(b - 1, 0, 1) in first.pms
  {
    hide F.Find, F.PageRun, UpQuery, UpTarget;
    var q, t := UpQuery(pageSize, b, c), UpTarget(pageSize, b, c);
    UpShape(pageSize, b, c);
    var base := AlignDown(b - 1, pageSize);
    Arith.AlignedDown(b - 1, pageSize);
    if a < base {
      F.SplitFind(q, t, a, base, b, pms);
      var before := F.FindIn(q, t, a, base, pms);
      if before.NotFound? {
        LastPageRemembers(pageSize, base, base, b, c, before.pms);
      }
    } else {
      LastPageRemembers(pageSize, base, a, b, c, pms);
    }
  }

  lemma UpShape(pageSize: nat, b: nat, c: nat)
    requires 0 < pageSize < 0x8000_0000 && 0 < b <= c
    ensures var q, t := UpQuery(pageSize, b, c), UpTarget(pageSize, b, c);
            && q.Valid() && q.pageSize == pageSize && |q.ptns| == 1 && q.Len(0) == 2 && Searchable(q, 0)
            && q.flags.noBreak
            && (forall ea: nat :: t.readable(ea))
            && AgreesAt(t.bytes, q.ptns[0], q.flags, b - 1, 0)
            && AgreesAt(t.bytes, q.ptns[0], q.flags, AlignDown(c, pageSize) - 1, 1)
  {
    hide AlignDown;
  }

  lemma LastPageRemembers(pageSize: nat, base: nat, start: nat, b: nat, c: nat, pms: seq<Partial>)
    requires 0 < pageSize < 0x8000_0000 && base % pageSize == 0 && base <= start < b <= base + pageSize && b <= c
    ensures var first := F.FindIn(UpQuery(pageSize, b, c), UpTarget(pageSize, b, c), start, b, pms);
            first.NotFound? ==> Partial(b - 1, 0, 1) in first.pms
  {
    hide F.PageRun, F.Find, UpQuery, UpTarget, AlignDown;
    var q, t := UpQuery(pageSize, b, c), UpTarget(pageSize, b, c);
    UpShape(pageSize, b, c);
    InPage(start, base, pageSize);
    F.FindUnfolds(q, t, base, start - base, b, pms);
    LastPageRun(pageSize, base, start - base, b, c, pms);
    var r := F.PageRun(q, t.bytes, base, start - base, b - base, pms);
    if r.Carry? {
      F.FindUnfolds(q, t, base + pageSize, 0, b, r.pms);
    }
  }

  lemma LastPageRun(pageSize: nat, base: nat, off: nat, b: nat, c: nat, pms: seq<Partial>)
    requires 0 < pageSize < 0x8000_0000 && base + off < b <= base + pageSize && b <= c
    ensures var r := F.PageRun(UpQuery(pageSize, b, c), UpTarget(pageSize, b, c).bytes, base, off, b - base, pms);
            r.Carry? ==> Partial(b - 1, 0, 1) in r.pms
  {
    hide Scan, Attempts, UpQuery, UpTarget, AlignDown, Upwards, F.TriesAll, Orderly, ScanMeans;
    var q, mem := UpQuery(pageSize, b, c), UpTarget(pageSize, b, c).bytes;
    var trier, att := F.Trier(q, mem, base, b - base), Attempts(q, Upwards(off, b - base));
    F.AttemptsTryAll(q, off, b - base);
    F.TrierOrderly(q, mem, base, off, b - base, att);
    ScanResult(trier, att);
    var k := UpTried(pageSize, base, off, b, c, att);
    if Scan(trier, att).Carry? {
      ScanRemembers(trier, att, Scan(trier, att).pms, Partial(b - 1, 0, 1), k);
    }
  }

  lemma UpTried(pageSize: nat, base: nat, off: nat, b: nat, c: nat, att: seq<Attempt>) returns (k: nat)
    requires 0 < pageSize < 0x8000_0000 && base + off < b <= base + pageSize && b <= c
    requires F.TriesAll(UpQuery(pageSize, b, c), att, off, b - base)
    ensures k < |att|
    ensures F.Trier(UpQuery(pageSize, b, c), UpTarget(pageSize, b, c).bytes, base, b - base)(att[k])
            == Carry([Partial(b - 1, 0, 1)])
  {
    hide UpQuery, UpTarget, AlignDown;
    UpShape(pageSize, b, c);
    assert Attempt(0, b - 1 - base) in att;
    k :| 0 <= k < |att| && att[k] == Attempt(0, b - 1 - base);
  }

  /** A search of a range that begins at `c` takes the remembered byte for the
      begin of a match. */
  lemma UpTakesStale(pageSize: nat, b: nat, c: nat, d: nat, pms: seq<Partial>)
    requires 0 < pageSize < 0x8000_0000 && 0 < b <= c < d && Partial(b - 1, 0, 1) in pms
    ensures !F.FindIn(UpQuery(pageSize, b, c), UpTarget(pageSize, b, c), c, d, pms).NotFound?
  {
    hide Scan, Attempts, Upwards, F.Find, UpQuery, UpTarget, AlignDown;
    var q, t, base := UpQuery(pageSize, b, c), UpTarget(pageSize, b, c), AlignDown(c, pageSize);
    UpShape(pageSize, b, c);
    var lastOff := Min(d - base, pageSize);
    F.FindUnfolds(q, t, base, c - base, d, pms);
    var judge := F.Finalizer(q, t.bytes, base, lastOff);
    assert judge(Partial(b - 1, 0, 1)) == Hit(b - 1);
    if Scan(judge, pms).Carry? {
      ScanNoHit(judge, pms);
    }
  }

  lemma UpVerdict(pageSize: nat, b: nat, c: nat, start: nat, end: nat, pms: seq<Partial>)
    requires 0 < pageSize < 0x8000_0000
    ensures var r := F.FindIn(UpQuery(pageSize, b, c), UpTarget(pageSize, b, c), start, end, pms);
            r.FoundAt? || r.NotFound?
  {
    hide F.Find, AlignDown;
    var base := AlignDown(start, pageSize);
    F.NoFailure(UpQuery(pageSize, b, c), UpTarget(pageSize, b, c), base, start - base, end, pms);
  }

  // -------------------------------------------------------------- downwards

  /** Where the page of the last byte before `b` ends. */
  function PageEnd(b: nat, pageSize: nat): (r: nat)
    requires 0 < b && 0 < pageSize
    ensures b <= r
  {
    AlignDown(b - 1, pageSize) + pageSize
  }

  /** The second byte lies at `c`, the first at the end of the page below `b`. */
  ghost function DownQuery(pageSize: nat, b: nat, c: nat): Query
    requires 0 < pageSize && 0 < b
  {
    TwoBytes(if PageEnd(b, pageSize) - 1 == c then 2 else 1, 2, pageSize)
  }

  ghost function DownTarget(pageSize: nat, b: nat, c: nat): Target
    requires 0 < pageSize && 0 < b
  {
    Memory(ea => if ea == c then 2 else if ea == PageEnd(b, pageSize) - 1 then 1 else 0)
  }

  /** The pattern occurs at most across `c`, when the page below `b` ends there. */
  lemma DownOccurs(pageSize: nat, b: nat, c: nat, i: nat, s: int, lo: int, hi: int)
    requires 0 < pageSize && 0 < b <= c
    ensures Occurs(DownQuery(pageSize, b, c), DownTarget(pageSize, b, c).bytes, i, s, lo, hi) ==>
              lo < c < hi && PageEnd(b, pageSize) == c
  {
    var q, mem := DownQuery(pageSize, b, c), DownTarget(pageSize, b, c).bytes;
    if Occurs(q, mem, i, s, lo, hi) {
      assert AgreesAt(mem, q.ptns[0], q.flags, s, 0) && AgreesAt(mem, q.ptns[0], q.flags, s, 1);
      assert mem(s + 0) == q.ptns[0].bytes[0] && mem(s + 1) == 2;
    }
  }

  /** The page below `b` ends at a page boundary. */
  lemma PageEndIsBoundary(b: nat, pageSize: nat)
    requires 0 < b && 0 < pageSize
    ensures PageEnd(b, pageSize) % pageSize == 0
  {
    var base := AlignDown(b - 1, pageSize);
    Arith.AlignedDown(b - 1, pageSize);
    Arith.ModStep(base, pageSize, pageSize);
  }

  lemma DownShape(pageSize: nat, b: nat, c: nat)
    requires 0 < pageSize < 0x8000_0000 && 0 < b <= c
    ensures var q, t := DownQuery(pageSize, b, c), DownTarget(pageSize, b, c);
            && q.Valid() && q.pageSize == pageSize && |q.ptns| == 1 && q.Len(0) == 2 && Searchable(q, 0)
            && q.flags.noBreak
            && (forall ea: nat :: t.readable(ea))
            && AgreesAt(t.bytes, q.ptns[0], q.flags, c - 1, 1)
            && AgreesAt(t.bytes, q.ptns[0], q.flags, PageEnd(b, pageSize) - 1, 0)
  {
    hide AlignDown;
  }

  /** A search of a range that begins at `c` remembers the byte at `c`. */
  lemma DownRemembers(pageSize: nat, b: nat, c: nat, d: nat, pms: seq<Partial>)
    requires 0 < pageSize < 0x8000_0000 && 0 < b <= c < d <= ADDRESS_SPACE - pageSize
    ensures var first := B.FindIn(DownQuery(pageSize, b, c), DownTarget(pageSize, b, c), c, d, pms);
            first.NotFound? ==> Partial(c - 1, 0, 1) in first.pms
  {
    hide B.Find, B.FindIn, B.PageRun, DownQuery, DownTarget;
    var q, t := DownQuery(pageSize, b, c), DownTarget(pageSize, b, c);
    DownShape(pageSize, b, c);
    var base := AlignDown(c, pageSize);
    Arith.AlignedDown(c, pageSize);
    Arith.ModStep(base, pageSize, pageSize);
    if base + pageSize < d {
      B.SplitFind(q, t, c, base + pageSize, d, pms);
      var before := B.FindIn(q, t, base + pageSize, d, pms);
      if before.NotFound? {
        FirstPageRemembers(pageSize, base, b, c, base + pageSize, before.pms);
      }
    } else {
      FirstPageRemembers(pageSize, base, b, c, d, pms);
    }
  }

  lemma FirstPageRemembers(pageSize: nat, base: nat, b: nat, c: nat, end: nat, pms: seq<Partial>)
    requires 0 < pageSize < 0x8000_0000 && base % pageSize == 0 && 0 < b <= c
    requires base <= c < end <= base + pageSize && end <= ADDRESS_SPACE - pageSize
    ensures var first := B.FindIn(DownQuery(pageSize, b, c), DownTarget(pageSize, b, c), c, end, pms);
            first.NotFound? ==> Partial(c - 1, 0, 1) in first.pms
  {
    hide B.PageRun, B.Find, DownQuery, DownTarget, AlignDown;
    var q, t := DownQuery(pageSize, b, c), DownTarget(pageSize, b, c);
    DownShape(pageSize, b, c);
    InPage(end - 1, base, pageSize);
    B.FindUnfolds(q, t, base, c, end - base, pms);
    FirstPageRun(pageSize, base, b, c, end - base, pms);
    var r := B.PageRun(q, t.bytes, base, c - base, end - base, pms);
    if r.Carry? && pageSize <= base {
      B.FindUnfolds(q, t, base - pageSize, c, pageSize, r.pms);
    }
  }

  lemma FirstPageRun(pageSize: nat, base: nat, b: nat, c: nat, lastOff: nat, pms: seq<Partial>)
    requires 0 < pageSize < 0x8000_0000 && base <= c < base + lastOff && 0 < b <= c < ADDRESS_SPACE
    ensures var r := B.PageRun(DownQuery(pageSize, b, c), DownTarget(pageSize, b, c).bytes,
                              base, c - base, lastOff, pms);
            r.Carry? ==> Partial(c - 1, 0, 1) in r.pms
  {
    hide Scan, Attempts, DownQuery, DownTarget, AlignDown, Downwards, B.TriesAll, Orderly, ScanMeans;
    var q, mem := DownQuery(pageSize, b, c), DownTarget(pageSize, b, c).bytes;
    var trier, att := B.Trier(q, mem, base, c - base), Attempts(q, Downwards(c - base, lastOff));
    B.AttemptsTryAll(q, c - base, lastOff);
    B.TrierOrderly(q, mem, base, c - base, lastOff, att);
    ScanResult(trier, att);
    var k := DownTried(pageSize, base, b, c, lastOff, att);
    if Scan(trier, att).Carry? {
      ScanRemembers(trier, att, Scan(trier, att).pms, Partial(c - 1, 0, 1), k);
    }
  }

  lemma DownTried(pageSize: nat, base: nat, b: nat, c: nat, lastOff: nat, att: seq<Attempt>) returns (k: nat)
    requires 0 < pageSize < 0x8000_0000 && base <= c < base + lastOff && 0 < b <= c < ADDRESS_SPACE
    requires B.TriesAll(DownQuery(pageSize, b, c), att, c - base, lastOff)
    ensures k < |att|
    ensures B.Trier(DownQuery(pageSize, b, c), DownTarget(pageSize, b, c).bytes, base, c - base)(att[k])
            == Carry([Partial(c - 1, 0, 1)])
  {
    hide DownQuery, DownTarget, AlignDown, Wrap;
    DownShape(pageSize, b, c);
    assert Attempt(0, c - base + 1) in att;
    k :| 0 <= k < |att| && att[k] == Attempt(0, c - base + 1);
  }

  /** A search of a range that ends at `b` takes the remembered byte for the end of
      a match. */
  lemma DownTakesStale(pageSize: nat, a: nat, b: nat, c: nat, pms: seq<Partial>)
    requires 0 < pageSize < 0x8000_0000 && a < b <= c && b <= ADDRESS_SPACE - pageSize && Partial(c - 1, 0, 1) in pms
    ensures !B.FindIn(DownQuery(pageSize, b, c), DownTarget(pageSize, b, c), a, b, pms).NotFound?
  {
    hide Scan, Attempts, Downwards, B.Find, DownQuery, DownTarget, AlignDown;
    var q, t, base := DownQuery(pageSize, b, c), DownTarget(pageSize, b, c), AlignDown(b - 1, pageSize);
    DownShape(pageSize, b, c);
    B.FindUnfolds(q, t, base, a, b - base, pms);
    var judge := B.Finalizer(q, t.bytes, base, B.OffsetOf(a, base));
    assert judge(Partial(c - 1, 0, 1)) == Hit(c - 1);
    if Scan(judge, pms).Carry? {
      ScanNoHit(judge, pms);
    }
  }

  lemma DownVerdict(pageSize: nat, b: nat, c: nat, start: nat, end: nat, pms: seq<Partial>)
    requires 0 < pageSize < 0x8000_0000 && 0 < b
    ensures var r := B.FindIn(DownQuery(pageSize, b, c), DownTarget(pageSize, b, c), start, end, pms);
            r.FoundAt? || r.NotFound?
  {
    hide B.FindIn;
    B.NoFailure(DownQuery(pageSize, b, c), DownTarget(pageSize, b, c), start, end, pms);
  }
}
