/** The forward search as a function of the query, the memory and the carried
    partial matches, and the theorems about it. The class in ForwardMatcher.dfy
    is proved to compute exactly this function. */
module ForwardSearch {
  import opened BinPattern
  import opened Options
  import opened PageScan
  import Arith

  /** How a `find` ends. */
  datatype Outcome = FoundAt(ea: int) | NotFound(pms: seq<Partial>) | Cancelled | ReadFailed(failedEa: nat)

  /** A partial match of this query: some bytes of its pattern matched, some are left. */
  predicate Incomplete(q: Query, pm: Partial) {
    pm.ptnIdx < |q.ptns| && 0 < pm.ptnOff < q.Len(pm.ptnIdx)
  }

  predicate AllIncomplete(q: Query, pms: seq<Partial>) {
    forall k | 0 <= k < |pms| :: Incomplete(q, pms[k])
  }

  // ---------------------------------------------------------------- one page

  /** Matches the next part of a carried pattern against the start of the page. */
  ghost function Finalize(q: Query, mem: int -> byte, pageEa: nat, lastOff: nat, pm: Partial): Drc
    requires Incomplete(q, pm)
  {
    var rest := q.Len(pm.ptnIdx) - pm.ptnOff;
    var nbytes := Min(rest, lastOff);
    if !Agrees(mem, q.ptns[pm.ptnIdx], q.flags, pageEa - pm.ptnOff, pm.ptnOff, pm.ptnOff + nbytes) then DrcFailed
    else if rest <= lastOff then DrcOk
    else if lastOff != q.pageSize then DrcFailed
    else DrcNone
  }

  ghost function Finalized(q: Query, mem: int -> byte, pageEa: nat, lastOff: nat, pm: Partial): PageResult {
    if !Incomplete(q, pm) then Carry([])
    else
      var drc := Finalize(q, mem, pageEa, lastOff, pm);
      if drc == DrcOk then Hit(pm.matchEa)
      else if drc == DrcNone then Carry([pm.(ptnOff := pm.ptnOff + q.pageSize)])
      else Carry([])
  }

  ghost function Finalizer(q: Query, mem: int -> byte, pageEa: nat, lastOff: nat): Partial -> PageResult {
    pm => Finalized(q, mem, pageEa, lastOff, pm)
  }

  /** Compares a whole pattern, or as much of it as the page part holds. */
  ghost function Tried(q: Query, mem: int -> byte, pageEa: nat, lastOff: nat, a: Attempt): PageResult {
    if !Searchable(q, a.i) || lastOff <= a.pos then Carry([])
    else
      var rest := lastOff - a.pos;
      var nbytes := Min(rest, q.Len(a.i));
      if !Agrees(mem, q.ptns[a.i], q.flags, pageEa + a.pos, 0, nbytes) then Carry([])
      else if q.Len(a.i) <= rest then Hit(pageEa + a.pos)
      else Carry([Partial(pageEa + a.pos, a.i, nbytes)])
  }

  ghost function Trier(q: Query, mem: int -> byte, pageEa: nat, lastOff: nat): Attempt -> PageResult {
    a => Tried(q, mem, pageEa, lastOff, a)
  }

  /** The work done on one page: carried matches first, then new ones. */
  ghost function PageRun(q: Query, mem: int -> byte, pageEa: nat, off: nat, lastOff: nat,
                         pms: seq<Partial>): PageResult {
    Then(Scan(Finalizer(q, mem, pageEa, lastOff), pms),
         Scan(Trier(q, mem, pageEa, lastOff), Attempts(q, Upwards(off, lastOff))))
  }

  // --------------------------------------------------------------- all pages

  /** The search of [pageEa + off, end), page by page, with carried matches. */
  ghost function Find(q: Query, t: Target, pageEa: nat, off: nat, end: nat, pms: seq<Partial>): Outcome
    requires q.Valid()
    decreases end - pageEa
  {
    if pageEa >= end then NotFound(pms)
    else if !q.flags.noBreak && t.cancelled(pageEa) then Cancelled
    else if !t.readable(pageEa) then ReadFailed(pageEa)
    else
      match PageRun(q, t.bytes, pageEa, off, Min(end - pageEa, q.pageSize), pms)
      case Hit(ea) => FoundAt(ea)
      case Carry(pms') => Find(q, t, pageEa + q.pageSize, 0, end, pms')
  }

  /** `find` of the source on a matcher that carries `pms`. */
  ghost function FindIn(q: Query, t: Target, start: nat, end: nat, pms: seq<Partial>): Outcome
    requires q.Valid()
  {
    var pageEa := AlignDown(start, q.pageSize);
    Find(q, t, pageEa, start - pageEa, end, pms)
  }

  /** One page of the search. */
  lemma FindUnfolds(q: Query, t: Target, pageEa: nat, off: nat, end: nat, pms: seq<Partial>)
    requires q.Valid()
    ensures Find(q, t, pageEa, off, end, pms) ==
            if pageEa >= end then NotFound(pms)
            else if !q.flags.noBreak && t.cancelled(pageEa) then Cancelled
            else if !t.readable(pageEa) then ReadFailed(pageEa)
            else
              var r := PageRun(q, t.bytes, pageEa, off, Min(end - pageEa, q.pageSize), pms);
              if r.Hit? then FoundAt(r.ea) else Find(q, t, pageEa + q.pageSize, 0, end, r.pms)
  {
    hide PageRun;
  }

  // ------------------------------------------------------- the page invariant

  /** Pattern `i` laid at `s` matches up to the boundary `b`; its rest lies beyond. */
  ghost predicate Straddles(q: Query, mem: int -> byte, i: nat, s: int, lo: int, b: int) {
    Searchable(q, i) && lo <= s < b < s + q.Len(i) && Agrees(mem, q.ptns[i], q.flags, s, 0, b - s)
  }

  ghost predicate Carried(q: Query, mem: int -> byte, lo: int, b: int, pm: Partial) {
    Straddles(q, mem, pm.ptnIdx, pm.matchEa, lo, b) && pm.ptnOff == b - pm.matchEa
  }

  /** The partial matches carried over the boundary `b` are exactly the places
      at or above `lo` that straddle it, upwards for each pattern. */
  ghost predicate CarriesExactly(q: Query, mem: int -> byte, lo: int, b: int, pms: seq<Partial>) {
    && (forall k | 0 <= k < |pms| :: Carried(q, mem, lo, b, pms[k]))
    && (forall i: nat, s: nat | Straddles(q, mem, i, s, lo, b) :: Partial(s, i, b - s) in pms)
    && Shrinking(pms)
  }

  /** The entries of one pattern are in increasing address order. */
  lemma CarriedUpwards(q: Query, mem: int -> byte, lo: int, b: int, pms: seq<Partial>, j: nat, k: nat)
    requires CarriesExactly(q, mem, lo, b, pms)
    requires j < k < |pms| && pms[j].ptnIdx == pms[k].ptnIdx
    ensures pms[j].matchEa < pms[k].matchEa
  {
    assert Carried(q, mem, lo, b, pms[j]) && Carried(q, mem, lo, b, pms[k]);
  }

  lemma AgreesSplit(mem: int -> byte, ptn: Pattern, flags: Flags, ea: int, lo: nat, mid: nat, hi: nat)
    requires lo <= mid <= hi <= |ptn.bytes|
    ensures Agrees(mem, ptn, flags, ea, lo, hi)
            <==> Agrees(mem, ptn, flags, ea, lo, mid) && Agrees(mem, ptn, flags, ea, mid, hi)
  {
  }

  /** What a carried match at the boundary `pageEa` becomes on this page. */
  lemma FinalizedMeans(q: Query, mem: int -> byte, lo: int, pageEa: nat, lastOff: nat, pm: Partial)
    requires q.Valid() && 0 < lastOff <= q.pageSize
    requires Carried(q, mem, lo, pageEa, pm)
    ensures var r := Finalized(q, mem, pageEa, lastOff, pm);
            && (r.Hit? <==> Occurs(q, mem, pm.ptnIdx, pm.matchEa, lo, pageEa + lastOff))
            && (r.Hit? ==> r.ea == pm.matchEa)
            && (r.Carry? && r.pms != [] ==> r.pms == [Partial(pm.matchEa, pm.ptnIdx, pm.ptnOff + q.pageSize)])
            && (r.Carry? && r.pms != [] <==>
                  lastOff == q.pageSize && Straddles(q, mem, pm.ptnIdx, pm.matchEa, lo, pageEa + lastOff))
  {
    var rest := q.Len(pm.ptnIdx) - pm.ptnOff;
    var nbytes := Min(rest, lastOff);
    AgreesSplit(mem, q.ptns[pm.ptnIdx], q.flags, pm.matchEa, 0, pm.ptnOff, pm.ptnOff + nbytes);
  }

  /** What an attempt finds. */
  lemma TriedMeans(q: Query, mem: int -> byte, lo: int, pageEa: nat, lastOff: nat, a: Attempt)
    requires Searchable(q, a.i) && a.pos < lastOff && lo <= pageEa + a.pos
    ensures var r := Tried(q, mem, pageEa, lastOff, a);
            && (r.Hit? <==> Occurs(q, mem, a.i, pageEa + a.pos, lo, pageEa + lastOff))
            && (r.Hit? ==> r.ea == pageEa + a.pos)
            && (r.Carry? && r.pms != [] ==> r.pms == [Partial(pageEa + a.pos, a.i, lastOff - a.pos)])
            && (r.Carry? && r.pms != [] <==> Straddles(q, mem, a.i, pageEa + a.pos, lo, pageEa + lastOff))
  {
  }

  lemma FinalizerOrderly(q: Query, mem: int -> byte, lo: int, pageEa: nat, lastOff: nat, pms: seq<Partial>)
    requires q.Valid() && 0 < lastOff <= q.pageSize && CarriesExactly(q, mem, lo, pageEa, pms)
    ensures Orderly(Finalizer(q, mem, pageEa, lastOff), pms)
  {
    forall k | 0 <= k < |pms|
      ensures Carried(q, mem, lo, pageEa, pms[k])
      ensures var r := Finalizer(q, mem, pageEa, lastOff)(pms[k]);
              r.Carry? && r.pms != [] ==> r.pms == [Partial(pms[k].matchEa, pms[k].ptnIdx, pms[k].ptnOff + q.pageSize)]
    {
      FinalizedMeans(q, mem, lo, pageEa, lastOff, pms[k]);
    }
  }

  /** The attempts are those for every non-empty pattern at every position of
      the page part, upwards for each pattern. */
  ghost predicate TriesAll(q: Query, att: seq<Attempt>, off: nat, lastOff: nat) {
    (forall a :: a in att <==> Searchable(q, a.i) && off <= a.pos < lastOff) && Directed(att, true)
  }

  lemma AttemptsTryAll(q: Query, off: nat, lastOff: nat)
    ensures TriesAll(q, Attempts(q, Upwards(off, lastOff)), off, lastOff)
  {
    AttemptsOrder(q, Upwards(off, lastOff), true);
  }

  lemma TrierOrderly(q: Query, mem: int -> byte, pageEa: nat, off: nat, lastOff: nat, att: seq<Attempt>)
    requires TriesAll(q, att, off, lastOff)
    ensures Orderly(Trier(q, mem, pageEa, lastOff), att)
  {
    forall k | 0 <= k < |att|
      ensures var r := Trier(q, mem, pageEa, lastOff)(att[k]);
              r.Carry? && r.pms != [] ==> r.pms == [Partial(pageEa + att[k].pos, att[k].i, lastOff - att[k].pos)]
    {
      assert att[k] in att;
      TriedMeans(q, mem, 0, pageEa, lastOff, att[k]);
    }
  }

  /** The state in which a page is entered: everything below it has been
      searched from `lo` on, and what straddles its start is carried. */
  ghost predicate PageEntry(q: Query, mem: int -> byte, lo: nat, pageEa: nat, pms: seq<Partial>) {
    && q.Valid()
    && CarriesExactly(q, mem, lo, pageEa, pms)
    && NoneInside(q, mem, lo, pageEa)
  }

  ghost function OffsetOf(lo: nat, pageEa: nat): nat {
    if lo > pageEa then lo - pageEa else 0
  }

  /** An occurrence that begins below the page was carried into it. */
  lemma OccurrenceCarried(q: Query, mem: int -> byte, lo: nat, pageEa: nat, pms: seq<Partial>, lastOff: nat, i: nat,
                          s: int)
    returns (k: nat)
    requires PageEntry(q, mem, lo, pageEa, pms) && 0 < lastOff <= q.pageSize
    requires Occurs(q, mem, i, s, lo, pageEa + lastOff) && s < pageEa
    ensures k < |pms| && pms[k].ptnIdx == i && pms[k].matchEa == s
    ensures Finalizer(q, mem, pageEa, lastOff)(pms[k]) == Hit(s)
  {
    assert !Occurs(q, mem, i, s, lo, pageEa);
    assert Straddles(q, mem, i, s, lo, pageEa);
    k :| 0 <= k < |pms| && pms[k] == Partial(s, i, pageEa - s);
    assert Carried(q, mem, lo, pageEa, pms[k]);
    FinalizedMeans(q, mem, lo, pageEa, lastOff, pms[k]);
  }

  /** An occurrence that begins on the page is found by one of the attempts. */
  lemma OccurrenceTried(q: Query, mem: int -> byte, lo: nat, pageEa: nat, lastOff: nat, att: seq<Attempt>, i: nat,
                        s: int)
    returns (k: nat)
    requires TriesAll(q, att, OffsetOf(lo, pageEa), lastOff)
    requires Occurs(q, mem, i, s, lo, pageEa + lastOff) && pageEa <= s
    ensures k < |att| && att[k] == Attempt(i, s - pageEa) && Trier(q, mem, pageEa, lastOff)(att[k]) == Hit(s)
  {
    assert Attempt(i, s - pageEa) in att;
    k :| 0 <= k < |att| && att[k] == Attempt(i, s - pageEa);
    TriedMeans(q, mem, lo, pageEa, lastOff, att[k]);
  }

  /** A carried match that completes is the first occurrence of its pattern. */
  lemma CarriedHitIsFirst(q: Query, mem: int -> byte, lo: nat, pageEa: nat, lastOff: nat, pms: seq<Partial>, ea: int,
                          k: nat)
    requires PageEntry(q, mem, lo, pageEa, pms) && 0 < lastOff <= q.pageSize
    requires FirstHit(Finalizer(q, mem, pageEa, lastOff), pms, ea, k)
    ensures FirstOf(q, mem, pms[k].ptnIdx, ea, lo, pageEa + lastOff)
  {
    var i := pms[k].ptnIdx;
    assert Carried(q, mem, lo, pageEa, pms[k]);
    FinalizedMeans(q, mem, lo, pageEa, lastOff, pms[k]);
    var hi := pageEa + lastOff;
    forall t: int | t < ea && Occurs(q, mem, i, t, lo, hi)
      ensures false
    {
      var j := OccurrenceCarried(q, mem, lo, pageEa, pms, lastOff, i, t);
      if k < j {
        CarriedUpwards(q, mem, lo, pageEa, pms, k, j);
      }
    }
  }

  /** So is a new match, when no carried match completes on its page. */
  lemma NewHitIsFirst(q: Query, mem: int -> byte, lo: nat, pageEa: nat, lastOff: nat, pms: seq<Partial>,
                      att: seq<Attempt>, ea: int, k: nat)
    requires PageEntry(q, mem, lo, pageEa, pms) && 0 < lastOff <= q.pageSize
    requires TriesAll(q, att, OffsetOf(lo, pageEa), lastOff)
    requires forall j | 0 <= j < |pms| :: Finalizer(q, mem, pageEa, lastOff)(pms[j]).Carry?
    requires FirstHit(Trier(q, mem, pageEa, lastOff), att, ea, k)
    ensures FirstOf(q, mem, att[k].i, ea, lo, pageEa + lastOff)
  {
    var i := att[k].i;
    assert att[k] in att;
    TriedMeans(q, mem, lo, pageEa, lastOff, att[k]);
    var hi := pageEa + lastOff;
    forall t: int | t < ea && Occurs(q, mem, i, t, lo, hi)
      ensures false
    {
      if t < pageEa {
        var j := OccurrenceCarried(q, mem, lo, pageEa, pms, lastOff, i, t);
      } else {
        var j := OccurrenceTried(q, mem, lo, pageEa, lastOff, att, i, t);
      }
    }
  }

  /** A hit on a page is the first occurrence of its pattern. */
  lemma PageHit(q: Query, mem: int -> byte, lo: nat, pageEa: nat, lastOff: nat, pms: seq<Partial>) returns (i: nat)
    requires PageEntry(q, mem, lo, pageEa, pms) && 0 < lastOff <= q.pageSize
    requires PageRun(q, mem, pageEa, OffsetOf(lo, pageEa), lastOff, pms).Hit?
    ensures FirstOf(q, mem, i, PageRun(q, mem, pageEa, OffsetOf(lo, pageEa), lastOff, pms).ea, lo, pageEa + lastOff)
  {
    var ea := PageRun(q, mem, pageEa, OffsetOf(lo, pageEa), lastOff, pms).ea;
    var finalizer, trier := Finalizer(q, mem, pageEa, lastOff), Trier(q, mem, pageEa, lastOff);
    var att := Attempts(q, Upwards(OffsetOf(lo, pageEa), lastOff));
    FinalizerOrderly(q, mem, lo, pageEa, lastOff, pms);
    ScanResult(finalizer, pms);
    if Scan(finalizer, pms).Hit? {
      var k :| FirstHit(finalizer, pms, ea, k);
      CarriedHitIsFirst(q, mem, lo, pageEa, lastOff, pms, ea, k);
      i := pms[k].ptnIdx;
    } else {
      AttemptsTryAll(q, OffsetOf(lo, pageEa), lastOff);
      TrierOrderly(q, mem, pageEa, OffsetOf(lo, pageEa), lastOff, att);
      ScanResult(trier, att);
      var k :| FirstHit(trier, att, ea, k);
      NewHitIsFirst(q, mem, lo, pageEa, lastOff, pms, att, ea, k);
      i := att[k].i;
    }
  }

  /** Without a hit on the page nothing occurs up to its end. */
  lemma NothingMissed(q: Query, mem: int -> byte, lo: nat, pageEa: nat, lastOff: nat, pms: seq<Partial>,
                      att: seq<Attempt>)
    requires PageEntry(q, mem, lo, pageEa, pms) && 0 < lastOff <= q.pageSize
    requires TriesAll(q, att, OffsetOf(lo, pageEa), lastOff)
    requires forall j | 0 <= j < |pms| :: Finalizer(q, mem, pageEa, lastOff)(pms[j]).Carry?
    requires forall j | 0 <= j < |att| :: Trier(q, mem, pageEa, lastOff)(att[j]).Carry?
    ensures NoneInside(q, mem, lo, pageEa + lastOff)
  {
    var hi := pageEa + lastOff;
    forall i: nat, s: int | Occurs(q, mem, i, s, lo, hi)
      ensures false
    {
      if s < pageEa {
        var j := OccurrenceCarried(q, mem, lo, pageEa, pms, lastOff, i, s);
      } else {
        var j := OccurrenceTried(q, mem, lo, pageEa, lastOff, att, i, s);
      }
    }
  }

  /** The partial matches after a full page are exactly the right ones. */
  lemma CarryExact(q: Query, mem: int -> byte, lo: nat, pageEa: nat, pms: seq<Partial>, att: seq<Attempt>,
                   older: seq<Partial>, newer: seq<Partial>)
    requires PageEntry(q, mem, lo, pageEa, pms)
    requires TriesAll(q, att, OffsetOf(lo, pageEa), q.pageSize)
    requires ScanMeans(Finalizer(q, mem, pageEa, q.pageSize), pms, Carry(older))
    requires ScanMeans(Trier(q, mem, pageEa, q.pageSize), att, Carry(newer))
    ensures CarriesExactly(q, mem, lo, pageEa + q.pageSize, older + newer)
  {
    var b := pageEa + q.pageSize;
    forall n | 0 <= n < |older|
      ensures Carried(q, mem, lo, b, older[n]) && older[n].matchEa < pageEa
    {
      OlderCarried(q, mem, lo, pageEa, pms, older, n);
    }
    forall n | 0 <= n < |newer|
      ensures Carried(q, mem, lo, b, newer[n]) && pageEa <= newer[n].matchEa
    {
      NewerCarried(q, mem, lo, pageEa, att, newer, n);
    }
    forall i: nat, s: nat | Straddles(q, mem, i, s, lo, b)
      ensures Partial(s, i, b - s) in older + newer
    {
      if s < pageEa {
        OlderRemembered(q, mem, lo, pageEa, pms, older, i, s);
      } else {
        NewerRemembered(q, mem, lo, pageEa, att, newer, i, s);
      }
    }
    CarriedTogether(q, mem, lo, pageEa, b, older, newer);
  }

  /** Older partial matches, then newer ones, are again in order. */
  lemma CarriedTogether(q: Query, mem: int -> byte, lo: nat, pageEa: nat, b: nat, older: seq<Partial>,
                        newer: seq<Partial>)
    requires forall n | 0 <= n < |older| :: Carried(q, mem, lo, b, older[n]) && older[n].matchEa < pageEa
    requires forall n | 0 <= n < |newer| :: Carried(q, mem, lo, b, newer[n]) && pageEa <= newer[n].matchEa
    requires forall i: nat, s: nat | Straddles(q, mem, i, s, lo, b) :: Partial(s, i, b - s) in older + newer
    requires Shrinking(older) && Shrinking(newer)
    ensures CarriesExactly(q, mem, lo, b, older + newer)
  {
  }

  lemma OlderCarried(q: Query, mem: int -> byte, lo: nat, pageEa: nat, pms: seq<Partial>, older: seq<Partial>, n: nat)
    requires PageEntry(q, mem, lo, pageEa, pms) && n < |older|
    requires ScanMeans(Finalizer(q, mem, pageEa, q.pageSize), pms, Carry(older))
    ensures Carried(q, mem, lo, pageEa + q.pageSize, older[n]) && older[n].matchEa < pageEa
  {
    var k := ScanSource(Finalizer(q, mem, pageEa, q.pageSize), pms, older, n);
    assert Carried(q, mem, lo, pageEa, pms[k]);
    FinalizedMeans(q, mem, lo, pageEa, q.pageSize, pms[k]);
  }

  lemma NewerCarried(q: Query, mem: int -> byte, lo: nat, pageEa: nat, att: seq<Attempt>, newer: seq<Partial>, n: nat)
    requires TriesAll(q, att, OffsetOf(lo, pageEa), q.pageSize) && n < |newer|
    requires ScanMeans(Trier(q, mem, pageEa, q.pageSize), att, Carry(newer))
    ensures Carried(q, mem, lo, pageEa + q.pageSize, newer[n]) && pageEa <= newer[n].matchEa
  {
    var k := ScanSource(Trier(q, mem, pageEa, q.pageSize), att, newer, n);
    assert att[k] in att;
    TriedMeans(q, mem, lo, pageEa, q.pageSize, att[k]);
  }

  /** What straddles a boundary straddles every lower boundary above its begin. */
  lemma StraddlesLower(q: Query, mem: int -> byte, i: nat, s: int, lo: int, b: int, b': int)
    requires Straddles(q, mem, i, s, lo, b') && s < b <= b'
    ensures Straddles(q, mem, i, s, lo, b)
  {
  }

  lemma OlderRemembered(q: Query, mem: int -> byte, lo: nat, pageEa: nat, pms: seq<Partial>, older: seq<Partial>,
                        i: nat, s: nat)
    requires PageEntry(q, mem, lo, pageEa, pms)
    requires ScanMeans(Finalizer(q, mem, pageEa, q.pageSize), pms, Carry(older))
    requires Straddles(q, mem, i, s, lo, pageEa + q.pageSize) && s < pageEa
    ensures Partial(s, i, pageEa + q.pageSize - s) in older
  {
    hide Agrees, ScanMeans, Finalized, NoneInside;
    StraddlesLower(q, mem, i, s, lo, pageEa, pageEa + q.pageSize);
    var k :| 0 <= k < |pms| && pms[k] == Partial(s, i, pageEa - s);
    FinalizedMeans(q, mem, lo, pageEa, q.pageSize, pms[k]);
    ScanRemembers(Finalizer(q, mem, pageEa, q.pageSize), pms, older, Partial(s, i, pageEa + q.pageSize - s), k);
  }

  lemma NewerRemembered(q: Query, mem: int -> byte, lo: nat, pageEa: nat, att: seq<Attempt>, newer: seq<Partial>,
                        i: nat, s: nat)
    requires TriesAll(q, att, OffsetOf(lo, pageEa), q.pageSize)
    requires ScanMeans(Trier(q, mem, pageEa, q.pageSize), att, Carry(newer))
    requires Straddles(q, mem, i, s, lo, pageEa + q.pageSize) && pageEa <= s
    ensures Partial(s, i, pageEa + q.pageSize - s) in newer
  {
    assert Attempt(i, s - pageEa) in att;
    var k :| 0 <= k < |att| && att[k] == Attempt(i, s - pageEa);
    TriedMeans(q, mem, lo, pageEa, q.pageSize, att[k]);
    ScanRemembers(Trier(q, mem, pageEa, q.pageSize), att, newer, Partial(s, i, pageEa + q.pageSize - s), k);
  }

  lemma CarryStep(q: Query, mem: int -> byte, lo: nat, pageEa: nat, lastOff: nat, pms: seq<Partial>, att: seq<Attempt>,
                  older: seq<Partial>, newer: seq<Partial>)
    requires PageEntry(q, mem, lo, pageEa, pms) && 0 < lastOff <= q.pageSize
    requires TriesAll(q, att, OffsetOf(lo, pageEa), lastOff)
    requires ScanMeans(Finalizer(q, mem, pageEa, lastOff), pms, Carry(older))
    requires ScanMeans(Trier(q, mem, pageEa, lastOff), att, Carry(newer))
    ensures NoneInside(q, mem, lo, pageEa + lastOff)
    ensures lastOff == q.pageSize ==> PageEntry(q, mem, lo, pageEa + lastOff, older + newer)
  {
    NothingMissed(q, mem, lo, pageEa, lastOff, pms, att);
    if lastOff == q.pageSize {
      CarryExact(q, mem, lo, pageEa, pms, att, older, newer);
    }
  }

  /** A page without a hit: nothing occurs up to its end, and the next page is
      entered with exactly the right partial matches. */
  lemma PageCarry(q: Query, mem: int -> byte, lo: nat, pageEa: nat, lastOff: nat, pms: seq<Partial>)
    requires PageEntry(q, mem, lo, pageEa, pms) && 0 < lastOff <= q.pageSize
    ensures var r := PageRun(q, mem, pageEa, OffsetOf(lo, pageEa), lastOff, pms);
            r.Carry? ==>
              && NoneInside(q, mem, lo, pageEa + lastOff)
              && (lastOff == q.pageSize ==> PageEntry(q, mem, lo, pageEa + lastOff, r.pms))
  {
    hide CarriesExactly, NoneInside, Occurs, Straddles, TriesAll, Orderly, Scan, ScanMeans, Attempts, Upwards;
    var r := PageRun(q, mem, pageEa, OffsetOf(lo, pageEa), lastOff, pms);
    assert r.Carry? ==> Scan(Finalizer(q, mem, pageEa, lastOff), pms).Carry?;
    if r.Hit? {
      return;
    }
    var att := Attempts(q, Upwards(OffsetOf(lo, pageEa), lastOff));
    FinalizerOrderly(q, mem, lo, pageEa, lastOff, pms);
    ScanResult(Finalizer(q, mem, pageEa, lastOff), pms);
    AttemptsTryAll(q, OffsetOf(lo, pageEa), lastOff);
    TrierOrderly(q, mem, pageEa, OffsetOf(lo, pageEa), lastOff, att);
    ScanResult(Trier(q, mem, pageEa, lastOff), att);
    var older, newer := Scan(Finalizer(q, mem, pageEa, lastOff), pms).pms,
                        Scan(Trier(q, mem, pageEa, lastOff), att).pms;
    CarryStep(q, mem, lo, pageEa, lastOff, pms, att, older, newer);
    assert r.pms == older + newer;
  }

  // ------------------------------------------------------------ main theorems

  /** What the outcome of a search of [lo, end) must say about the memory: a hit
      is the first occurrence of one of the patterns, a failure says that none
      occurs, and after a failure at a page boundary the right matches are carried. */
  ghost predicate OutcomeMeans(q: Query, mem: int -> byte, lo: nat, end: nat, atBoundary: bool, r: Outcome) {
    match r
    case FoundAt(ea) => exists i: nat :: FirstOf(q, mem, i, ea, lo, end)
    case NotFound(pms) => NoneInside(q, mem, lo, end) && (atBoundary ==> PageEntry(q, mem, lo, end, pms))
    case _ => true
  }

  /** Whole pages lead from one boundary to the other. */
  ghost predicate PagesLead(pageEa: nat, end: nat, size: nat)
    requires 0 < size
    decreases end - pageEa
  {
    pageEa == end || (pageEa < end && PagesLead(pageEa + size, end, size))
  }

  lemma {:induction false} BoundariesLead(pageEa: nat, end: nat, size: nat)
    requires 0 < size && pageEa <= end && pageEa % size == 0 && end % size == 0
    ensures PagesLead(pageEa, end, size)
    decreases end - pageEa
  {
    if pageEa < end {
      Arith.BoundariesApart(pageEa, end, size);
      Arith.ModStep(pageEa, size, size);
      BoundariesLead(pageEa + size, end, size);
    }
  }

  /** From a page boundary on. */
  lemma {:induction false} FindMeans(q: Query, t: Target, lo: nat, pageEa: nat, end: nat, pms: seq<Partial>,
                                     atBoundary: bool)
    requires PageEntry(q, t.bytes, lo, pageEa, pms)
    requires lo <= end && pageEa <= end && lo < pageEa + q.pageSize
    requires atBoundary ==> PagesLead(pageEa, end, q.pageSize)
    ensures OutcomeMeans(q, t.bytes, lo, end, atBoundary, Find(q, t, pageEa, OffsetOf(lo, pageEa), end, pms))
    decreases end - pageEa
  {
    hide PageRun, CarriesExactly, Occurs;
    if pageEa < end && (q.flags.noBreak || !t.cancelled(pageEa)) && t.readable(pageEa) {
      var lastOff := Min(end - pageEa, q.pageSize);
      var r := PageRun(q, t.bytes, pageEa, OffsetOf(lo, pageEa), lastOff, pms);
      if r.Hit? {
        var i := PageHit(q, t.bytes, lo, pageEa, lastOff, pms);
        FirstOfWidens(q, t.bytes, i, r.ea, lo, pageEa + lastOff, end);
      } else {
        PageCarry(q, t.bytes, lo, pageEa, lastOff, pms);
        if lastOff == q.pageSize {
          FindMeans(q, t, lo, pageEa + q.pageSize, end, r.pms, atBoundary);
        } else {
          assert Find(q, t, pageEa + q.pageSize, 0, end, r.pms) == NotFound(r.pms);
        }
      }
    }
  }

  /** A fresh matcher may enter the page of its first address. */
  lemma FreshEntry(q: Query, mem: int -> byte, start: nat, pageEa: nat)
    requires q.Valid() && pageEa <= start
    ensures PageEntry(q, mem, start, pageEa, [])
  {
  }

  /** Main result. On a fresh matcher, for every memory, pattern set and range,
      `find` reports a match exactly when a non-empty pattern occurs wholly
      inside [start, end), and then the first occurrence of one of the patterns. */
  lemma FreshFind(q: Query, t: Target, start: nat, end: nat)
    requires q.Valid() && start <= end
    ensures OutcomeMeans(q, t.bytes, start, end, end % q.pageSize == 0, FindIn(q, t, start, end, []))
    ensures var r := FindIn(q, t, start, end, []);
            !r.Cancelled? && !r.ReadFailed? ==> (r.FoundAt? <==> !NoneInside(q, t.bytes, start, end))
  {
    hide Find, PageEntry, Occurs;
    var pageEa := AlignDown(start, q.pageSize);
    if end % q.pageSize == 0 {
      Arith.AlignedDown(start, q.pageSize);
      BoundariesLead(pageEa, end, q.pageSize);
    }
    FreshEntry(q, t.bytes, start, pageEa);
    FindMeans(q, t, start, pageEa, end, [], end % q.pageSize == 0);
  }

  /** The same for a matcher that has searched [lo, start) without success and
      goes on at the page boundary `start`. */
  lemma ContinuedFind(q: Query, t: Target, lo: nat, start: nat, end: nat, pms: seq<Partial>)
    requires lo <= start <= end && PageEntry(q, t.bytes, lo, start, pms) && start % q.pageSize == 0
    ensures OutcomeMeans(q, t.bytes, lo, end, end % q.pageSize == 0, FindIn(q, t, start, end, pms))
  {
    FindInAligned(q, t, start, end, pms);
    if end % q.pageSize == 0 {
      BoundariesLead(start, end, q.pageSize);
    }
    FindMeans(q, t, lo, start, end, pms, end % q.pageSize == 0);
  }

  /** A search can be cut at any page boundary: the two parts, run one after the
      other on the same matcher, do what the whole does, to the same outcome. */
  lemma SplitFind(q: Query, t: Target, a: nat, b: nat, c: nat, pms: seq<Partial>)
    requires q.Valid() && a <= b <= c && b % q.pageSize == 0
    ensures FindIn(q, t, a, c, pms) ==
            var first := FindIn(q, t, a, b, pms);
            if first.NotFound? then FindIn(q, t, b, c, first.pms) else first
  {
    var pageEa := AlignDown(a, q.pageSize);
    Arith.AlignedDown(a, q.pageSize);
    BoundariesLead(pageEa, b, q.pageSize);
    SplitPages(q, t, pageEa, a - pageEa, b, c, pms);
    var first := FindIn(q, t, a, b, pms);
    if first.NotFound? {
      FindInAligned(q, t, b, c, first.pms);
    }
  }

  lemma FindInAligned(q: Query, t: Target, start: nat, end: nat, pms: seq<Partial>)
    requires q.Valid() && start % q.pageSize == 0
    ensures FindIn(q, t, start, end, pms) == Find(q, t, start, 0, end, pms)
  {
    hide Find;
  }

  /** The work on one page of a search that ends at or beyond the page's end. */
  ghost function PageStep(q: Query, t: Target, pageEa: nat, off: nat, pms: seq<Partial>): Outcome {
    if !q.flags.noBreak && t.cancelled(pageEa) then Cancelled
    else if !t.readable(pageEa) then ReadFailed(pageEa)
    else
      match PageRun(q, t.bytes, pageEa, off, q.pageSize, pms)
      case Hit(ea) => FoundAt(ea)
      case Carry(pms') => NotFound(pms')
  }

  lemma FindStep(q: Query, t: Target, pageEa: nat, off: nat, end: nat, pms: seq<Partial>)
    requires q.Valid() && pageEa + q.pageSize <= end
    ensures Find(q, t, pageEa, off, end, pms) ==
            var page := PageStep(q, t, pageEa, off, pms);
            if page.NotFound? then Find(q, t, pageEa + q.pageSize, 0, end, page.pms) else page
  {
    hide PageRun;
  }

  lemma {:induction false} SplitPages(q: Query, t: Target, pageEa: nat, off: nat, b: nat, c: nat, pms: seq<Partial>)
    requires q.Valid() && pageEa <= b <= c && PagesLead(pageEa, b, q.pageSize)
    requires pageEa == b ==> off == 0
    ensures Find(q, t, pageEa, off, c, pms) ==
            var first := Find(q, t, pageEa, off, b, pms);
            if first.NotFound? then Find(q, t, b, 0, c, first.pms) else first
    decreases b - pageEa
  {
    hide PageStep, PageRun;
    if pageEa < b {
      assert pageEa + q.pageSize <= b;
      FindStep(q, t, pageEa, off, b, pms);
      FindStep(q, t, pageEa, off, c, pms);
      var page := PageStep(q, t, pageEa, off, pms);
      if page.NotFound? {
        SplitPages(q, t, pageEa + q.pageSize, 0, b, c, page.pms);
      }
    }
  }

  /** Without a disturbance a search ends with a verdict. */
  lemma {:induction false} NoFailure(q: Query, t: Target, pageEa: nat, off: nat, end: nat, pms: seq<Partial>)
    requires q.Valid() && Undisturbed(q, t, end)
    ensures var r := Find(q, t, pageEa, off, end, pms); r.FoundAt? || r.NotFound?
    decreases end - pageEa
  {
    hide PageRun;
    if pageEa < end {
      var r := PageRun(q, t.bytes, pageEa, off, Min(end - pageEa, q.pageSize), pms);
      if r.Carry? {
        NoFailure(q, t, pageEa + q.pageSize, 0, end, r.pms);
      }
    }
  }

  /** The page with some more carried matches in front. */
  lemma MoreCarried(q: Query, mem: int -> byte, pageEa: nat, off: nat, lastOff: nat, stale: seq<Partial>,
                    pms: seq<Partial>)
    returns (left: seq<Partial>)
    ensures var more := PageRun(q, mem, pageEa, off, lastOff, stale + pms);
            more.Carry? ==>
              && PageRun(q, mem, pageEa, off, lastOff, pms).Carry?
              && more.pms == left + PageRun(q, mem, pageEa, off, lastOff, pms).pms
  {
    hide Scan, Attempts, Upwards;
    var finalizer := Finalizer(q, mem, pageEa, lastOff);
    ScanAppend(finalizer, stale, pms);
    left := if Scan(finalizer, stale).Carry? then Scan(finalizer, stale).pms else [];
    var newer := Scan(Trier(q, mem, pageEa, lastOff), Attempts(q, Upwards(off, lastOff)));
    if Scan(finalizer, pms).Carry? && newer.Carry? {
      assert left + Scan(finalizer, pms).pms + newer.pms == left + (Scan(finalizer, pms).pms + newer.pms);
    }
  }

  /** Carried matches, right or wrong, never hide anything: without a hit, the
      search that does not carry them has no hit either, and hands on the same
      matches but for some more in front. */
  lemma {:induction false} CarryingHidesNothing(q: Query, t: Target, pageEa: nat, off: nat, end: nat,
                                                stale: seq<Partial>, pms: seq<Partial>)
    returns (left: seq<Partial>)
    requires q.Valid()
    ensures var more, r := Find(q, t, pageEa, off, end, stale + pms), Find(q, t, pageEa, off, end, pms);
            more.NotFound? ==> r.NotFound? && more.pms == left + r.pms
    decreases end - pageEa
  {
    hide PageRun;
    left := stale;
    if pageEa < end {
      var lastOff := Min(end - pageEa, q.pageSize);
      var next := MoreCarried(q, t.bytes, pageEa, off, lastOff, stale, pms);
      var r := PageRun(q, t.bytes, pageEa, off, lastOff, pms);
      if r.Carry? {
        left := CarryingHidesNothing(q, t, pageEa + q.pageSize, 0, end, next, r.pms);
      }
    }
  }

  lemma CarriedAlong(q: Query, t: Target, start: nat, end: nat, stale: seq<Partial>, pms: seq<Partial>)
    returns (left: seq<Partial>)
    requires q.Valid()
    ensures var more, r := FindIn(q, t, start, end, stale + pms), FindIn(q, t, start, end, pms);
            more.NotFound? ==> r.NotFound? && more.pms == left + r.pms
  {
    hide Find;
    var pageEa := AlignDown(start, q.pageSize);
    left := CarryingHidesNothing(q, t, pageEa, start - pageEa, end, stale, pms);
  }

  /** Whatever a matcher carries from elsewhere, a search without success has
      missed nothing in its range. */
  lemma FailureIsComplete(q: Query, t: Target, start: nat, end: nat, pms: seq<Partial>)
    requires q.Valid() && start <= end && FindIn(q, t, start, end, pms).NotFound?
    ensures NoneInside(q, t.bytes, start, end)
  {
    hide FindIn, NoneInside;
    assert pms + [] == pms;
    var left := CarriedAlong(q, t, start, end, pms, []);
    FreshFind(q, t, start, end);
  }
}
