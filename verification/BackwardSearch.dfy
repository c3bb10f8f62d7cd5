/** The backward search as a function, and the theorems about it: the mirror
    image of ForwardSearch.dfy. Patterns are matched suffix first. A partial match
    whose pattern would begin below address 0 has a wrapped `matchEa`. */
module BackwardSearch {
  import opened BinPattern
  import opened Options
  import opened PageScan
  import F = ForwardSearch
  import Arith
  import opened Words

  type Outcome = F.Outcome

  /** A partial match whose `rest` bytes before the boundary are still open. */
  function Rest(q: Query, pm: Partial): nat
    requires F.Incomplete(q, pm)
  {
    q.Len(pm.ptnIdx) - pm.ptnOff
  }

  // ---------------------------------------------------------------- one page

  /** Matches the previous part of a carried pattern against the end of the page. */
  ghost function Finalize(q: Query, mem: int -> byte, pageEa: nat, pageOff: nat, pm: Partial): Drc
    requires F.Incomplete(q, pm) && pageOff <= q.pageSize
  {
    var rest := Rest(q, pm);
    var nbytes := Min(rest, q.pageSize - pageOff);
    if !Agrees(mem, q.ptns[pm.ptnIdx], q.flags, pageEa + q.pageSize - rest, rest - nbytes, rest) then DrcFailed
    else if rest <= q.pageSize - pageOff then DrcOk
    else if pageOff != 0 then DrcFailed
    else DrcNone
  }

  ghost function Finalized(q: Query, mem: int -> byte, pageEa: nat, pageOff: nat, pm: Partial): PageResult {
    if !F.Incomplete(q, pm) || pageOff > q.pageSize then Carry([])
    else
      var drc := Finalize(q, mem, pageEa, pageOff, pm);
      if drc == DrcOk then Hit(pm.matchEa)
      else if drc == DrcNone then Carry([pm.(ptnOff := pm.ptnOff + q.pageSize)])
      else Carry([])
  }

  ghost function Finalizer(q: Query, mem: int -> byte, pageEa: nat, pageOff: nat): Partial -> PageResult {
    pm => Finalized(q, mem, pageEa, pageOff, pm)
  }

  /** Compares a whole pattern that ends at offset `a.pos`, or its last bytes. */
  ghost function Tried(q: Query, mem: int -> byte, pageEa: nat, pageOff: nat, a: Attempt): PageResult {
    if !Searchable(q, a.i) || a.pos <= pageOff then Carry([])
    else
      var rest, len := a.pos - pageOff, q.Len(a.i);
      var nbytes := Min(rest, len);
      if !Agrees(mem, q.ptns[a.i], q.flags, pageEa + a.pos - len, len - nbytes, len) then Carry([])
      else if len <= rest then Hit(pageEa + a.pos - nbytes)
      else Carry([Partial(Wrap(pageEa + a.pos - len), a.i, nbytes)])
  }

  ghost function Trier(q: Query, mem: int -> byte, pageEa: nat, pageOff: nat): Attempt -> PageResult {
    a => Tried(q, mem, pageEa, pageOff, a)
  }

  /** The work done on one page: carried matches first, then new ones. */
  ghost function PageRun(q: Query, mem: int -> byte, pageEa: nat, pageOff: nat, lastOff: nat,
                         pms: seq<Partial>): PageResult {
    Then(Scan(Finalizer(q, mem, pageEa, pageOff), pms),
         Scan(Trier(q, mem, pageEa, pageOff), Attempts(q, Downwards(pageOff, lastOff))))
  }

  ghost function OffsetOf(start: nat, pageEa: nat): nat {
    if pageEa < start then start - pageEa else 0
  }

  // --------------------------------------------------------------- all pages

  /** The search of [start, pageEa + lastOff), page by page downwards. The page
      at address 0 is the last one that can be scanned. */
  ghost function Find(q: Query, t: Target, pageEa: nat, start: nat, lastOff: nat, pms: seq<Partial>): Outcome
    requires q.Valid()
    decreases pageEa
  {
    if pageEa + q.pageSize <= start then F.NotFound(pms)
    else if !q.flags.noBreak && t.cancelled(pageEa) then F.Cancelled
    else if !t.readable(pageEa) then F.ReadFailed(pageEa)
    else
      match PageRun(q, t.bytes, pageEa, OffsetOf(start, pageEa), lastOff, pms)
      case Hit(ea) => F.FoundAt(ea)
      case Carry(pms') =>
        if pageEa < q.pageSize then F.NotFound(pms')
        else Find(q, t, pageEa - q.pageSize, start, q.pageSize, pms')
  }

  /** `find` of the source on a matcher that carries `pms`. The loop test is a
      64-bit sum, so a range that ends in the last page of the address space is
      not scanned at all. */
  ghost function FindIn(q: Query, t: Target, start: nat, end: nat, pms: seq<Partial>): Outcome
    requires q.Valid()
  {
    if end == 0 || end > ADDRESS_SPACE - q.pageSize then F.NotFound(pms)
    else
      var pageEa := AlignDown(end - 1, q.pageSize);
      Find(q, t, pageEa, start, end - pageEa, pms)
  }

  /** One page of the search. */
  lemma FindUnfolds(q: Query, t: Target, pageEa: nat, start: nat, lastOff: nat, pms: seq<Partial>)
    requires q.Valid()
    ensures Find(q, t, pageEa, start, lastOff, pms) ==
            if pageEa + q.pageSize <= start then F.NotFound(pms)
            else if !q.flags.noBreak && t.cancelled(pageEa) then F.Cancelled
            else if !t.readable(pageEa) then F.ReadFailed(pageEa)
            else
              var r := PageRun(q, t.bytes, pageEa, OffsetOf(start, pageEa), lastOff, pms);
              if r.Hit? then F.FoundAt(r.ea)
              else if pageEa < q.pageSize then F.NotFound(r.pms)
              else Find(q, t, pageEa - q.pageSize, start, q.pageSize, r.pms)
  {
    hide PageRun;
  }

  // ------------------------------------------------------- the page invariant

  /** Pattern `i` laid at `s` matches from the boundary `b` on; its begin lies below. */
  ghost predicate Straddles(q: Query, mem: int -> byte, i: nat, s: int, hi: int, b: int) {
    && Searchable(q, i)
    && s < b < s + q.Len(i) <= hi
    && Agrees(mem, q.ptns[i], q.flags, s, b - s, q.Len(i))
  }

  ghost predicate Carried(q: Query, mem: int -> byte, hi: int, b: int, pm: Partial) {
    && F.Incomplete(q, pm)
    && Straddles(q, mem, pm.ptnIdx, b - Rest(q, pm), hi, b)
    && pm.matchEa == Wrap(b - Rest(q, pm))
  }

  /** The partial match of pattern `i` at `s` for the boundary `b` is on the list. */
  ghost predicate Remembers(q: Query, pms: seq<Partial>, i: nat, s: int, b: int) {
    i < |q.ptns| && b < s + q.Len(i) && Partial(Wrap(s), i, s + q.Len(i) - b) in pms
  }

  lemma Recall(q: Query, pms: seq<Partial>, i: nat, s: int, b: int) returns (k: nat)
    requires Remembers(q, pms, i, s, b)
    ensures i < |q.ptns| && k < |pms| && pms[k].ptnIdx == i && pms[k].ptnOff == s + q.Len(i) - b
    ensures pms[k].matchEa == Wrap(s)
  {
    k :| 0 <= k < |pms| && pms[k] == Partial(Wrap(s), i, s + q.Len(i) - b);
  }

  /** The carried partial matches are exactly the places that end at or below
      `hi` and straddle the boundary `b`, downwards for each pattern. */
  ghost predicate CarriesExactly(q: Query, mem: int -> byte, hi: int, b: int, pms: seq<Partial>) {
    && (forall k | 0 <= k < |pms| :: Carried(q, mem, hi, b, pms[k]))
    && (forall i: nat, s: int | Straddles(q, mem, i, s, hi, b) :: Remembers(q, pms, i, s, b))
    && Shrinking(pms)
  }

  /** The partial match with one more page of its pattern matched. */
  ghost function Advanced(q: Query, pm: Partial): Partial {
    pm.(ptnOff := pm.ptnOff + q.pageSize)
  }

  /** What a carried match at the boundary `pageEa + pageSize` becomes on this page. */
  lemma FinalizedMeans(q: Query, mem: int -> byte, hi: int, pageEa: nat, pageOff: nat, pm: Partial)
    requires q.Valid() && pageOff < q.pageSize && hi <= ADDRESS_SPACE
    requires Carried(q, mem, hi, pageEa + q.pageSize, pm)
    ensures var r, s := Finalized(q, mem, pageEa, pageOff, pm), pageEa + q.pageSize - Rest(q, pm);
            && (r.Hit? <==> Occurs(q, mem, pm.ptnIdx, s, pageEa + pageOff, hi))
            && (r.Hit? ==> r.ea == s)
            && (r.Carry? && r.pms != [] ==> r.pms == [Advanced(q, pm)])
            && (r.Carry? && r.pms != [] <==> pageOff == 0 && Straddles(q, mem, pm.ptnIdx, s, hi, pageEa))
  {
    var rest := Rest(q, pm);
    var nbytes := Min(rest, q.pageSize - pageOff);
    F.AgreesSplit(mem, q.ptns[pm.ptnIdx], q.flags, pageEa + q.pageSize - rest, rest - nbytes, rest, q.Len(pm.ptnIdx));
  }

  /** What an attempt finds. */
  lemma TriedMeans(q: Query, mem: int -> byte, hi: int, pageEa: nat, pageOff: nat, a: Attempt)
    requires Searchable(q, a.i) && pageOff < a.pos && pageEa + a.pos <= hi
    ensures var r, s := Tried(q, mem, pageEa, pageOff, a), pageEa + a.pos - q.Len(a.i);
            && (r.Hit? <==> Occurs(q, mem, a.i, s, pageEa + pageOff, hi))
            && (r.Hit? ==> r.ea == s)
            && (r.Carry? && r.pms != [] ==> r.pms == [Partial(Wrap(s), a.i, a.pos - pageOff)])
            && (r.Carry? && r.pms != [] <==> Straddles(q, mem, a.i, s, hi, pageEa + pageOff))
  {
  }

  lemma FinalizerOrderly(q: Query, mem: int -> byte, pageEa: nat, pageOff: nat, pms: seq<Partial>)
    requires Shrinking(pms)
    ensures Orderly(Finalizer(q, mem, pageEa, pageOff), pms)
  {
    forall k | 0 <= k < |pms|
      ensures Finalizer(q, mem, pageEa, pageOff)(pms[k])
              in {Hit(pms[k].matchEa), Carry([]), Carry([Advanced(q, pms[k])])}
    {
      hide Finalize;
    }
    hide Finalized;
  }

  /** The attempts are those for every non-empty pattern at every end position of
      the page part, downwards for each pattern. */
  ghost predicate TriesAll(q: Query, att: seq<Attempt>, pageOff: nat, lastOff: nat) {
    (forall a :: a in att <==> Searchable(q, a.i) && pageOff < a.pos <= lastOff) && Directed(att, false)
  }

  lemma AttemptsTryAll(q: Query, pageOff: nat, lastOff: nat)
    ensures TriesAll(q, Attempts(q, Downwards(pageOff, lastOff)), pageOff, lastOff)
  {
    hide PatternMajor, PositionMajor;
    AttemptsOrder(q, Downwards(pageOff, lastOff), false);
  }

  lemma TrierOrderly(q: Query, mem: int -> byte, pageEa: nat, pageOff: nat, lastOff: nat, att: seq<Attempt>)
    requires TriesAll(q, att, pageOff, lastOff)
    ensures Orderly(Trier(q, mem, pageEa, pageOff), att)
  {
    forall k | 0 <= k < |att|
      ensures var r := Trier(q, mem, pageEa, pageOff)(att[k]);
              r.Carry? && r.pms != [] ==>
                |r.pms| == 1 && r.pms[0].ptnIdx == att[k].i && r.pms[0].ptnOff == att[k].pos - pageOff
    {
      assert att[k] in att;
      TriedMeans(q, mem, pageEa + att[k].pos, pageEa, pageOff, att[k]);
    }
  }

  /** The state in which the page below the boundary `b` is entered: everything
      from `b` up to `hi` has been searched, and what straddles `b` is carried. */
  ghost predicate PageEntry(q: Query, mem: int -> byte, hi: nat, b: nat, pms: seq<Partial>) {
    && q.Valid()
    && hi <= ADDRESS_SPACE
    && CarriesExactly(q, mem, hi, b, pms)
    && NoneInside(q, mem, b, hi)
  }

  ghost function LastOffOf(q: Query, hi: nat, pageEa: nat): int {
    Min(hi - pageEa, q.pageSize)
  }

  lemma OccurrenceStraddles(q: Query, mem: int -> byte, i: nat, s: int, lo: int, hi: int, b: int)
    requires Occurs(q, mem, i, s, lo, hi) && s < b < s + q.Len(i)
    ensures Straddles(q, mem, i, s, hi, b)
  {
  }

  /** What straddles a boundary straddles every higher boundary below its end. */
  lemma StraddlesHigher(q: Query, mem: int -> byte, i: nat, s: int, hi: int, b: int, b': int)
    requires Straddles(q, mem, i, s, hi, b) && b <= b' < s + q.Len(i)
    ensures Straddles(q, mem, i, s, hi, b')
  {
  }

  /** An occurrence that ends above the page was carried into it. */
  lemma OccurrenceCarried(q: Query, mem: int -> byte, hi: nat, pageEa: nat, pageOff: nat, pms: seq<Partial>, i: nat,
                          s: int)
    returns (k: nat)
    requires PageEntry(q, mem, hi, pageEa + q.pageSize, pms) && pageOff < q.pageSize
    requires Occurs(q, mem, i, s, pageEa + pageOff, hi) && pageEa + q.pageSize < s + q.Len(i)
    ensures k < |pms| && pms[k].ptnIdx == i && pms[k].ptnOff == s + q.Len(i) - (pageEa + q.pageSize)
    ensures Finalizer(q, mem, pageEa, pageOff)(pms[k]) == Hit(s)
  {
    hide Agrees, Wrap, Finalized, Remembers;
    var b := pageEa + q.pageSize;
    assert !Occurs(q, mem, i, s, b, hi);
    OccurrenceStraddles(q, mem, i, s, pageEa + pageOff, hi, b);
    k := Recall(q, pms, i, s, b);
    assert Carried(q, mem, hi, b, pms[k]);
    FinalizedMeans(q, mem, hi, pageEa, pageOff, pms[k]);
  }

  /** An occurrence that ends on the page is found by one of the attempts. */
  lemma OccurrenceTried(q: Query, mem: int -> byte, hi: nat, pageEa: nat, pageOff: nat, lastOff: nat, att: seq<Attempt>,
                        i: nat, s: int)
    returns (k: nat)
    requires TriesAll(q, att, pageOff, lastOff) && lastOff == LastOffOf(q, hi, pageEa)
    requires Occurs(q, mem, i, s, pageEa + pageOff, hi) && s + q.Len(i) <= pageEa + q.pageSize
    ensures k < |att| && att[k] == Attempt(i, s + q.Len(i) - pageEa) && Trier(q, mem, pageEa, pageOff)(att[k]) == Hit(s)
  {
    assert Attempt(i, s + q.Len(i) - pageEa) in att;
    k :| 0 <= k < |att| && att[k] == Attempt(i, s + q.Len(i) - pageEa);
    TriedMeans(q, mem, hi, pageEa, pageOff, att[k]);
  }

  /** A carried match that completes is the last occurrence of its pattern. */
  lemma CarriedHitIsLast(q: Query, mem: int -> byte, hi: nat, pageEa: nat, pageOff: nat, pms: seq<Partial>, ea: int,
                         k: nat)
    requires PageEntry(q, mem, hi, pageEa + q.pageSize, pms) && pageOff < q.pageSize
    requires FirstHit(Finalizer(q, mem, pageEa, pageOff), pms, ea, k)
    ensures LastOf(q, mem, pms[k].ptnIdx, ea, pageEa + pageOff, hi)
  {
    hide Agrees, Wrap, Finalized, Remembers;
    var i, lo := pms[k].ptnIdx, pageEa + pageOff;
    assert Carried(q, mem, hi, pageEa + q.pageSize, pms[k]);
    FinalizedMeans(q, mem, hi, pageEa, pageOff, pms[k]);
    forall t: int | ea < t && Occurs(q, mem, i, t, lo, hi)
      ensures false
    {
      var j := OccurrenceCarried(q, mem, hi, pageEa, pageOff, pms, i, t);
    }
  }

  /** So is a new match, when no carried match completes on its page. */
  lemma NewHitIsLast(q: Query, mem: int -> byte, hi: nat, pageEa: nat, pageOff: nat, lastOff: nat, pms: seq<Partial>,
                     att: seq<Attempt>, ea: int, k: nat)
    requires PageEntry(q, mem, hi, pageEa + q.pageSize, pms) && pageOff < q.pageSize
    requires TriesAll(q, att, pageOff, lastOff) && lastOff == LastOffOf(q, hi, pageEa)
    requires forall j | 0 <= j < |pms| :: Finalizer(q, mem, pageEa, pageOff)(pms[j]).Carry?
    requires FirstHit(Trier(q, mem, pageEa, pageOff), att, ea, k)
    ensures LastOf(q, mem, att[k].i, ea, pageEa + pageOff, hi)
  {
    var i, lo := att[k].i, pageEa + pageOff;
    assert att[k] in att;
    TriedMeans(q, mem, hi, pageEa, pageOff, att[k]);
    forall t: int | ea < t && Occurs(q, mem, i, t, lo, hi)
      ensures false
    {
      if pageEa + q.pageSize < t + q.Len(i) {
        var j := OccurrenceCarried(q, mem, hi, pageEa, pageOff, pms, i, t);
      } else {
        var j := OccurrenceTried(q, mem, hi, pageEa, pageOff, lastOff, att, i, t);
      }
    }
  }

  /** A hit on a page is the last occurrence of its pattern. */
  lemma PageHit(q: Query, mem: int -> byte, hi: nat, pageEa: nat, pageOff: nat, lastOff: nat, pms: seq<Partial>)
    returns (i: nat)
    requires PageEntry(q, mem, hi, pageEa + q.pageSize, pms) && pageOff < q.pageSize
            && lastOff == LastOffOf(q, hi, pageEa)
    requires PageRun(q, mem, pageEa, pageOff, lastOff, pms).Hit?
    ensures LastOf(q, mem, i, PageRun(q, mem, pageEa, pageOff, lastOff, pms).ea, pageEa + pageOff, hi)
  {
    hide Carried, NoneInside, Occurs, Straddles, TriesAll, Orderly, Scan, Attempts, Downwards;
    var ea := PageRun(q, mem, pageEa, pageOff, lastOff, pms).ea;
    var finalizer, trier := Finalizer(q, mem, pageEa, pageOff), Trier(q, mem, pageEa, pageOff);
    var att := Attempts(q, Downwards(pageOff, lastOff));
    FinalizerOrderly(q, mem, pageEa, pageOff, pms);
    ScanResult(finalizer, pms);
    if Scan(finalizer, pms).Hit? {
      var k :| FirstHit(finalizer, pms, ea, k);
      CarriedHitIsLast(q, mem, hi, pageEa, pageOff, pms, ea, k);
      i := pms[k].ptnIdx;
    } else {
      AttemptsTryAll(q, pageOff, lastOff);
      TrierOrderly(q, mem, pageEa, pageOff, lastOff, att);
      ScanResult(trier, att);
      var k :| FirstHit(trier, att, ea, k);
      NewHitIsLast(q, mem, hi, pageEa, pageOff, lastOff, pms, att, ea, k);
      i := att[k].i;
    }
  }

  /** Without a hit on the page nothing occurs down to its scanned begin. */
  lemma NothingMissed(q: Query, mem: int -> byte, hi: nat, pageEa: nat, pageOff: nat, lastOff: nat, pms: seq<Partial>,
                      att: seq<Attempt>)
    requires PageEntry(q, mem, hi, pageEa + q.pageSize, pms) && pageOff < q.pageSize
    requires TriesAll(q, att, pageOff, lastOff) && lastOff == LastOffOf(q, hi, pageEa)
    requires forall j | 0 <= j < |pms| :: Finalizer(q, mem, pageEa, pageOff)(pms[j]).Carry?
    requires forall j | 0 <= j < |att| :: Trier(q, mem, pageEa, pageOff)(att[j]).Carry?
    ensures NoneInside(q, mem, pageEa + pageOff, hi)
  {
    var lo := pageEa + pageOff;
    forall i: nat, s: int | Occurs(q, mem, i, s, lo, hi)
      ensures false
    {
      if pageEa + q.pageSize < s + q.Len(i) {
        var j := OccurrenceCarried(q, mem, hi, pageEa, pageOff, pms, i, s);
      } else {
        var j := OccurrenceTried(q, mem, hi, pageEa, pageOff, lastOff, att, i, s);
      }
    }
  }

  /** The partial matches after a full page are exactly the right ones. */
  lemma CarryExact(q: Query, mem: int -> byte, hi: nat, pageEa: nat, lastOff: nat, pms: seq<Partial>, att: seq<Attempt>,
                   older: seq<Partial>, newer: seq<Partial>)
    requires PageEntry(q, mem, hi, pageEa + q.pageSize, pms)
    requires TriesAll(q, att, 0, lastOff) && lastOff == LastOffOf(q, hi, pageEa)
    requires ScanMeans(Finalizer(q, mem, pageEa, 0), pms, Carry(older))
    requires ScanMeans(Trier(q, mem, pageEa, 0), att, Carry(newer))
    ensures CarriesExactly(q, mem, hi, pageEa, older + newer)
  {
    hide ScanMeans, TriesAll, Agrees;
    forall n | 0 <= n < |older|
      ensures Carried(q, mem, hi, pageEa, older[n]) && older[n].ptnOff > q.pageSize
    {
      OlderCarried(q, mem, hi, pageEa, pms, older, n);
    }
    forall n | 0 <= n < |newer|
      ensures Carried(q, mem, hi, pageEa, newer[n]) && newer[n].ptnOff <= q.pageSize
    {
      NewerCarried(q, mem, hi, pageEa, lastOff, att, newer, n);
    }
    forall i: nat, s: int | Straddles(q, mem, i, s, hi, pageEa)
      ensures Remembers(q, older + newer, i, s, pageEa)
    {
      if pageEa + q.pageSize < s + q.Len(i) {
        OlderRemembered(q, mem, hi, pageEa, pms, older, i, s);
      } else {
        NewerRemembered(q, mem, hi, pageEa, lastOff, att, newer, i, s);
      }
    }
    ScanShrinks(Finalizer(q, mem, pageEa, 0), pms, older);
    ScanShrinks(Trier(q, mem, pageEa, 0), att, newer);
    CarriedTogether(q, mem, hi, pageEa, older, newer);
  }

  lemma ScanShrinks<A>(judge: A -> PageResult, items: seq<A>, pms: seq<Partial>)
    requires ScanMeans(judge, items, Carry(pms))
    ensures Shrinking(pms)
  {
  }

  lemma CarriedTogether(q: Query, mem: int -> byte, hi: nat, b: nat, older: seq<Partial>, newer: seq<Partial>)
    requires forall n | 0 <= n < |older| :: Carried(q, mem, hi, b, older[n]) && older[n].ptnOff > q.pageSize
    requires forall n | 0 <= n < |newer| :: Carried(q, mem, hi, b, newer[n]) && newer[n].ptnOff <= q.pageSize
    requires forall i: nat, s: int | Straddles(q, mem, i, s, hi, b) ::
               Remembers(q, older + newer, i, s, b)
    requires Shrinking(older) && Shrinking(newer)
    ensures CarriesExactly(q, mem, hi, b, older + newer)
  {
    hide Carried, Straddles, Remembers;
  }

  lemma OlderCarried(q: Query, mem: int -> byte, hi: nat, pageEa: nat, pms: seq<Partial>, older: seq<Partial>, n: nat)
    requires PageEntry(q, mem, hi, pageEa + q.pageSize, pms) && n < |older|
    requires ScanMeans(Finalizer(q, mem, pageEa, 0), pms, Carry(older))
    ensures Carried(q, mem, hi, pageEa, older[n]) && older[n].ptnOff > q.pageSize
  {
    hide Agrees, Wrap, Finalized, Remembers;
    var k := ScanSource(Finalizer(q, mem, pageEa, 0), pms, older, n);
    assert Carried(q, mem, hi, pageEa + q.pageSize, pms[k]);
    FinalizedMeans(q, mem, hi, pageEa, 0, pms[k]);
  }

  lemma NewerCarried(q: Query, mem: int -> byte, hi: nat, pageEa: nat, lastOff: nat, att: seq<Attempt>,
                     newer: seq<Partial>, n: nat)
    requires TriesAll(q, att, 0, lastOff) && lastOff == LastOffOf(q, hi, pageEa) && n < |newer|
    requires ScanMeans(Trier(q, mem, pageEa, 0), att, Carry(newer))
    ensures Carried(q, mem, hi, pageEa, newer[n]) && newer[n].ptnOff <= q.pageSize
  {
    hide Agrees;
    var k := ScanSource(Trier(q, mem, pageEa, 0), att, newer, n);
    assert att[k] in att;
    TriedMeans(q, mem, hi, pageEa, 0, att[k]);
  }

  lemma OlderRemembered(q: Query, mem: int -> byte, hi: nat, pageEa: nat, pms: seq<Partial>, older: seq<Partial>,
                        i: nat, s: int)
    requires PageEntry(q, mem, hi, pageEa + q.pageSize, pms)
    requires ScanMeans(Finalizer(q, mem, pageEa, 0), pms, Carry(older))
    requires Straddles(q, mem, i, s, hi, pageEa) && pageEa + q.pageSize < s + q.Len(i)
    ensures Partial(Wrap(s), i, s + q.Len(i) - pageEa) in older
  {
    hide Agrees, Wrap, Finalized, Remembers;
    var b := pageEa + q.pageSize;
    StraddlesHigher(q, mem, i, s, hi, pageEa, b);
    var k := Recall(q, pms, i, s, b);
    assert Carried(q, mem, hi, b, pms[k]);
    FinalizedMeans(q, mem, hi, pageEa, 0, pms[k]);
    ScanRemembers(Finalizer(q, mem, pageEa, 0), pms, older, Partial(Wrap(s), i, s + q.Len(i) - pageEa), k);
  }

  lemma NewerRemembered(q: Query, mem: int -> byte, hi: nat, pageEa: nat, lastOff: nat, att: seq<Attempt>,
                        newer: seq<Partial>, i: nat, s: int)
    requires TriesAll(q, att, 0, lastOff) && lastOff == LastOffOf(q, hi, pageEa)
    requires ScanMeans(Trier(q, mem, pageEa, 0), att, Carry(newer))
    requires Straddles(q, mem, i, s, hi, pageEa) && s + q.Len(i) <= pageEa + q.pageSize
    ensures Partial(Wrap(s), i, s + q.Len(i) - pageEa) in newer
  {
    hide Agrees;
    assert Attempt(i, s + q.Len(i) - pageEa) in att;
    var k :| 0 <= k < |att| && att[k] == Attempt(i, s + q.Len(i) - pageEa);
    TriedMeans(q, mem, hi, pageEa, 0, att[k]);
    ScanRemembers(Trier(q, mem, pageEa, 0), att, newer, Partial(Wrap(s), i, s + q.Len(i) - pageEa), k);
  }

  /** A page without a hit: nothing occurs down to its scanned begin, and the
      page below is entered with exactly the right partial matches. */
  lemma PageCarry(q: Query, mem: int -> byte, hi: nat, pageEa: nat, pageOff: nat, lastOff: nat, pms: seq<Partial>)
    requires PageEntry(q, mem, hi, pageEa + q.pageSize, pms) && pageOff < q.pageSize
            && lastOff == LastOffOf(q, hi, pageEa)
    ensures var r := PageRun(q, mem, pageEa, pageOff, lastOff, pms);
            r.Carry? ==>
              && NoneInside(q, mem, pageEa + pageOff, hi)
              && (pageOff == 0 ==> PageEntry(q, mem, hi, pageEa, r.pms))
  {
    hide Carried, NoneInside, Occurs, Straddles, TriesAll, Orderly, Scan, ScanMeans, Attempts, Downwards;
    var r := PageRun(q, mem, pageEa, pageOff, lastOff, pms);
    if r.Hit? {
      return;
    }
    var att := Attempts(q, Downwards(pageOff, lastOff));
    FinalizerOrderly(q, mem, pageEa, pageOff, pms);
    ScanResult(Finalizer(q, mem, pageEa, pageOff), pms);
    AttemptsTryAll(q, pageOff, lastOff);
    TrierOrderly(q, mem, pageEa, pageOff, lastOff, att);
    ScanResult(Trier(q, mem, pageEa, pageOff), att);
    var older, newer := Scan(Finalizer(q, mem, pageEa, pageOff), pms).pms,
                        Scan(Trier(q, mem, pageEa, pageOff), att).pms;
    CarryStep(q, mem, hi, pageEa, pageOff, lastOff, pms, att, older, newer);
    assert r.pms == older + newer;
  }

  lemma CarryStep(q: Query, mem: int -> byte, hi: nat, pageEa: nat, pageOff: nat, lastOff: nat, pms: seq<Partial>,
                  att: seq<Attempt>, older: seq<Partial>, newer: seq<Partial>)
    requires PageEntry(q, mem, hi, pageEa + q.pageSize, pms) && pageOff < q.pageSize
    requires TriesAll(q, att, pageOff, lastOff) && lastOff == LastOffOf(q, hi, pageEa)
    requires ScanMeans(Finalizer(q, mem, pageEa, pageOff), pms, Carry(older))
    requires ScanMeans(Trier(q, mem, pageEa, pageOff), att, Carry(newer))
    ensures NoneInside(q, mem, pageEa + pageOff, hi)
    ensures pageOff == 0 ==> PageEntry(q, mem, hi, pageEa, older + newer)
  {
    NothingMissed(q, mem, hi, pageEa, pageOff, lastOff, pms, att);
    if pageOff == 0 {
      CarryExact(q, mem, hi, pageEa, lastOff, pms, att, older, newer);
    }
  }

  // ------------------------------------------------------------ main theorems

  /** What the outcome of a search of [start, hi) must say about the memory. */
  ghost predicate OutcomeMeans(q: Query, mem: int -> byte, start: nat, hi: nat, atBoundary: bool, r: Outcome) {
    match r
    case FoundAt(ea) => exists i: nat :: LastOf(q, mem, i, ea, start, hi)
    case NotFound(pms) => NoneInside(q, mem, start, hi) && (atBoundary ==> PageEntry(q, mem, hi, start, pms))
    case _ => true
  }

  /** From a page boundary on. */
  lemma {:induction false} FindMeans(q: Query, t: Target, start: nat, pageEa: nat, hi: nat, lastOff: nat,
                                     pms: seq<Partial>,
                                     atBoundary: bool)
    requires PageEntry(q, t.bytes, hi, pageEa + q.pageSize, pms)
    requires start <= hi && lastOff == LastOffOf(q, hi, pageEa) && start <= pageEa + q.pageSize
    requires pageEa % q.pageSize == 0
    requires atBoundary ==> start % q.pageSize == 0
    ensures OutcomeMeans(q, t.bytes, start, hi, atBoundary, Find(q, t, pageEa, start, lastOff, pms))
    decreases pageEa
  {
    hide PageRun, CarriesExactly, Occurs, LastOf, NoneInside;
    if start < pageEa + q.pageSize && (q.flags.noBreak || !t.cancelled(pageEa)) && t.readable(pageEa) {
      var pageOff := OffsetOf(start, pageEa);
      var r := PageRun(q, t.bytes, pageEa, pageOff, lastOff, pms);
      if r.Hit? {
        var i := PageHit(q, t.bytes, hi, pageEa, pageOff, lastOff, pms);
        LastOfWidens(q, t.bytes, i, r.ea, pageEa + pageOff, hi, start);
      } else {
        PageCarry(q, t.bytes, hi, pageEa, pageOff, lastOff, pms);
        StepDown(start, pageEa, q.pageSize);
        if start < pageEa {
          FindMeans(q, t, start, pageEa - q.pageSize, hi, q.pageSize, r.pms, atBoundary);
        } else if q.pageSize <= pageEa {
          assert Find(q, t, pageEa - q.pageSize, start, q.pageSize, r.pms) == F.NotFound(r.pms);
        }
      }
    }
  }

  /** The page below, seen from a page boundary. */
  lemma StepDown(start: nat, pageEa: nat, size: nat)
    requires 0 < size && pageEa % size == 0 && start < pageEa + size
    ensures 0 < pageEa ==> size <= pageEa && (pageEa - size) % size == 0
    ensures size <= pageEa && pageEa - size < size ==> pageEa == size
    ensures pageEa <= start && start % size == 0 ==> start == pageEa
  {
    if 0 < pageEa {
      Arith.BoundariesApart(0, pageEa, size);
      var k := pageEa / size;
      assert pageEa - size == size * (k - 1) + 0 by {
        assert size * (k - 1) == size * k - size;
      }
      Arith.DivModUnique(pageEa - size, size, k - 1, 0);
      if 0 < pageEa - size {
        Arith.BoundariesApart(0, pageEa - size, size);
      }
    }
    if pageEa < start && start % size == 0 {
      Arith.BoundariesApart(pageEa, start, size);
    }
  }

  /** A fresh matcher may enter the page of its last address. */
  lemma FreshEntry(q: Query, mem: int -> byte, hi: nat, b: nat)
    requires q.Valid() && hi <= b && hi <= ADDRESS_SPACE
    ensures PageEntry(q, mem, hi, b, [])
  {
  }

  lemma PageBelow(b: nat, size: nat)
    requires 0 < size && 0 < b && b % size == 0
    ensures size <= b && AlignDown(b - 1, size) == b - size && (b - size) % size == 0
  {
    StepDown(b, b, size);
    Arith.ModStep(b - size, size - 1, size);
  }

  /** Main result. On a fresh matcher, for every memory, pattern set and range
      that ends below the last page of the address space, `find` reports a match
      exactly when a non-empty pattern occurs wholly inside [start, end), and
      then the last occurrence of one of the patterns. */
  lemma FreshFind(q: Query, t: Target, start: nat, end: nat)
    requires q.Valid() && start <= end <= ADDRESS_SPACE - q.pageSize
    ensures OutcomeMeans(q, t.bytes, start, end, start % q.pageSize == 0, FindIn(q, t, start, end, []))
    ensures var r := FindIn(q, t, start, end, []);
            !r.Cancelled? && !r.ReadFailed? ==> (r.FoundAt? <==> !NoneInside(q, t.bytes, start, end))
  {
    hide Find, Occurs, CarriesExactly;
    if end == 0 {
      FreshEntry(q, t.bytes, 0, 0);
      NothingInEmpty(q, t.bytes, 0);
    } else {
      var pageEa := AlignDown(end - 1, q.pageSize);
      Arith.AlignedDown(end - 1, q.pageSize);
      FreshEntry(q, t.bytes, end, pageEa + q.pageSize);
      FindMeans(q, t, start, pageEa, end, end - pageEa, [], start % q.pageSize == 0);
    }
  }

  lemma NothingInEmpty(q: Query, mem: int -> byte, a: int)
    ensures NoneInside(q, mem, a, a)
  {
  }

  /** The same for a matcher that has searched [mid, hi) without success and
      goes on below the page boundary `mid`. */
  lemma ContinuedFind(q: Query, t: Target, start: nat, mid: nat, hi: nat, pms: seq<Partial>)
    requires start <= mid <= hi && mid <= ADDRESS_SPACE - q.pageSize
    requires PageEntry(q, t.bytes, hi, mid, pms) && mid % q.pageSize == 0
    ensures OutcomeMeans(q, t.bytes, start, hi, start % q.pageSize == 0, FindIn(q, t, start, mid, pms))
  {
    hide Find, Occurs, CarriesExactly;
    if 0 < mid {
      PageBelow(mid, q.pageSize);
      FindMeans(q, t, start, mid - q.pageSize, hi, q.pageSize, pms, start % q.pageSize == 0);
    }
  }

  /** A search can be cut at any page boundary: the upper part, then the lower
      part, run on the same matcher, do what the whole does, to the same outcome. */
  lemma SplitFind(q: Query, t: Target, a: nat, b: nat, c: nat, pms: seq<Partial>)
    requires q.Valid() && a <= b <= c <= ADDRESS_SPACE - q.pageSize && b % q.pageSize == 0
    ensures FindIn(q, t, a, c, pms) ==
            var first := FindIn(q, t, b, c, pms);
            if first.NotFound? then FindIn(q, t, a, b, first.pms) else first
  {
    hide Find;
    if 0 < c {
      var pageEa := AlignDown(c - 1, q.pageSize);
      Arith.AlignedDown(c - 1, q.pageSize);
      if pageEa < b {
        Arith.BoundariesApart(pageEa, b, q.pageSize);
      }
      SplitPages(q, t, pageEa, a, b, c - pageEa, pms);
    }
  }

  lemma FindStep(q: Query, t: Target, pageEa: nat, start: nat, lastOff: nat, pms: seq<Partial>)
    requires q.Valid() && start <= pageEa
    ensures Find(q, t, pageEa, start, lastOff, pms) ==
            var page := PageStep(q, t, pageEa, lastOff, pms);
            if page.NotFound? && q.pageSize <= pageEa then Find(q, t, pageEa - q.pageSize, start, q.pageSize, page.pms)
            else page
  {
    hide PageRun;
  }

  /** The work on one page of a search that begins at or below the page. */
  ghost function PageStep(q: Query, t: Target, pageEa: nat, lastOff: nat, pms: seq<Partial>): Outcome {
    if !q.flags.noBreak && t.cancelled(pageEa) then F.Cancelled
    else if !t.readable(pageEa) then F.ReadFailed(pageEa)
    else
      match PageRun(q, t.bytes, pageEa, 0, lastOff, pms)
      case Hit(ea) => F.FoundAt(ea)
      case Carry(pms') => F.NotFound(pms')
  }

  lemma {:induction false} SplitPages(q: Query, t: Target, pageEa: nat, a: nat, b: nat, lastOff: nat, pms: seq<Partial>)
    requires q.Valid() && a <= b <= pageEa + q.pageSize <= ADDRESS_SPACE
    requires b % q.pageSize == 0 && pageEa % q.pageSize == 0 && b <= ADDRESS_SPACE - q.pageSize
    requires b == pageEa + q.pageSize ==> lastOff == q.pageSize
    ensures Find(q, t, pageEa, a, lastOff, pms) ==
            var first := Find(q, t, pageEa, b, lastOff, pms);
            if first.NotFound? then FindIn(q, t, a, b, first.pms) else first
    decreases pageEa
  {
    hide PageStep, PageRun;
    if b == pageEa + q.pageSize {
      PageBelow(b, q.pageSize);
      assert Find(q, t, pageEa, b, lastOff, pms) == F.NotFound(pms);
    } else {
      assert b <= pageEa by {
        if pageEa < b {
          Arith.BoundariesApart(pageEa, b, q.pageSize);
        }
      }
      FindStep(q, t, pageEa, a, lastOff, pms);
      FindStep(q, t, pageEa, b, lastOff, pms);
      var page := PageStep(q, t, pageEa, lastOff, pms);
      if page.NotFound? {
        if q.pageSize <= pageEa {
          PageBelow(pageEa, q.pageSize);
          SplitPages(q, t, pageEa - q.pageSize, a, b, q.pageSize, page.pms);
        } else {
          StepDown(0, pageEa, q.pageSize);
        }
      }
    }
  }

  /** Without a disturbance a search ends with a verdict. */
  lemma NoFailure(q: Query, t: Target, start: nat, end: nat, pms: seq<Partial>)
    requires q.Valid() && Undisturbed(q, t, end)
    ensures var r := FindIn(q, t, start, end, pms); r.FoundAt? || r.NotFound?
  {
    hide Find;
    if 0 < end {
      var pageEa := AlignDown(end - 1, q.pageSize);
      NoFailureFrom(q, t, pageEa, start, end, end - pageEa, pms);
    }
  }

  lemma {:induction false} NoFailureFrom(q: Query, t: Target, pageEa: nat, start: nat, end: nat, lastOff: nat,
                                         pms: seq<Partial>)
    requires q.Valid() && pageEa < end && Undisturbed(q, t, end)
    ensures var r := Find(q, t, pageEa, start, lastOff, pms); r.FoundAt? || r.NotFound?
    decreases pageEa
  {
    hide PageRun;
    var r := PageRun(q, t.bytes, pageEa, OffsetOf(start, pageEa), lastOff, pms);
    if r.Carry? && q.pageSize <= pageEa {
      NoFailureFrom(q, t, pageEa - q.pageSize, start, end, q.pageSize, r.pms);
    }
  }

  ghost predicate VerdictIsRight(q: Query, t: Target, start: nat, end: nat) {
    q.Valid() && (FindIn(q, t, start, end, []).FoundAt? <==> !NoneInside(q, t.bytes, start, end))
  }

  /** The searches of a range that holds one of the patterns are right for every
      undisturbed memory exactly when the range ends at or below the last page of
      the address space; a range that reaches into that page is not looked at. */
  lemma RightExactlyBelowTopPage(q: Query, start: nat, end: nat, i: nat)
    requires q.Valid() && start <= end < ADDRESS_SPACE && Searchable(q, i) && q.Len(i) <= end - start
    ensures (forall t | Undisturbed(q, t, end) :: VerdictIsRight(q, t, start, end))
            <==> end <= ADDRESS_SPACE - q.pageSize
  {
    if end <= ADDRESS_SPACE - q.pageSize {
      forall t | Undisturbed(q, t, end)
        ensures VerdictIsRight(q, t, start, end)
      {
        FreshFind(q, t, start, end);
        NoFailure(q, t, start, end, []);
      }
    } else {
      var t := Target(ea => if start <= ea < start + q.Len(i) then q.ptns[i].bytes[ea - start] else 0,
                      _ => true, _ => false);
      assert Undisturbed(q, t, end);
      assert Occurs(q, t.bytes, i, start, start, end) by {
        forall k | 0 <= k < q.Len(i)
          ensures AgreesAt(t.bytes, q.ptns[i], q.flags, start, k)
        {
          assert t.bytes(start + k) == q.ptns[i].bytes[k];
        }
      }
      assert !VerdictIsRight(q, t, start, end);
    }
  }

  /** The page with some more carried matches in front. */
  lemma MoreCarried(q: Query, mem: int -> byte, pageEa: nat, pageOff: nat, lastOff: nat, stale: seq<Partial>,
                    pms: seq<Partial>)
    returns (left: seq<Partial>)
    ensures var more := PageRun(q, mem, pageEa, pageOff, lastOff, stale + pms);
            more.Carry? ==>
              && PageRun(q, mem, pageEa, pageOff, lastOff, pms).Carry?
              && more.pms == left + PageRun(q, mem, pageEa, pageOff, lastOff, pms).pms
  {
    hide Scan, Attempts, Downwards;
    var finalizer := Finalizer(q, mem, pageEa, pageOff);
    ScanAppend(finalizer, stale, pms);
    left := if Scan(finalizer, stale).Carry? then Scan(finalizer, stale).pms else [];
    var newer := Scan(Trier(q, mem, pageEa, pageOff), Attempts(q, Downwards(pageOff, lastOff)));
    if Scan(finalizer, pms).Carry? && newer.Carry? {
      assert left + Scan(finalizer, pms).pms + newer.pms == left + (Scan(finalizer, pms).pms + newer.pms);
    }
  }

  /** Carried matches, right or wrong, never hide anything. */
  lemma {:induction false} CarryingHidesNothing(q: Query, t: Target, pageEa: nat, start: nat, lastOff: nat,
                                                stale: seq<Partial>, pms: seq<Partial>)
    returns (left: seq<Partial>)
    requires q.Valid()
    ensures var more, r := Find(q, t, pageEa, start, lastOff, stale + pms), Find(q, t, pageEa, start, lastOff, pms);
            more.NotFound? ==> r.NotFound? && more.pms == left + r.pms
    decreases pageEa
  {
    hide PageRun;
    left := stale;
    if start < pageEa + q.pageSize {
      var next := MoreCarried(q, t.bytes, pageEa, OffsetOf(start, pageEa), lastOff, stale, pms);
      var r := PageRun(q, t.bytes, pageEa, OffsetOf(start, pageEa), lastOff, pms);
      left := next;
      if r.Carry? && q.pageSize <= pageEa {
        left := CarryingHidesNothing(q, t, pageEa - q.pageSize, start, q.pageSize, next, r.pms);
      }
    }
  }

  lemma CarriedAlong(q: Query, t: Target, start: nat, end: nat, stale: seq<Partial>, pms: seq<Partial>)
    returns (left: seq<Partial>)
    requires q.Valid()
    ensures var more, r := FindIn(q, t, start, end, stale + pms), FindIn(q, t, start, end, pms);
            more.NotFound? ==> r.NotFound? && more.pms == left + r.pms
  {
    hide Find;
    left := stale;
    if 0 < end <= ADDRESS_SPACE - q.pageSize {
      var pageEa := AlignDown(end - 1, q.pageSize);
      left := CarryingHidesNothing(q, t, pageEa, start, end - pageEa, stale, pms);
    }
  }

  /** Whatever a matcher carries from elsewhere, a search without success has
      missed nothing in its range. */
  lemma FailureIsComplete(q: Query, t: Target, start: nat, end: nat, pms: seq<Partial>)
    requires q.Valid() && start <= end <= ADDRESS_SPACE - q.pageSize && FindIn(q, t, start, end, pms).NotFound?
    ensures NoneInside(q, t.bytes, start, end)
  {
    hide FindIn, NoneInside;
    assert pms + [] == pms;
    var left := CarriedAlong(q, t, start, end, pms, []);
    FreshFind(q, t, start, end);
  }
}
