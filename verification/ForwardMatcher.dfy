/** The forward matcher: an object with a page buffer and a list of partial
    matches that it updates in place, page after page. */
module ForwardMatcher {
  import opened BinPattern
  import opened Options
  import opened PageScan
  import opened ForwardSearch
  import Arith
  import opened Words

  /** Index of the first of `n` page bytes from `from` that equals `ch`, or -1. */
  method Memchr(page: array<byte>, from: nat, ch: byte, n: nat) returns (idx: int)
    requires from + n <= page.Length
    ensures idx == -1 || from <= idx < from + n
    ensures idx == -1 ==> forall j | from <= j < from + n :: page[j] != ch
    ensures idx != -1 ==> page[idx] == ch && forall j | from <= j < idx :: page[j] != ch
  {
    for k := from to from + n
      invariant forall j | from <= j < k :: page[j] != ch
    {
      if page[k] == ch {
        return k;
      }
    }
    return -1;
  }

  class ForwardMatcher {
    const q: Query
    const t: Target
    const simplePtns: seq<nat>
    const complexPtns: seq<nat>
    const page: array<byte>
    var pageEa: nat
    var lastOff: nat
    var pmatches: seq<Partial>
    var foundEa: Option<int>
    var failedEa: Option<nat>

    ghost predicate Valid()
      reads this
    {
      && q.Valid()
      && page.Length == q.pageSize
      && simplePtns == Indices(q, true, |q.ptns|)
      && complexPtns == Indices(q, false, |q.ptns|)
      && lastOff <= q.pageSize
      && AllIncomplete(q, pmatches)
    }

    constructor (q: Query, t: Target)
      requires q.Valid()
      ensures Valid() && fresh(page) && this.q == q && this.t == t
      ensures pmatches == [] && foundEa == None && failedEa == None
    {
      var simple, complex := SplitPatterns(q);
      this.q, this.t := q, t;
      simplePtns, complexPtns := simple, complex;
      page := new byte[q.pageSize](_ => 0);
      pageEa, lastOff, pmatches := 0, q.pageSize, [];
      foundEa, failedEa := None, None;
    }

    ghost function Judge(): Attempt -> PageResult
      reads this
    {
      Trier(q, t.bytes, pageEa, lastOff)
    }

    /** The page buffer holds the page at `pageEa`. */
    ghost predicate Loaded()
      reads this, page
    {
      Valid() && PageHolds(page, t.bytes, pageEa)
    }

    /** Tries to finalize a partial match; `pm'` is the updated match. */
    method FinalizePartialMatch(pm: Partial) returns (drc: Drc, pm': Partial)
      requires Loaded() && Incomplete(q, pm) && 0 < lastOff
      modifies this`foundEa
      ensures drc == Finalize(q, t.bytes, pageEa, lastOff, pm)
      ensures drc == DrcOk ==> foundEa == Some(pm.matchEa)
      ensures drc != DrcOk ==> foundEa == old(foundEa)
      ensures drc == DrcNone ==> pm' == pm.(ptnOff := pm.ptnOff + q.pageSize) && Incomplete(q, pm')
    {
      pm' := pm;
      var ptn := q.ptns[pm.ptnIdx];
      var ptnRest := |ptn.bytes| - pm.ptnOff;
      var nbytes := Min(ptnRest, lastOff);
      var same := MatchPattern(page, t.bytes, pageEa, q.flags, ptn, 0, pm.ptnOff, nbytes);
      if !same {
        return DrcFailed, pm';
      }
      if ptnRest <= lastOff {
        foundEa := Some(pm.matchEa);
        return DrcOk, pm';
      }
      if lastOff != q.pageSize {
        return DrcFailed, pm';
      }
      pm' := pm.(ptnOff := pm.ptnOff + q.pageSize);
      return DrcNone, pm';
    }

    /** Goes through the partial matches: finished ones end the search, failed
        ones are erased, the others are updated where they are. */
    method HandlePartialMatches() returns (found: bool)
      requires Loaded() && 0 < lastOff
      modifies this`foundEa, this`pmatches
      ensures Loaded()
      ensures var r := Scan(Finalizer(q, t.bytes, pageEa, lastOff), old(pmatches));
              if found then r.Hit? && foundEa == Some(r.ea)
              else r == Carry(pmatches) && foundEa == old(foundEa)
    {
      hide Agrees, Scan, Finalize, Indices;
      ghost var all, judge := pmatches, Finalizer(q, t.bytes, pageEa, lastOff);
      ghost var done := 0;
      ScanEmpty(judge);
      assert all[..0] == [];
      var p := 0;
      while p < |pmatches|
        invariant Loaded() && foundEa == old(foundEa)
        invariant 0 <= done <= |all| && 0 <= p <= |pmatches|
        invariant pmatches[p..] == all[done..]
        invariant Scan(judge, all[..done]) == Carry(pmatches[..p])
        decreases |all| - done
      {
        var pm := pmatches[p];
        assert pm == pmatches[p..][0] == all[done];
        assert all[..done + 1] == all[..done] + [pm];
        ScanSnoc(judge, all[..done], pm);
        var drc, pm' := FinalizePartialMatch(pm);
        if drc == DrcOk {
          assert all == all[..done + 1] + all[done + 1..];
          ScanAppend(judge, all[..done + 1], all[done + 1..]);
          return true;
        } else if drc == DrcNone {
          assert pmatches[p := pm'][..p + 1] == pmatches[..p] + [pm'];
          assert pmatches[p := pm'][p + 1..] == pmatches[p..][1..];
          pmatches := pmatches[p := pm'];
          p := p + 1;
        } else {
          assert (pmatches[..p] + pmatches[p + 1..])[..p] == pmatches[..p] == pmatches[..p] + [];
          assert (pmatches[..p] + pmatches[p + 1..])[p..] == pmatches[p..][1..];
          pmatches := pmatches[..p] + pmatches[p + 1..];
        }
        assert all[done..][1..] == all[done + 1..];
        done := done + 1;
      }
      assert done == |all| by {
        assert |pmatches[p..]| == 0;
      }
      assert all[..done] == all && pmatches[..p] == pmatches;
      return false;
    }

    /** Tries all complex patterns at one position of the page. */
    method MatchAt(pageOff: nat) returns (found: bool)
      requires Loaded() && pageOff < lastOff
      modifies this`foundEa, this`pmatches
      ensures Loaded()
      ensures var r := Scan(Judge(), Row(complexPtns, pageOff));
              if found then r.Hit? && foundEa == Some(r.ea)
              else r.Carry? && pmatches == old(pmatches) + r.pms && foundEa == old(foundEa)
    {
      hide Agrees, Scan, Indices, PageHolds;
      var rest := lastOff - pageOff;
      ghost var remembered: seq<Partial> := [];
      IndicesSound(q, false, |q.ptns|);
      NothingTried(Judge(), 0, complexPtns, [], pageOff);
      for p := 0 to |complexPtns|
        invariant Loaded() && foundEa == old(foundEa)
        invariant Scan(Judge(), Row(complexPtns[..p], pageOff)) == Carry(remembered)
        invariant pmatches == old(pmatches) + remembered
      {
        var i := complexPtns[p];
        assert i in complexPtns;
        RowTake(Judge(), complexPtns, p, pageOff);
        var ptn := q.ptns[i];
        var nbytes := Min(rest, |ptn.bytes|);
        var same := MatchPattern(page, t.bytes, pageEa, q.flags, ptn, pageOff, 0, nbytes);
        if !same {
          assert remembered + [] == remembered;
          continue;
        }
        if |ptn.bytes| <= rest {
          foundEa := Some(pageEa + pageOff);
          RestOfRow(Judge(), complexPtns, p + 1, pageOff);
          return true;
        }
        var pm := Partial(pageEa + pageOff, i, nbytes);
        pmatches := pmatches + [pm];
        remembered := remembered + [pm];
      }
      assert complexPtns[..|complexPtns|] == complexPtns;
      return false;
    }

    /** Tries the simple patterns, one after the other, in the rest of the page. */
    method MatchSimplePatterns(pageOff: nat) returns (found: bool)
      requires Loaded() && pageOff <= lastOff
      modifies this`foundEa, this`pmatches
      ensures Loaded()
      ensures var r := Scan(Judge(), PatternMajor(simplePtns, Upwards(pageOff, lastOff)));
              if found then r.Hit? && foundEa == Some(r.ea)
              else r.Carry? && pmatches == old(pmatches) + r.pms && foundEa == old(foundEa)
    {
      hide Agrees, Scan, Indices, PageHolds, Upwards;
      ghost var ps := Upwards(pageOff, lastOff);
      ghost var remembered: seq<Partial> := [];
      IndicesSound(q, true, |q.ptns|);
      NothingTried(Judge(), 0, simplePtns, ps, 0);
      for p := 0 to |simplePtns|
        invariant Loaded() && foundEa == old(foundEa)
        invariant Scan(Judge(), PatternMajor(simplePtns[..p], ps)) == Carry(remembered)
        invariant pmatches == old(pmatches) + remembered
      {
        var i := simplePtns[p];
        assert i in simplePtns;
        ghost var before := pmatches;
        PatternTake(Judge(), simplePtns, p, ps);
        found := MatchSimplePattern(i, pageOff);
        if found {
          RestOfPatterns(Judge(), simplePtns, p + 1, ps);
          return;
        }
        ghost var r := Scan(Judge(), Column(i, ps));
        assert old(pmatches) + remembered + r.pms == old(pmatches) + (remembered + r.pms);
        remembered := remembered + r.pms;
      }
      assert simplePtns[..|simplePtns|] == simplePtns;
      return false;
    }

    /** One simple pattern: jumps from one possible first byte to the next. */
    method MatchSimplePattern(i: nat, pageOff: nat) returns (found: bool)
      requires Loaded() && pageOff <= lastOff && Searchable(q, i) && q.IsSimple(i)
      modifies this`foundEa, this`pmatches
      ensures Loaded()
      ensures var r := Scan(Judge(), Column(i, Upwards(pageOff, lastOff)));
              if found then r.Hit? && foundEa == Some(r.ea)
              else r.Carry? && pmatches == old(pmatches) + r.pms && foundEa == old(foundEa)
    {
      hide Agrees, Scan, Indices, PageHolds, Upwards, Tried, Column;
      ghost var judge, ps := Judge(), Upwards(pageOff, lastOff);
      ghost var remembered: seq<Partial> := [];
      NothingTried(judge, i, [], ps, 0);
      var rest := lastOff - pageOff;
      var ptnSz := q.Len(i);
      var pold := pageOff;
      while rest > 0
        invariant Loaded() && foundEa == old(foundEa) && judge == Judge()
        invariant pageOff <= pold <= lastOff && rest == lastOff - pold
        invariant Scan(judge, Column(i, ps[..pold - pageOff])) == Carry(remembered)
        invariant pmatches == old(pmatches) + remembered
      {
        var pnew := Memchr(page, pold, q.ptns[i].bytes[0], rest);
        if pnew == -1 {
          MissesUpTo(i, pageOff, pold, lastOff);
          assert ps[..lastOff - pageOff] == ps;
          return false;
        }
        MissesUpTo(i, pageOff, pold, pnew);
        ColumnTake(judge, i, ps, pnew - pageOff);
        rest := rest - (pnew - pold);
        var nbytes := Min(rest, ptnSz);
        var same := CompareBytes(page, t.bytes, pageEa, q, i, pnew, 0, nbytes);
        TriedCases(i, pnew);
        if same {
          var matchedEa := pageEa + pnew;
          if ptnSz <= rest {
            foundEa := Some(matchedEa);
            RestOfColumn(judge, i, ps, pnew + 1 - pageOff);
            return true;
          }
          var pm := Partial(matchedEa, i, nbytes);
          pmatches := pmatches + [pm];
          remembered := remembered + [pm];
        } else {
          assert remembered + [] == remembered;
        }
        pold := pnew + 1;
        rest := rest - 1;
      }
      assert ps[..lastOff - pageOff] == ps;
      return false;
    }

    /** The cases of one attempt, in terms of the bytes compared. */
    lemma TriedCases(i: nat, pos: nat)
      requires Valid() && Searchable(q, i) && pos < lastOff
      ensures var nbytes := Min(lastOff - pos, q.Len(i));
              Judge()(Attempt(i, pos)) ==
              if !Agrees(t.bytes, q.ptns[i], q.flags, pageEa + pos, 0, nbytes) then Carry([])
              else if q.Len(i) <= lastOff - pos then Hit(pageEa + pos)
              else Carry([Partial(pageEa + pos, i, nbytes)])
    {
      hide Agrees;
    }

    /** Positions at which the first byte differs can be skipped. */
    lemma MissesUpTo(i: nat, pageOff: nat, pos: nat, next: nat)
      requires Loaded() && Searchable(q, i) && q.IsSimple(i) && pageOff <= pos <= next <= lastOff
      requires forall j | pos <= j < next :: page[j] != q.ptns[i].bytes[0]
      ensures var ps := Upwards(pageOff, lastOff);
              Scan(Judge(), Column(i, ps[..next - pageOff])) == Scan(Judge(), Column(i, ps[..pos - pageOff]))
    {
      hide Scan, Column, Indices;
      var ps := Upwards(pageOff, lastOff);
      forall j | pos - pageOff <= j < next - pageOff
        ensures Judge()(Attempt(i, ps[j])) == Carry([])
      {
        var p := pageOff + j;
        assert page[p] == t.bytes(pageEa + p) && page[p] != q.ptns[i].bytes[0];
        SimpleMeansEqual(q, i, 0, t.bytes(pageEa + p + 0));
        assert !AgreesAt(t.bytes, q.ptns[i], q.flags, pageEa + p, 0);
      }
      SkipColumn(Judge(), i, ps, pos - pageOff, next - pageOff);
    }

    /** The work on a loaded page, in the source inside the loop of `find`. */
    method SearchPage(pageOff: nat) returns (found: bool)
      requires Loaded() && pageOff <= lastOff && 0 < lastOff
      modifies this`foundEa, this`pmatches
      ensures Loaded()
      ensures var r := PageRun(q, t.bytes, pageEa, pageOff, lastOff, old(pmatches));
              if found then r.Hit? && foundEa == Some(r.ea)
              else r == Carry(pmatches) && foundEa == old(foundEa)
    {
      hide Agrees, Scan, Indices, PageHolds, Upwards, Trier, Finalizer, PatternMajor, PositionMajor;
      ghost var ps := Upwards(pageOff, lastOff);
      ghost var carried := Scan(Finalizer(q, t.bytes, pageEa, lastOff), pmatches);
      ghost var simple := Scan(Judge(), PatternMajor(simplePtns, ps));
      ghost var complex := Scan(Judge(), PositionMajor(complexPtns, ps));
      assert PageRun(q, t.bytes, pageEa, pageOff, lastOff, pmatches) == Then(carried, Then(simple, complex)) by {
        ScanAppend(Judge(), PatternMajor(simplePtns, ps), PositionMajor(complexPtns, ps));
      }
      found := HandlePartialMatches();
      if found {
        return;
      }
      found := MatchSimplePatterns(pageOff);
      if found {
        return;
      }
      assert carried.pms + simple.pms == pmatches;
      if complexPtns != [] {
        found := MatchComplexPatterns(pageOff);
        if found {
          return;
        }
        assert carried.pms + simple.pms + complex.pms == carried.pms + (simple.pms + complex.pms);
      } else {
        PositionMajorEmpty(ps);
        ScanEmpty(Judge());
        assert simple.pms + [] == simple.pms;
      }
    }

    method MatchComplexPatterns(off: nat) returns (found: bool)
      requires Loaded() && off <= lastOff
      modifies this`foundEa, this`pmatches
      ensures Loaded()
      ensures var r := Scan(Judge(), PositionMajor(complexPtns, Upwards(off, lastOff)));
              if found then r.Hit? && foundEa == Some(r.ea)
              else r.Carry? && pmatches == old(pmatches) + r.pms && foundEa == old(foundEa)
    {
      hide Agrees, Scan, Indices, PageHolds, Trier, Row, PositionMajor;
      ghost var judge, ps := Judge(), Upwards(off, lastOff);
      ghost var remembered: seq<Partial> := [];
      NothingTried(judge, 0, complexPtns, ps, 0);
      var pageOff := off;
      while pageOff < lastOff
        invariant Loaded() && foundEa == old(foundEa) && judge == Judge()
        invariant off <= pageOff <= lastOff
        invariant Scan(judge, PositionMajor(complexPtns, ps[..pageOff - off])) == Carry(remembered)
        invariant pmatches == old(pmatches) + remembered
      {
        PositionTake(judge, complexPtns, ps, pageOff - off);
        found := MatchAt(pageOff);
        if found {
          RestOfPositions(judge, complexPtns, ps, pageOff + 1 - off);
          return;
        }
        ghost var r := Scan(judge, Row(complexPtns, pageOff));
        assert old(pmatches) + remembered + r.pms == old(pmatches) + (remembered + r.pms);
        remembered := remembered + r.pms;
        pageOff := pageOff + 1;
      }
      assert ps[..lastOff - off] == ps;
      return false;
    }

    /** Reads the page at `pageEa` into the buffer; an unreadable page is reported. */
    method ReadPage() returns (ok: bool)
      requires Valid()
      modifies page
      ensures ok == t.readable(pageEa)
      ensures ok ==> Loaded()
    {
      if !t.readable(pageEa) {
        return false;
      }
      forall j | 0 <= j < page.Length {
        page[j] := t.bytes(pageEa + j);
      }
      return true;
    }

    /** Searches [start, end). The page loop must end before it has gone through
        the last page of the address space; see `ForwardRightExactly`. */
    method Find(start: nat, end: nat) returns (drc: Drc)
      requires Valid() && start <= end < ADDRESS_SPACE && ADDRESS_SPACE % q.pageSize == 0
      requires end <= ADDRESS_SPACE - q.pageSize || !FindIn(q, t, start, end, pmatches).NotFound?
      modifies this, page
      ensures Valid()
      ensures match FindIn(q, t, start, end, old(pmatches))
              case FoundAt(ea) => drc == DrcOk && foundEa == Some(ea) && failedEa == old(failedEa)
              case NotFound(pms) => drc == DrcFailed && pmatches == pms && foundEa == old(foundEa)
                  && failedEa == old(failedEa)
              case Cancelled => drc == DrcError && foundEa == old(foundEa) && failedEa == old(failedEa)
              case ReadFailed(ea) => drc == DrcError && foundEa == old(foundEa) && failedEa == Some(ea)
    {
      hide Agrees, Indices, PageHolds, PageRun, Wrap, ForwardSearch.Find;
      Arith.AlignedDown(start, q.pageSize);
      ghost var outcome := FindIn(q, t, start, end, pmatches);
      pageEa := AlignDown(start, q.pageSize);
      var pageOff: nat := start - pageEa;
      while pageEa < end
        invariant Valid() && foundEa == old(foundEa) && failedEa == old(failedEa)
        invariant pageEa < ADDRESS_SPACE && pageEa % q.pageSize == 0
        invariant pageEa < end ==> pageOff < q.pageSize && pageEa + pageOff <= end
        invariant outcome == ForwardSearch.Find(q, t, pageEa, pageOff, end, pmatches)
        decreases end - pageEa
      {
        FindUnfolds(q, t, pageEa, pageOff, end, pmatches);
        if !q.flags.noBreak && t.cancelled(pageEa) {
          return DrcError;
        }
        var ok := ReadPage();
        if !ok {
          failedEa := Some(pageEa);
          return DrcError;
        }
        lastOff := end - pageEa;
        if lastOff > q.pageSize {
          lastOff := q.pageSize;
        }
        var found := SearchPage(pageOff);
        if found {
          return DrcOk;
        }
        PageAfter(pageEa, q.pageSize);
        FindUnfolds(q, t, pageEa + q.pageSize, 0, end, pmatches);
        pageEa := Wrap(pageEa + q.pageSize);
        pageOff := 0;
      }
      FindUnfolds(q, t, pageEa, pageOff, end, pmatches);
      return DrcFailed;
    }
  }

  /** A forward search on a matcher of its own. */
  method BinarySearch(q: Query, t: Target, start: nat, end: nat) returns (drc: Drc, foundEa: Option<int>)
    requires q.Valid() && start <= end < ADDRESS_SPACE && ADDRESS_SPACE % q.pageSize == 0
    requires end <= ADDRESS_SPACE - q.pageSize || !NoneInside(q, t.bytes, start, end)
    ensures drc != DrcError ==> (drc == DrcOk <==> !NoneInside(q, t.bytes, start, end))
    ensures drc == DrcOk ==> foundEa.Some? && exists i: nat :: FirstOf(q, t.bytes, i, foundEa.value, start, end)
    ensures drc != DrcOk ==> foundEa == None
    ensures Undisturbed(q, t, end) ==> drc != DrcError
  {
    hide Find, NoneInside, FirstOf, Undisturbed;
    FreshFind(q, t, start, end);
    var matcher := new ForwardMatcher(q, t);
    drc := matcher.Find(start, end);
    foundEa := matcher.foundEa;
    if Undisturbed(q, t, end) {
      var pageEa := AlignDown(start, q.pageSize);
      NoFailure(q, t, pageEa, start - pageEa, end, []);
    }
  }

  /** The page loop advances with 64-bit arithmetic: after the last page of the
      address space it is at address 0. */
  lemma PageAfter(pageEa: Ea, pageSize: nat)
    requires 0 < pageSize && ADDRESS_SPACE % pageSize == 0 && pageEa % pageSize == 0
    ensures pageEa <= ADDRESS_SPACE - pageSize
    ensures Wrap(pageEa + pageSize) == if pageEa == ADDRESS_SPACE - pageSize then 0 else pageEa + pageSize
    ensures Wrap(pageEa + pageSize) % pageSize == 0
  {
    Arith.BoundariesApart(pageEa, ADDRESS_SPACE, pageSize);
    Arith.ModStep(pageEa, pageSize, pageSize);
    WrapNear(pageEa + pageSize);
  }

  /** The page loop of the source, followed through at most `n` pages. */
  ghost function PageLoop(q: Query, t: Target, pageEa: Ea, off: nat, end: Ea, pms: seq<Partial>,
                          n: nat): Option<Outcome>
    requires q.Valid()
    decreases n
  {
    if pageEa >= end then Some(NotFound(pms))
    else if n == 0 then None
    else if !q.flags.noBreak && t.cancelled(pageEa) then Some(Cancelled)
    else if !t.readable(pageEa) then Some(ReadFailed(pageEa))
    else
      match PageRun(q, t.bytes, pageEa, off, Min(end - pageEa, q.pageSize), pms)
      case Hit(ea) => Some(FoundAt(ea))
      case Carry(pms') => PageLoop(q, t, Wrap(pageEa + q.pageSize), 0, end, pms', n - 1)
  }

  /** The search function is what the page loop ends with, unless it is without
      success and reaches into the last page of the address space. */
  lemma {:induction false} LoopEnds(q: Query, t: Target, pageEa: Ea, off: nat, end: Ea, pms: seq<Partial>)
    returns (n: nat)
    requires q.Valid() && ADDRESS_SPACE % q.pageSize == 0 && pageEa % q.pageSize == 0
    requires end <= ADDRESS_SPACE - q.pageSize || !ForwardSearch.Find(q, t, pageEa, off, end, pms).NotFound?
    ensures PageLoop(q, t, pageEa, off, end, pms, n) == Some(ForwardSearch.Find(q, t, pageEa, off, end, pms))
    decreases end - pageEa
  {
    hide PageRun, Wrap;
    n := 0;
    if pageEa < end {
      PageAfter(pageEa, q.pageSize);
      var r := PageRun(q, t.bytes, pageEa, off, Min(end - pageEa, q.pageSize), pms);
      if r.Carry? && (q.flags.noBreak || !t.cancelled(pageEa)) && t.readable(pageEa) {
        n := LoopEnds(q, t, Wrap(pageEa + q.pageSize), 0, end, r.pms);
      }
      n := n + 1;
    }
  }

  /** A range that reaches into that page is never given up. */
  lemma {:induction false} LoopNeverFails(q: Query, t: Target, pageEa: Ea, off: nat, end: Ea, pms: seq<Partial>, n: nat)
    requires q.Valid() && ADDRESS_SPACE % q.pageSize == 0 && pageEa % q.pageSize == 0
    requires end > ADDRESS_SPACE - q.pageSize
    ensures var r := PageLoop(q, t, pageEa, off, end, pms, n); r == None || !r.value.NotFound?
    decreases n
  {
    hide PageRun, Wrap;
    PageAfter(pageEa, q.pageSize);
    if 0 < n {
      var r := PageRun(q, t.bytes, pageEa, off, Min(end - pageEa, q.pageSize), pms);
      if r.Carry? {
        LoopNeverFails(q, t, Wrap(pageEa + q.pageSize), 0, end, r.pms, n - 1);
      }
    }
  }

  ghost predicate RightVerdict(q: Query, t: Target, start: Ea, end: Ea, r: Outcome) {
    if NoneInside(q, t.bytes, start, end) then r.NotFound?
    else r.FoundAt? && exists i: nat :: FirstOf(q, t.bytes, i, r.ea, start, end)
  }

  /** The search on a fresh matcher, followed through at most `n` pages. */
  ghost function FindLoop(q: Query, t: Target, start: Ea, end: Ea, n: nat): Option<Outcome>
    requires q.Valid()
  {
    var pageEa := AlignDown(start, q.pageSize);
    PageLoop(q, t, pageEa, start - pageEa, end, [], n)
  }

  /** The search ends, with a match exactly when a pattern occurs wholly inside
      the range, and then with the first occurrence of one of the patterns. */
  ghost predicate EndsRight(q: Query, t: Target, start: Ea, end: Ea)
    requires q.Valid()
  {
    exists n: nat ::
        FindLoop(q, t, start, end, n).Some? && RightVerdict(q, t, start, end, FindLoop(q, t, start, end, n).value)
  }

  /** Main result. With 64-bit addresses the forward search of an undisturbed
      memory ends with the right verdict exactly when the range ends at or below
      the last page of the address space, or a pattern occurs in it. Otherwise it
      starts again at address 0 and either never ends or reports a place that is
      no occurrence in the range. */
  lemma ForwardRightExactly(q: Query, t: Target, start: Ea, end: Ea)
    requires q.Valid() && ADDRESS_SPACE % q.pageSize == 0 && start <= end && Undisturbed(q, t, end)
    ensures EndsRight(q, t, start, end)
            <==> end <= ADDRESS_SPACE - q.pageSize || !NoneInside(q, t.bytes, start, end)
  {
    hide PageLoop, Find, NoneInside, FirstOf, Undisturbed;
    var pageEa := AlignDown(start, q.pageSize);
    var off := start - pageEa;
    Arith.AlignedDown(start, q.pageSize);
    if end <= ADDRESS_SPACE - q.pageSize || !NoneInside(q, t.bytes, start, end) {
      FreshFind(q, t, start, end);
      NoFailure(q, t, pageEa, off, end, []);
      var n := LoopEnds(q, t, pageEa, off, end, []);
      assert FindLoop(q, t, start, end, n).Some?;
    } else {
      forall n: nat
        ensures var r := FindLoop(q, t, start, end, n); r == None || !RightVerdict(q, t, start, end, r.value)
      {
        LoopNeverFails(q, t, pageEa, off, end, [], n);
      }
    }
  }
}
