/** The backward matcher: the mirror image of the forward one. */
module BackwardMatcher {
  import opened BinPattern
  import opened Options
  import opened PageScan
  import opened BackwardSearch
  import F = ForwardSearch
  import Arith
  import opened Words

  /** Index of the last of `n` page bytes from `from` that equals `ch`, or -1. */
  method LocalMemrchr(page: array<byte>, from: nat, ch: byte, n: nat) returns (idx: int)
    requires from + n <= page.Length
    ensures idx == -1 || from <= idx < from + n
    ensures idx == -1 ==> forall j | from <= j < from + n :: page[j] != ch
    ensures idx != -1 ==> page[idx] == ch && forall j | idx < j < from + n :: page[j] != ch
  {
    var end := from + n - 1;
    while end >= from
      invariant from - 1 <= end < from + n
      invariant forall j | end < j < from + n :: page[j] != ch
    {
      if page[end] == ch {
        return end;
      }
      end := end - 1;
    }
    return -1;
  }

  /** A page boundary. */
  ghost predicate Aligned(ea: int, pageSize: nat)
    requires 0 < pageSize
  {
    ea % pageSize == 0
  }

  class BackwardMatcher {
    const q: Query
    const t: Target
    const simplePtns: seq<nat>
    const complexPtns: seq<nat>
    const page: array<byte>
    var pageEa: nat
    var pageOff: nat
    var pmatches: seq<Partial>
    var foundEa: Option<int>
    var failedEa: Option<nat>

    ghost predicate Valid()
      reads this
    {
      && q.Valid()
      && page.Length == q.pageSize
      && simplePtns == Indices(q, true, |q.ptns|)
      && complexPtns == Indices(q, false, |q.ptns|)
      && pageOff < q.pageSize
      && F.AllIncomplete(q, pmatches)
    }

    constructor (q: Query, t: Target)
      requires q.Valid()
      ensures Valid() && fresh(page) && this.q == q && this.t == t
      ensures pmatches == [] && foundEa == None && failedEa == None
    {
      var simple, complex := SplitPatterns(q);
      this.q, this.t := q, t;
      simplePtns, complexPtns := simple, complex;
      page := new byte[q.pageSize](_ => 0);
      pageEa, pageOff, pmatches := 0, 0, [];
      foundEa, failedEa := None, None;
    }

    ghost function Judge(): Attempt -> PageResult
      reads this
    {
      Trier(q, t.bytes, pageEa, pageOff)
    }

    /** The page buffer holds the page at `pageEa`. */
    ghost predicate Loaded()
      reads this, page
    {
      Valid() && PageHolds(page, t.bytes, pageEa)
    }

    /** Tries to finalize a partial match; `pm'` is the updated match. */
    method FinalizePartialMatch(pm: Partial) returns (drc: Drc, pm': Partial)
      requires Loaded() && F.Incomplete(q, pm)
      modifies this`foundEa
      ensures drc == Finalize(q, t.bytes, pageEa, pageOff, pm)
      ensures drc == DrcOk ==> foundEa == Some(pm.matchEa)
      ensures drc != DrcOk ==> foundEa == old(foundEa)
      ensures drc == DrcNone ==> pm' == pm.(ptnOff := pm.ptnOff + q.pageSize) && F.Incomplete(q, pm')
    {
      pm' := pm;
      var ptn := q.ptns[pm.ptnIdx];
      var ptnRest := |ptn.bytes| - pm.ptnOff;
      var nbytes := Min(ptnRest, q.pageSize - pageOff);
      var same := MatchPattern(page, t.bytes, pageEa, q.flags, ptn, q.pageSize - nbytes, ptnRest - nbytes, nbytes);
      if !same {
        return DrcFailed, pm';
      }
      if ptnRest <= q.pageSize - pageOff {
        foundEa := Some(pm.matchEa);
        return DrcOk, pm';
      }
      if pageOff != 0 {
        return DrcFailed, pm';
      }
      pm' := pm.(ptnOff := pm.ptnOff + q.pageSize);
      return DrcNone, pm';
    }

    /** Goes through the partial matches: finished ones end the search, failed
        ones are erased, the others are updated where they are. */
    method HandlePartialMatches() returns (found: bool)
      requires Loaded()
      modifies this`foundEa, this`pmatches
      ensures Loaded()
      ensures var r := Scan(Finalizer(q, t.bytes, pageEa, pageOff), old(pmatches));
              if found then r.Hit? && foundEa == Some(r.ea)
              else r == Carry(pmatches) && foundEa == old(foundEa)
    {
      hide Agrees, Scan, Finalize, Indices;
      ghost var all, judge := pmatches, Finalizer(q, t.bytes, pageEa, pageOff);
      ghost var done := 0;
      ScanEmpty(judge);
      assert all[..0] == [];
      var p := 0;
      while p < |pmatches|
        invariant Loaded() && foundEa == old(foundEa)
        invariant 0 <= done <= |all| && 0 <= p <= |pmatches|
        invariant pmatches[p..] == all[done..]
        invariant Scan(judge, all[..done]) == Carry(pmatches[..p])
        decreases |all| - done
      {
        var pm := pmatches[p];
        assert pm == pmatches[p..][0] == all[done];
        assert all[..done + 1] == all[..done] + [pm];
        ScanSnoc(judge, all[..done], pm);
        var drc, pm' := FinalizePartialMatch(pm);
        if drc == DrcOk {
          assert all == all[..done + 1] + all[done + 1..];
          HitStays(judge, all[..done + 1], all[done + 1..]);
          return true;
        } else if drc == DrcNone {
          assert pmatches[p := pm'][..p + 1] == pmatches[..p] + [pm'];
          assert pmatches[p := pm'][p + 1..] == pmatches[p..][1..];
          pmatches := pmatches[p := pm'];
          p := p + 1;
        } else {
          assert (pmatches[..p] + pmatches[p + 1..])[..p] == pmatches[..p] == pmatches[..p] + [];
          assert (pmatches[..p] + pmatches[p + 1..])[p..] == pmatches[p..][1..];
          pmatches := pmatches[..p] + pmatches[p + 1..];
        }
        assert all[done..][1..] == all[done + 1..];
        done := done + 1;
      }
      assert done == |all| by {
        assert |pmatches[p..]| == 0;
      }
      assert all[..done] == all && pmatches[..p] == pmatches;
      return false;
    }

    /** Tries all complex patterns that end at one position of the page. */
    method MatchBefore(lastOff: nat) returns (found: bool)
      requires Loaded() && pageOff < lastOff <= q.pageSize
      modifies this`foundEa, this`pmatches
      ensures Loaded()
      ensures var r := Scan(Judge(), Row(complexPtns, lastOff));
              if found then r.Hit? && foundEa == Some(r.ea)
              else r.Carry? && pmatches == old(pmatches) + r.pms && foundEa == old(foundEa)
    {
      hide Agrees, Scan, Indices, PageHolds, Wrap;
      var rest := lastOff - pageOff;
      ghost var remembered: seq<Partial> := [];
      IndicesSound(q, false, |q.ptns|);
      NothingTried(Judge(), 0, complexPtns, [], lastOff);
      for p := 0 to |complexPtns|
        invariant Loaded() && foundEa == old(foundEa)
        invariant Scan(Judge(), Row(complexPtns[..p], lastOff)) == Carry(remembered)
        invariant pmatches == old(pmatches) + remembered
      {
        var i := complexPtns[p];
        assert i in complexPtns;
        RowTake(Judge(), complexPtns, p, lastOff);
        var ptn := q.ptns[i];
        var nbytes := Min(rest, |ptn.bytes|);
        var same := MatchPattern(page, t.bytes, pageEa, q.flags, ptn, lastOff - nbytes, |ptn.bytes| - nbytes, nbytes);
        if !same {
          assert remembered + [] == remembered;
          continue;
        }
        if |ptn.bytes| <= rest {
          foundEa := Some(pageEa + lastOff - nbytes);
          RestOfRow(Judge(), complexPtns, p + 1, lastOff);
          return true;
        }
        var pm := Partial(Wrap(pageEa + lastOff - |ptn.bytes|), i, nbytes);
        pmatches := pmatches + [pm];
        remembered := remembered + [pm];
      }
      assert complexPtns[..|complexPtns|] == complexPtns;
      return false;
    }

    /** Tries the simple patterns, one after the other, in the rest of the page. */
    method MatchSimplePatterns(lastOff: nat) returns (found: bool)
      requires Loaded() && pageOff <= lastOff <= q.pageSize
      modifies this`foundEa, this`pmatches
      ensures Loaded()
      ensures var r := Scan(Judge(), PatternMajor(simplePtns, Downwards(pageOff, lastOff)));
              if found then r.Hit? && foundEa == Some(r.ea)
              else r.Carry? && pmatches == old(pmatches) + r.pms && foundEa == old(foundEa)
    {
      hide Agrees, Scan, Indices, PageHolds, Downwards;
      ghost var ps := Downwards(pageOff, lastOff);
      ghost var remembered: seq<Partial> := [];
      IndicesSound(q, true, |q.ptns|);
      NothingTried(Judge(), 0, simplePtns, ps, 0);
      for p := 0 to |simplePtns|
        invariant Loaded() && foundEa == old(foundEa)
        invariant Scan(Judge(), PatternMajor(simplePtns[..p], ps)) == Carry(remembered)
        invariant pmatches == old(pmatches) + remembered
      {
        var i := simplePtns[p];
        assert i in simplePtns;
        PatternTake(Judge(), simplePtns, p, ps);
        found := MatchSimplePattern(i, lastOff);
        if found {
          RestOfPatterns(Judge(), simplePtns, p + 1, ps);
          return;
        }
        ghost var r := Scan(Judge(), Column(i, ps));
        assert old(pmatches) + remembered + r.pms == old(pmatches) + (remembered + r.pms);
        remembered := remembered + r.pms;
      }
      assert simplePtns[..|simplePtns|] == simplePtns;
      return false;
    }

    /** One simple pattern: jumps from one possible last byte to the one before. */
    method MatchSimplePattern(i: nat, lastOff: nat) returns (found: bool)
      requires Loaded() && pageOff <= lastOff <= q.pageSize && Searchable(q, i) && q.IsSimple(i)
      modifies this`foundEa, this`pmatches
      ensures Loaded()
      ensures var r := Scan(Judge(), Column(i, Downwards(pageOff, lastOff)));
              if found then r.Hit? && foundEa == Some(r.ea)
              else r.Carry? && pmatches == old(pmatches) + r.pms && foundEa == old(foundEa)
    {
      hide Agrees, Scan, Indices, PageHolds, Downwards, Tried, Column, Wrap;
      ghost var judge, ps := Judge(), Downwards(pageOff, lastOff);
      ghost var remembered: seq<Partial> := [];
      NothingTried(judge, i, [], ps, 0);
      var rest := lastOff - pageOff;
      var ptnSz := q.Len(i);
      while rest > 0
        invariant Loaded() && foundEa == old(foundEa) && judge == Judge()
        invariant 0 <= rest <= lastOff - pageOff
        invariant Scan(judge, Column(i, ps[..lastOff - (pageOff + rest)])) == Carry(remembered)
        invariant pmatches == old(pmatches) + remembered
      {
        var p := LocalMemrchr(page, pageOff, q.ptns[i].bytes[ptnSz - 1], rest);
        if p == -1 {
          MissesDownTo(i, lastOff, pageOff + rest, pageOff);
          assert ps[..lastOff - pageOff] == ps;
          return false;
        }
        MissesDownTo(i, lastOff, pageOff + rest, p + 1);
        ColumnTake(judge, i, ps, lastOff - (p + 1));
        rest := p + 1 - pageOff;
        var nbytes := Min(rest, ptnSz);
        var same := CompareBytes(page, t.bytes, pageEa, q, i, p + 1 - nbytes, ptnSz - nbytes, nbytes);
        TriedCases(i, p + 1);
        if same {
          var matchedEa := pageEa + (p + 1) - ptnSz;
          if ptnSz <= rest {
            foundEa := Some(matchedEa);
            RestOfColumn(judge, i, ps, lastOff - p);
            return true;
          }
          var pm := Partial(Wrap(matchedEa), i, nbytes);
          pmatches := pmatches + [pm];
          remembered := remembered + [pm];
        } else {
          assert remembered + [] == remembered;
        }
        rest := rest - 1;
      }
      assert ps[..lastOff - pageOff] == ps;
      return false;
    }

    /** The cases of one attempt, in terms of the bytes compared. */
    lemma TriedCases(i: nat, pos: nat)
      requires Valid() && Searchable(q, i) && pageOff < pos
      ensures var len, nbytes := q.Len(i), Min(pos - pageOff, q.Len(i));
              Judge()(Attempt(i, pos)) ==
              if !Agrees(t.bytes, q.ptns[i], q.flags, pageEa + pos - len, len - nbytes, len) then Carry([])
              else if len <= pos - pageOff then Hit(pageEa + pos - nbytes)
              else Carry([Partial(Wrap(pageEa + pos - len), i, nbytes)])
    {
      hide Agrees, Wrap;
    }

    /** End positions at which the last byte differs can be skipped. */
    lemma MissesDownTo(i: nat, lastOff: nat, pos: nat, next: nat)
      requires Loaded() && Searchable(q, i) && q.IsSimple(i) && pageOff <= next <= pos <= lastOff <= q.pageSize
      requires forall j | next <= j < pos :: page[j] != q.ptns[i].bytes[q.Len(i) - 1]
      ensures var ps := Downwards(pageOff, lastOff);
              Scan(Judge(), Column(i, ps[..lastOff - next])) == Scan(Judge(), Column(i, ps[..lastOff - pos]))
    {
      hide Scan, Column, Indices, Wrap;
      var ps, last := Downwards(pageOff, lastOff), q.Len(i) - 1;
      forall j | lastOff - pos <= j < lastOff - next
        ensures Judge()(Attempt(i, ps[j])) == Carry([])
      {
        var p := lastOff - j;
        var s := pageEa + p - q.Len(i);
        assert page[p - 1] == t.bytes(s + last) && page[p - 1] != q.ptns[i].bytes[last];
        SimpleMeansEqual(q, i, last, t.bytes(s + last));
        assert !AgreesAt(t.bytes, q.ptns[i], q.flags, s, last);
      }
      SkipColumn(Judge(), i, ps, lastOff - pos, lastOff - next);
    }

    /** The work on a loaded page, in the source inside the loop of `find`. */
    method SearchPage(lastOff: nat) returns (found: bool)
      requires Loaded() && pageOff <= lastOff <= q.pageSize
      modifies this`foundEa, this`pmatches
      ensures Loaded()
      ensures var r := PageRun(q, t.bytes, pageEa, pageOff, lastOff, old(pmatches));
              if found then r.Hit? && foundEa == Some(r.ea)
              else r == Carry(pmatches) && foundEa == old(foundEa)
    {
      hide Agrees, Scan, Indices, PageHolds, Downwards, Trier, Finalizer, PatternMajor, PositionMajor;
      ghost var ps := Downwards(pageOff, lastOff);
      ghost var carried := Scan(Finalizer(q, t.bytes, pageEa, pageOff), pmatches);
      ghost var simple := Scan(Judge(), PatternMajor(simplePtns, ps));
      ghost var complex := Scan(Judge(), PositionMajor(complexPtns, ps));
      assert PageRun(q, t.bytes, pageEa, pageOff, lastOff, pmatches) == Then(carried, Then(simple, complex)) by {
        ScanAppend(Judge(), PatternMajor(simplePtns, ps), PositionMajor(complexPtns, ps));
      }
      found := HandlePartialMatches();
      if found {
        return;
      }
      found := MatchSimplePatterns(lastOff);
      if found {
        return;
      }
      assert carried.pms + simple.pms == pmatches;
      if complexPtns != [] {
        found := MatchComplexPatterns(lastOff);
        if found {
          return;
        }
        assert carried.pms + simple.pms + complex.pms == carried.pms + (simple.pms + complex.pms);
      } else {
        PositionMajorEmpty(ps);
        ScanEmpty(Judge());
        assert simple.pms + [] == simple.pms;
      }
    }

    method MatchComplexPatterns(end: nat) returns (found: bool)
      requires Loaded() && pageOff <= end <= q.pageSize
      modifies this`foundEa, this`pmatches
      ensures Loaded()
      ensures var r := Scan(Judge(), PositionMajor(complexPtns, Downwards(pageOff, end)));
              if found then r.Hit? && foundEa == Some(r.ea)
              else r.Carry? && pmatches == old(pmatches) + r.pms && foundEa == old(foundEa)
    {
      hide Agrees, Scan, Indices, PageHolds, Trier, Row, PositionMajor;
      ghost var judge, ps := Judge(), Downwards(pageOff, end);
      ghost var remembered: seq<Partial> := [];
      NothingTried(judge, 0, complexPtns, ps, 0);
      var lastOff := end;
      while pageOff < lastOff
        invariant Loaded() && foundEa == old(foundEa) && judge == Judge()
        invariant pageOff <= lastOff <= end
        invariant Scan(judge, PositionMajor(complexPtns, ps[..end - lastOff])) == Carry(remembered)
        invariant pmatches == old(pmatches) + remembered
      {
        PositionTake(judge, complexPtns, ps, end - lastOff);
        found := MatchBefore(lastOff);
        if found {
          RestOfPositions(judge, complexPtns, ps, end - lastOff + 1);
          return;
        }
        ghost var r := Scan(judge, Row(complexPtns, lastOff));
        assert old(pmatches) + remembered + r.pms == old(pmatches) + (remembered + r.pms);
        remembered := remembered + r.pms;
        lastOff := lastOff - 1;
      }
      assert ps[..end - pageOff] == ps;
      return false;
    }

    /** Reads the page at `pageEa` into the buffer; an unreadable page is reported. */
    method ReadPage() returns (ok: bool)
      requires Valid()
      modifies page
      ensures ok == t.readable(pageEa)
      ensures ok ==> Loaded()
    {
      if !t.readable(pageEa) {
        return false;
      }
      forall j | 0 <= j < page.Length {
        page[j] := t.bytes(pageEa + j);
      }
      return true;
    }

    /** Searches [start, end) downwards. The page after the one at address 0 is
        the last page of the address space, which the loop test rejects. */
    method Find(start: nat, end: nat) returns (drc: Drc)
      requires Valid() && start <= end < ADDRESS_SPACE && ADDRESS_SPACE % q.pageSize == 0
      modifies this, page
      ensures Valid()
      ensures match FindIn(q, t, start, end, old(pmatches))
              case FoundAt(ea) => drc == DrcOk && foundEa == Some(ea) && failedEa == old(failedEa)
              case NotFound(pms) => drc == DrcFailed && pmatches == pms && foundEa == old(foundEa)
                  && failedEa == old(failedEa)
              case Cancelled => drc == DrcError && foundEa == old(foundEa) && failedEa == old(failedEa)
              case ReadFailed(ea) => drc == DrcError && foundEa == old(foundEa) && failedEa == Some(ea)
    {
      hide Agrees, Indices, PageHolds, PageRun, Wrap, AlignDown, Aligned, FindIn, LoopFrom;
      ghost var outcome := FindIn(q, t, start, end, pmatches);
      pageEa := AlignDown(Wrap(end - 1), q.pageSize);
      FirstPage(end, q.pageSize);
      LoopStarts(q, t, start, end, pmatches);
      var lastOff: nat := Wrap(end - pageEa);
      while start < Wrap(pageEa + q.pageSize)
        invariant Valid() && foundEa == old(foundEa) && failedEa == old(failedEa)
        invariant pageEa + q.pageSize <= ADDRESS_SPACE && Aligned(pageEa, q.pageSize)
        invariant start < Wrap(pageEa + q.pageSize) ==> lastOff <= q.pageSize && start <= pageEa + lastOff
        invariant outcome == LoopFrom(q, t, pageEa, start, lastOff, pmatches)
        decreases if start < Wrap(pageEa + q.pageSize) then pageEa + 1 else 0
      {
        LoopStep(q, t, pageEa, start, lastOff, pmatches);
        if !q.flags.noBreak && t.cancelled(pageEa) {
          return DrcError;
        }
        var ok := ReadPage();
        if !ok {
          failedEa := Some(pageEa);
          return DrcError;
        }
        pageOff := if pageEa < start then start - pageEa else 0;
        var found := SearchPage(lastOff);
        if found {
          return DrcOk;
        }
        NextPage(start, pageEa, q.pageSize);
        pageEa := Wrap(pageEa - q.pageSize);
        lastOff := q.pageSize;
      }
      LoopStep(q, t, pageEa, start, lastOff, pmatches);
      return DrcFailed;
    }

    /** Where the loop starts; a range that ends in the last page is not entered. */
    static lemma FirstPage(end: nat, pageSize: nat)
      requires 0 < pageSize < 0x8000_0000 && ADDRESS_SPACE % pageSize == 0 && end < ADDRESS_SPACE
      ensures var pageEa := AlignDown(Wrap(end - 1), pageSize);
              && Aligned(pageEa, pageSize) && pageEa + pageSize <= ADDRESS_SPACE && Wrap(ADDRESS_SPACE) == 0
              && (end == 0 || end > ADDRESS_SPACE - pageSize <==> pageEa + pageSize == ADDRESS_SPACE)
              && (0 < end ==> pageEa == AlignDown(end - 1, pageSize) && 0 < end - pageEa <= pageSize)
    {
      var last := Wrap(end - 1);
      var pageEa := AlignDown(last, pageSize);
      assert pageEa % pageSize == 0 by {
        Arith.AlignedDown(last, pageSize);
      }
      var top := ADDRESS_SPACE - pageSize;
      assert top % pageSize == 0 by {
        PageBelow(ADDRESS_SPACE, pageSize);
      }
      if top < pageEa {
        Arith.BoundariesApart(top, pageEa, pageSize);
      } else if pageEa < top {
        Arith.BoundariesApart(pageEa, top, pageSize);
      }
    }

    /** Where the loop goes next; below address 0 it stops. */
    static lemma NextPage(start: nat, pageEa: nat, pageSize: nat)
      requires 0 < pageSize < 0x8000_0000 && ADDRESS_SPACE % pageSize == 0 && Aligned(pageEa, pageSize)
      requires start < pageEa + pageSize < ADDRESS_SPACE
      ensures pageSize <= pageEa ==>
              Wrap(pageEa - pageSize) == pageEa - pageSize && Aligned(pageEa - pageSize, pageSize)
      ensures pageEa < pageSize ==> pageEa == 0 && Wrap(pageEa - pageSize) == ADDRESS_SPACE - pageSize
      ensures Aligned(ADDRESS_SPACE - pageSize, pageSize) && Wrap(ADDRESS_SPACE) == 0
    {
      StepDown(start, pageEa, pageSize);
      PageBelow(ADDRESS_SPACE, pageSize);
    }
  }

  /** What the page loop does from a page on, with its 64-bit test. */
  ghost function LoopFrom(q: Query, t: Target, pageEa: nat, start: nat, lastOff: nat, pms: seq<Partial>): Outcome
    requires q.Valid()
  {
    if start < Wrap(pageEa + q.pageSize) then BackwardSearch.Find(q, t, pageEa, start, lastOff, pms)
    else F.NotFound(pms)
  }

  lemma LoopStarts(q: Query, t: Target, start: nat, end: nat, pms: seq<Partial>)
    requires q.Valid() && start <= end < ADDRESS_SPACE && ADDRESS_SPACE % q.pageSize == 0
    ensures var pageEa := AlignDown(Wrap(end - 1), q.pageSize);
            LoopFrom(q, t, pageEa, start, Wrap(end - pageEa), pms) == FindIn(q, t, start, end, pms)
  {
    hide BackwardSearch.Find, AlignDown, Wrap;
    BackwardMatcher.FirstPage(end, q.pageSize);
    var pageEa := AlignDown(Wrap(end - 1), q.pageSize);
    if 0 < end {
      FindUnfolds(q, t, pageEa, start, end - pageEa, pms);
    }
  }

  /** One page of the loop, or its end. */
  lemma LoopStep(q: Query, t: Target, pageEa: nat, start: nat, lastOff: nat, pms: seq<Partial>)
    requires q.Valid() && ADDRESS_SPACE % q.pageSize == 0 && Aligned(pageEa, q.pageSize)
            && pageEa + q.pageSize <= ADDRESS_SPACE
    ensures LoopFrom(q, t, pageEa, start, lastOff, pms) ==
            if start >= Wrap(pageEa + q.pageSize) then F.NotFound(pms)
            else if !q.flags.noBreak && t.cancelled(pageEa) then F.Cancelled
            else if !t.readable(pageEa) then F.ReadFailed(pageEa)
            else
              var r := PageRun(q, t.bytes, pageEa, OffsetOf(start, pageEa), lastOff, pms);
              if r.Hit? then F.FoundAt(r.ea)
              else LoopFrom(q, t, Wrap(pageEa - q.pageSize), start, q.pageSize, r.pms)
  {
    hide PageRun, Aligned, Wrap, BackwardSearch.Find;
    if start < Wrap(pageEa + q.pageSize) {
      LoopTest(start, pageEa, q.pageSize);
      BackwardMatcher.NextPage(start, pageEa, q.pageSize);
      FindUnfolds(q, t, pageEa, start, lastOff, pms);
      var r := PageRun(q, t.bytes, pageEa, OffsetOf(start, pageEa), lastOff, pms);
      if r.Carry? && q.pageSize <= pageEa {
        FindUnfolds(q, t, pageEa - q.pageSize, start, q.pageSize, r.pms);
      }
    }
  }

  lemma LoopTest(start: nat, pageEa: nat, pageSize: nat)
    requires pageEa + pageSize <= ADDRESS_SPACE && start < Wrap(pageEa + pageSize)
    ensures start < pageEa + pageSize < ADDRESS_SPACE
  {
    WrapNear(pageEa + pageSize);
  }

  /** A backward search on a matcher of its own. */
  method BinarySearch(q: Query, t: Target, start: nat, end: nat) returns (drc: Drc, foundEa: Option<int>)
    requires q.Valid() && start <= end < ADDRESS_SPACE && ADDRESS_SPACE % q.pageSize == 0
    ensures end > ADDRESS_SPACE - q.pageSize ==> drc == DrcFailed
    ensures end <= ADDRESS_SPACE - q.pageSize && drc != DrcError ==>
            (drc == DrcOk <==> !NoneInside(q, t.bytes, start, end))
    ensures drc == DrcOk ==> foundEa.Some? && exists i: nat :: LastOf(q, t.bytes, i, foundEa.value, start, end)
    ensures drc != DrcOk ==> foundEa == None
    ensures Undisturbed(q, t, end) ==> drc != DrcError
  {
    hide Find, NoneInside, LastOf, Undisturbed;
    var matcher := new BackwardMatcher(q, t);
    drc := matcher.Find(start, end);
    foundEa := matcher.foundEa;
    if end <= ADDRESS_SPACE - q.pageSize {
      FreshFind(q, t, start, end);
    }
    if Undisturbed(q, t, end) {
      NoFailure(q, t, start, end, []);
    }
  }
}
