/** The index of page breakpoints: an ordered map from page addresses. */
module PageBpts {
  import Arith
  import opened Words

  /** The size of a memory page. Nothing is known of it but that it divides the
      address space. */
  type PageSize = p: nat | 0 < p && ADDRESS_SPACE % p == 0 witness 0x1000

  const PAGE: PageSize

  /** A page breakpoint: the range that the user asked for, and the length of the
      whole pages that it takes. */
  datatype PageBpt = PageBpt(ea: Ea, userLen: nat, alignedLen: nat, kind: nat, enabled: bool)

  datatype Entry = Entry(pageEa: Ea, bpt: PageBpt)

  predicate Boundary(x: int) {
    x % PAGE == 0
  }

  function PageBase(ea: Ea): (r: Ea)
    ensures r <= ea < r + PAGE
  {
    ea - ea % PAGE
  }

  lemma BaseIsBoundary(ea: Ea)
    ensures Boundary(PageBase(ea)) && Boundary(ADDRESS_SPACE)
    ensures PageBase(ea) + PAGE <= ADDRESS_SPACE
  {
    Arith.AlignedDown(ea, PAGE);
    Arith.BoundariesApart(PageBase(ea), ADDRESS_SPACE, PAGE);
  }

  /** Between two boundaries there is at least one page. */
  lemma Apart(a: int, b: int)
    requires Boundary(a) && Boundary(b) && a < b
    ensures a + PAGE <= b
  {
    Arith.BoundariesApart(a, b, PAGE);
  }

  /** The end of an entry. */
  function End(e: Entry): int {
    e.pageEa + e.bpt.alignedLen
  }

  /** An entry takes whole pages. */
  ghost predicate Whole(e: Entry) {
    Boundary(e.pageEa) && Boundary(End(e)) && e.pageEa < End(e) <= ADDRESS_SPACE
  }

  /** The first page of an entry has the address that the user asked for. */
  ghost predicate Placed(entries: seq<Entry>) {
    forall i | 0 <= i < |entries| :: entries[i].pageEa == PageBase(entries[i].bpt.ea)
  }

  /** Whole pages, in the order of their addresses, without overlap. */
  ghost predicate WellFormed(entries: seq<Entry>) {
    && (forall i | 0 <= i < |entries| :: Whole(entries[i]))
    && (forall i, j | 0 <= i < j < |entries| :: End(entries[i]) <= entries[j].pageEa)
  }

  /** Iterators are indices: the first entry at `key` or above, or the end. */
  function LowerBound(entries: seq<Entry>, key: Ea): (r: nat)
    ensures r <= |entries|
    ensures forall i | 0 <= i < r :: entries[i].pageEa < key
    ensures r < |entries| ==> key <= entries[r].pageEa
  {
    if entries == [] || key <= entries[0].pageEa then 0 else 1 + LowerBound(entries[1..], key)
  }

  /** The last address of an interval, and the test for a common address, in
      64-bit arithmetic. */
  function Last(off: Ea, size: int): Ea {
    Wrap(off + size - 1)
  }

  predicate Overlap(off1: Ea, s1: int, off2: Ea, s2: int) {
    s1 != 0 && s2 != 0 && off2 <= Last(off1, s1) && off1 <= Last(off2, s2)
  }

  /** One lookup and at most one step back. */
  function Find(entries: seq<Entry>, ea: Ea, size: nat): (r: nat)
    ensures r <= |entries|
  {
    var p := LowerBound(entries, PageBase(ea));
    if p == |entries| || Wrap(ea + size) <= entries[p].pageEa then
      if p != 0 && Overlap(ea, size, entries[p - 1].pageEa, entries[p - 1].bpt.alignedLen) then p - 1 else |entries|
    else if Overlap(ea, size, entries[p].pageEa, entries[p].bpt.alignedLen) then p
    else |entries|
  }

  predicate Within(x: int, lo: int, hi: int) {
    lo <= x < hi
  }

  /** The entry has a byte of the `size` bytes at `ea`. */
  ghost predicate Touches(e: Entry, ea: Ea, size: nat) {
    exists x: int :: Within(x, ea, ea + size) && Within(x, e.pageEa, End(e))
  }

  lemma TouchesMeans(e: Entry, ea: Ea, size: nat)
    requires Whole(e)
    ensures Touches(e, ea, size) <==> 0 < size && e.pageEa < ea + size && ea < End(e)
  {
    if 0 < size && e.pageEa < ea + size && ea < End(e) {
      var x := if ea <= e.pageEa then e.pageEa else ea;
      assert Within(x, ea, ea + size) && Within(x, e.pageEa, End(e));
    }
  }

  lemma OverlapMeans(e: Entry, ea: Ea, size: nat)
    requires Whole(e) && ea + size <= ADDRESS_SPACE
    ensures Overlap(ea, size, e.pageEa, e.bpt.alignedLen) <==> Touches(e, ea, size)
  {
    hide Touches, Whole;
    assert 0 < e.bpt.alignedLen && End(e) <= ADDRESS_SPACE by { EndOf(e); }
    TouchesMeans(e, ea, size);
  }

  lemma EndOf(e: Entry)
    requires Whole(e)
    ensures 0 < e.bpt.alignedLen && End(e) <= ADDRESS_SPACE
  {
  }

  /** Whatever `Find` returns has a byte of the range. */
  lemma FindIsSound(entries: seq<Entry>, ea: Ea, size: nat)
    requires WellFormed(entries) && ea + size <= ADDRESS_SPACE && Find(entries, ea, size) < |entries|
    ensures Touches(entries[Find(entries, ea, size)], ea, size)
  {
    hide Touches, Overlap;
    OverlapMeans(entries[Find(entries, ea, size)], ea, size);
  }

  /** The answer of a scan of all entries. */
  ghost predicate AnyTouches(entries: seq<Entry>, ea: Ea, size: nat) {
    exists i | 0 <= i < |entries| :: Touches(entries[i], ea, size)
  }

  /** `Find` finds an entry when a scan of all entries would. */
  lemma FindIsComplete(entries: seq<Entry>, ea: Ea, size: nat)
    requires WellFormed(entries) && ea + size < ADDRESS_SPACE
    ensures Find(entries, ea, size) < |entries| <==> AnyTouches(entries, ea, size)
  {
    hide Touches, Overlap, Whole, PageBase, LowerBound;
    if Find(entries, ea, size) < |entries| {
      FindIsSound(entries, ea, size);
    }
    if AnyTouches(entries, ea, size) {
      var i :| 0 <= i < |entries| && Touches(entries[i], ea, size);
      var p := LowerBound(entries, PageBase(ea));
      TouchesMeans(entries[i], ea, size);
      if p < |entries| && entries[p].pageEa < ea + size {
        LowerTouches(entries[p], ea, size);
      } else {
        OnlyLastBefore(entries, ea, size, p);
        OverlapMeans(entries[i], ea, size);
      }
    }
  }

  /** If the entry at the lower bound is too high, only the one before it can
      touch the range. */
  lemma OnlyLastBefore(entries: seq<Entry>, ea: Ea, size: nat, p: nat)
    requires WellFormed(entries) && p <= |entries|
    requires forall k | 0 <= k < p :: entries[k].pageEa < PageBase(ea)
    requires p < |entries| ==> ea + size <= entries[p].pageEa
    ensures forall i | 0 <= i < |entries| && i != p - 1 :: End(entries[i]) <= ea || ea + size <= entries[i].pageEa
  {
    hide Whole;
    forall i | 0 <= i < |entries| && i != p - 1 ensures End(entries[i]) <= ea || ea + size <= entries[i].pageEa {
      if i < p {
        assert End(entries[i]) <= entries[p - 1].pageEa;
      } else if p < i {
        EndOf(entries[p]);
      }
    }
  }

  /** An entry between the base of the page and the end of the range touches it. */
  lemma LowerTouches(e: Entry, ea: Ea, size: nat)
    requires Whole(e) && ea + size <= ADDRESS_SPACE && 0 < size
    requires PageBase(ea) <= e.pageEa < ea + size
    ensures Overlap(ea, size, e.pageEa, e.bpt.alignedLen)
  {
    hide Touches;
    Apart(e.pageEa, End(e));
    TouchesMeans(e, ea, size);
    OverlapMeans(e, ea, size);
  }

  lemma OnePageWhole(e: Entry)
    requires e.pageEa == PageBase(e.bpt.ea) && e.bpt.alignedLen == PAGE
    ensures Whole(e)
  {
    BaseIsBoundary(e.bpt.ea);
    Arith.ModStep(e.pageEa, PAGE, PAGE);
  }

  /** The lookup agrees with the scan, for all maps, exactly when the range does
      not end at the top of the address space. */
  lemma FindExactlyBelowTop(ea: Ea, size: nat)
    requires 0 < size && ea + size <= ADDRESS_SPACE
    ensures (forall entries | WellFormed(entries) ::
               Find(entries, ea, size) < |entries| <==> AnyTouches(entries, ea, size))
            <==> ea + size < ADDRESS_SPACE
  {
    if ea + size < ADDRESS_SPACE {
      forall entries | WellFormed(entries)
        ensures Find(entries, ea, size) < |entries| <==> AnyTouches(entries, ea, size)
      {
        FindIsComplete(entries, ea, size);
      }
    } else {
      var e := Entry(PageBase(ea), PageBpt(ea, 1, PAGE, 0, true));
      OnePageWhole(e);
      assert WellFormed([e]) && LowerBound([e], PageBase(ea)) == 0;
      TouchesMeans(e, ea, size);
      assert Touches([e][0], ea, size);
      assert AnyTouches([e], ea, size) && Find([e], ea, size) == 1;
    }
  }

  // ------------------------------------------------------------ insert, erase

  function Inserted(entries: seq<Entry>, e: Entry): seq<Entry> {
    var p := LowerBound(entries, e.pageEa);
    if p < |entries| && entries[p].pageEa == e.pageEa then entries[p := e]
    else entries[..p] + [e] + entries[p..]
  }

  function Erased(entries: seq<Entry>, p: nat): seq<Entry>
    requires p < |entries|
  {
    entries[..p] + entries[p + 1..]
  }

  lemma EraseKeeps(entries: seq<Entry>, p: nat)
    requires WellFormed(entries) && p < |entries|
    ensures WellFormed(Erased(entries, p)) && (Placed(entries) ==> Placed(Erased(entries, p)))
  {
    var rest := Erased(entries, p);
    assert forall i | 0 <= i < |rest| :: rest[i] == entries[if i < p then i else i + 1];
  }

  /** The whole pages of a range. */
  function AlignedLen(ea: Ea, size: nat): (r: nat)
    ensures ea + size <= PageBase(ea) + r < ea + size + PAGE
  {
    var n := ea % PAGE + size;
    if n % PAGE == 0 then n else n + PAGE - n % PAGE
  }

  function NewEntry(ea: Ea, size: nat, kind: nat, enabled: bool): Entry {
    Entry(PageBase(ea), PageBpt(ea, size, AlignedLen(ea, size), kind, enabled))
  }

  lemma AlignedLenWhole(ea: Ea, size: nat)
    ensures AlignedLen(ea, size) % PAGE == 0
  {
    var n := ea % PAGE + size;
    var m := n - n % PAGE;
    Arith.AlignedDown(n, PAGE);
    Arith.ModStep(m, PAGE, PAGE);
    assert AlignedLen(ea, size) == m || AlignedLen(ea, size) == m + PAGE;
  }

  lemma NewEntryWhole(ea: Ea, size: nat, kind: nat, enabled: bool)
    requires 0 < size && ea + size <= ADDRESS_SPACE
    ensures Whole(NewEntry(ea, size, kind, enabled))
    ensures ea + size == ADDRESS_SPACE ==> End(NewEntry(ea, size, kind, enabled)) == ADDRESS_SPACE
  {
    var len := AlignedLen(ea, size);
    var base := PageBase(ea);
    BaseIsBoundary(ea);
    AlignedLenWhole(ea, size);
    Arith.Multiples(base, len, PAGE);
    if ADDRESS_SPACE < base + len {
      Apart(ADDRESS_SPACE, base + len);
    }
  }

  /** If no entry has a byte of the range, none has a byte of its whole pages. */
  lemma WholePagesFree(e: Entry, ea: Ea, size: nat)
    requires Whole(e) && 0 < size && ea + size <= ADDRESS_SPACE && !Touches(e, ea, size)
    ensures End(e) <= PageBase(ea) || PageBase(ea) + AlignedLen(ea, size) <= e.pageEa
  {
    hide Touches, PageBase, AlignedLen, Boundary;
    TouchesMeans(e, ea, size);
    BaseIsBoundary(ea);
    NewEntryWhole(ea, size, 0, true);
    if PageBase(ea) < End(e) <= ea {
      Apart(PageBase(ea), End(e));
    } else if e.pageEa < End(NewEntry(ea, size, 0, true)) && ea + size <= e.pageEa {
      Apart(e.pageEa, End(NewEntry(ea, size, 0, true)));
    }
  }

  /** A breakpoint that `Find` lets through keeps the map well formed; it takes
      its place among the others. */
  lemma InsertKeeps(entries: seq<Entry>, ea: Ea, size: nat, kind: nat, enabled: bool)
    requires WellFormed(entries) && 0 < size && ea + size < ADDRESS_SPACE && Find(entries, ea, size) == |entries|
    ensures var e, p := NewEntry(ea, size, kind, enabled), LowerBound(entries, PageBase(ea));
            && Inserted(entries, e) == entries[..p] + [e] + entries[p..]
            && WellFormed(Inserted(entries, e)) && (Placed(entries) ==> Placed(Inserted(entries, e)))
  {
    hide Touches, Find, AlignedLen, LowerBound;
    var e, p := NewEntry(ea, size, kind, enabled), LowerBound(entries, PageBase(ea));
    FindIsComplete(entries, ea, size);
    NewEntryWhole(ea, size, kind, enabled);
    forall i | 0 <= i < |entries| ensures if i < p then End(entries[i]) <= e.pageEa else End(e) <= entries[i].pageEa {
      assert !Touches(entries[i], ea, size);
      WholePagesFree(entries[i], ea, size);
    }
    SplicedWellFormed(entries, e, p);
  }

  lemma SplicedWellFormed(entries: seq<Entry>, e: Entry, p: nat)
    requires WellFormed(entries) && Whole(e) && p <= |entries|
    requires forall i | 0 <= i < |entries| :: if i < p then End(entries[i]) <= e.pageEa else End(e) <= entries[i].pageEa
    ensures WellFormed(entries[..p] + [e] + entries[p..])
  {
    var all := entries[..p] + [e] + entries[p..];
    assert forall i | 0 <= i < |all| :: all[i] == if i < p then entries[i] else if i == p then e else entries[i - 1];
  }

  // ------------------------------------------ at the top of the address space

  /** No entry begins above this page. */
  ghost predicate NoneAbove(entries: seq<Entry>, base: Ea) {
    forall i | 0 <= i < |entries| :: entries[i].pageEa <= base
  }

  ghost predicate NoneAt(entries: seq<Entry>, base: Ea) {
    forall i | 0 <= i < |entries| :: entries[i].pageEa != base
  }

  /** At the top the lookup is right about the entries that begin below the page. */
  lemma BelowFree(entries: seq<Entry>, ea: Ea, size: nat)
    requires WellFormed(entries) && 0 < size && ea + size == ADDRESS_SPACE && Find(entries, ea, size) == |entries|
    ensures forall i | 0 <= i < LowerBound(entries, PageBase(ea)) :: End(entries[i]) <= PageBase(ea)
  {
    hide Touches, Whole, PageBase, AlignedLen, Overlap;
    var p := LowerBound(entries, PageBase(ea));
    if 0 < p {
      assert Wrap(ea + size) == 0;
      OverlapMeans(entries[p - 1], ea, size);
      WholePagesFree(entries[p - 1], ea, size);
    }
  }

  /** What an addition does whose range ends at the top. An entry that begins at
      its first page is overwritten; entries above that page overlap it. */
  lemma AddAtTop(entries: seq<Entry>, ea: Ea, size: nat, kind: nat, enabled: bool)
    requires WellFormed(entries) && 0 < size && ea + size == ADDRESS_SPACE && Find(entries, ea, size) == |entries|
    ensures var e, p := NewEntry(ea, size, kind, enabled), LowerBound(entries, PageBase(ea));
            var after := Inserted(entries, e);
            && (WellFormed(after) <==> NoneAbove(entries, PageBase(ea)))
            && (if NoneAt(entries, PageBase(ea)) then after == entries[..p] + [e] + entries[p..]
                else p < |entries| && entries[p].pageEa == PageBase(ea) && after == entries[p := e])
  {
    hide Find, PageBase, AlignedLen, Whole, LowerBound;
    var e, p := NewEntry(ea, size, kind, enabled), LowerBound(entries, PageBase(ea));
    var after := Inserted(entries, e);
    NewEntryWhole(ea, size, kind, enabled);
    BelowFree(entries, ea, size);
    if p == |entries| {
      SplicedWellFormed(entries, e, p);
    } else {
      LaterBeginAbove(entries, p);
      if entries[p].pageEa == e.pageEa {
        ReplacedWellFormed(entries, e, p);
      } else {
        assert after[p] == e && after[p + 1] == entries[p] && !NoneAbove(entries, PageBase(ea));
      }
    }
  }

  /** The entries behind the one at `p` begin above it. */
  lemma LaterBeginAbove(entries: seq<Entry>, p: nat)
    requires WellFormed(entries) && p < |entries|
    ensures forall i | p < i < |entries| :: entries[p].pageEa < entries[i].pageEa
  {
    assert Whole(entries[p]);
  }

  lemma ReplacedWellFormed(entries: seq<Entry>, e: Entry, p: nat)
    requires WellFormed(entries) && p < |entries| && e.pageEa == entries[p].pageEa && Whole(e)
            && End(e) == ADDRESS_SPACE
    ensures WellFormed(entries[p := e]) <==> NoneAbove(entries, e.pageEa)
  {
    hide Whole;
    var after := entries[p := e];
    LaterBeginAbove(entries, p);
    if p + 1 < |entries| {
      assert after[p] == e && after[p + 1] == entries[p + 1];
      assert !NoneAbove(entries, e.pageEa);
    } else {
      forall i, j | 0 <= i < j < |after| ensures End(after[i]) <= after[j].pageEa {
        assert End(entries[i]) <= entries[j].pageEa;
      }
    }
  }

  lemma InsertKeepsPlaced(entries: seq<Entry>, ea: Ea, size: nat, kind: nat, enabled: bool)
    requires Placed(entries)
    ensures Placed(Inserted(entries, NewEntry(ea, size, kind, enabled)))
  {
    hide PageBase, LowerBound;
    var e := NewEntry(ea, size, kind, enabled);
    var p := LowerBound(entries, e.pageEa);
    var all := entries[..p] + [e] + entries[p..];
    assert forall i | 0 <= i < |all| :: all[i] == if i < p then entries[i] else if i == p then e else entries[i - 1];
  }

  /** The addition is let through by the lookup, keeps the map well formed, and
      adds its entry to the others. */
  ghost predicate TakesItsPlace(entries: seq<Entry>, e: Entry) {
    var p, after := LowerBound(entries, e.pageEa), Inserted(entries, e);
    WellFormed(after) && after == entries[..p] + [e] + entries[p..]
  }

  ghost predicate Free(entries: seq<Entry>, ea: Ea, size: nat) {
    WellFormed(entries) && Placed(entries) && Find(entries, ea, size) == |entries|
  }

  /** A map with one entry in the last page, which the lookup does not see. */
  ghost function TopMap(): seq<Entry> {
    [NewEntry(BADADDR, 1, 0, true)]
  }

  lemma TopMapUnseen(ea: Ea, size: nat)
    requires 0 < size && ea + size == ADDRESS_SPACE
    ensures Free(TopMap(), ea, size) && TopMap()[0].pageEa == ADDRESS_SPACE - PAGE
  {
    hide AlignedLen, PageBase, Boundary;
    var last := TopMap()[0];
    NewEntryWhole(BADADDR, 1, 0, true);
    BaseIsBoundary(BADADDR);
    BaseIsBoundary(ea);
    if last.pageEa < PageBase(ea) {
      Apart(last.pageEa, PageBase(ea));
    }
    assert LowerBound(TopMap(), PageBase(ea)) == 0;
    assert Wrap(ea + size) == 0;
  }

  /** An addition that the lookup lets through takes its place among the others,
      for all maps, exactly when its range ends below the top. */
  lemma TakesPlaceExactly(ea: Ea, size: nat, kind: nat, enabled: bool)
    requires 0 < size && ea + size <= ADDRESS_SPACE
    ensures (forall entries | Free(entries, ea, size) :: TakesItsPlace(entries, NewEntry(ea, size, kind, enabled)))
            <==> ea + size < ADDRESS_SPACE
  {
    hide Find, AlignedLen, PageBase, LowerBound, WellFormed;
    if ea + size < ADDRESS_SPACE {
      forall entries | Free(entries, ea, size) ensures TakesItsPlace(entries, NewEntry(ea, size, kind, enabled)) {
        InsertKeeps(entries, ea, size, kind, enabled);
      }
    } else {
      var e := NewEntry(ea, size, kind, enabled);
      TopMapUnseen(ea, size);
      AddAtTop(TopMap(), ea, size, kind, enabled);
      BaseIsBoundary(ea);
      if NoneAbove(TopMap(), PageBase(ea)) {
        assert TopMap()[0].pageEa == PageBase(ea);
        assert |Inserted(TopMap(), e)| == 1;
      }
      assert !TakesItsPlace(TopMap(), e);
    }
  }

  /** It keeps the map well formed, for all maps, exactly when its range ends
      below the top or begins in the last page. There it may overwrite an entry. */
  lemma AddKeepsExactly(ea: Ea, size: nat, kind: nat, enabled: bool)
    requires 0 < size && ea + size <= ADDRESS_SPACE
    ensures (forall entries | Free(entries, ea, size) ::
               WellFormed(Inserted(entries, NewEntry(ea, size, kind, enabled))))
            <==> ea + size < ADDRESS_SPACE || PageBase(ea) == ADDRESS_SPACE - PAGE
  {
    hide Find, AlignedLen, PageBase, LowerBound, WellFormed;
    if ea + size < ADDRESS_SPACE {
      forall entries | Free(entries, ea, size)
        ensures WellFormed(Inserted(entries, NewEntry(ea, size, kind, enabled)))
      {
        InsertKeeps(entries, ea, size, kind, enabled);
      }
    } else if PageBase(ea) == ADDRESS_SPACE - PAGE {
      forall entries | Free(entries, ea, size)
        ensures WellFormed(Inserted(entries, NewEntry(ea, size, kind, enabled)))
      {
        NoneAboveLast(entries);
        AddAtTop(entries, ea, size, kind, enabled);
      }
    } else {
      TopMapUnseen(ea, size);
      AddAtTop(TopMap(), ea, size, kind, enabled);
      BaseIsBoundary(ea);
      assert !NoneAbove(TopMap(), PageBase(ea));
      assert !WellFormed(Inserted(TopMap(), NewEntry(ea, size, kind, enabled)));
    }
  }

  lemma NoneAboveLast(entries: seq<Entry>)
    requires WellFormed(entries)
    ensures NoneAbove(entries, ADDRESS_SPACE - PAGE)
  {
    forall i | 0 <= i < |entries| ensures entries[i].pageEa <= ADDRESS_SPACE - PAGE {
      assert Whole(entries[i]);
      Apart(entries[i].pageEa, End(entries[i]));
    }
  }

  /** The range of an entry holds the address asked for. */
  lemma OwnEntryFound(entries: seq<Entry>, i: nat)
    requires WellFormed(entries) && Placed(entries) && i < |entries| && entries[i].bpt.ea < BADADDR
    ensures Find(entries, entries[i].bpt.ea, 1) == i
  {
    hide Touches, Find, Whole, PageBase, Boundary;
    var ea := entries[i].bpt.ea;
    OwnPage(entries[i]);
    TouchesMeans(entries[i], ea, 1);
    FindIsComplete(entries, ea, 1);
    FindIsSound(entries, ea, 1);
    TouchesMeans(entries[Find(entries, ea, 1)], ea, 1);
  }

  lemma OwnPage(e: Entry)
    requires Whole(e) && e.pageEa == PageBase(e.bpt.ea)
    ensures e.pageEa <= e.bpt.ea < End(e)
  {
    Apart(e.pageEa, End(e));
  }

  /** At the last address the lookup never comes to an entry asked for there. */
  lemma LastAddressNotFound(entries: seq<Entry>)
    requires WellFormed(entries) && Placed(entries)
    ensures var p := Find(entries, BADADDR, 1); p < |entries| ==> entries[p].bpt.ea != BADADDR
  {
    hide Overlap, PageBase;
    assert Wrap(BADADDR + 1) == 0;
  }

  /** What the operating system answers when a breakpoint is added. */
  datatype Pages = Pages(mapped: bool, accessible: bool, protectionsChange: bool, protectable: bool)

  class PageBptMap {
    var entries: seq<Entry>

    ghost predicate Valid()
      reads this
    {
      WellFormed(entries) && Placed(entries)
    }

    constructor ()
      ensures Valid() && entries == []
    {
      entries := [];
    }

    /** Adds a breakpoint if the lookup finds none with one of its bytes. An entry
        that cannot be enabled is reported as a failure but stays. The map stays
        well formed exactly when the range ends below the top of the address
        space or no entry begins above its first page. */
    method Add(ea: Ea, size: nat, kind: nat, pages: Pages) returns (ok: bool)
      requires Valid() && 0 < size && ea + size <= ADDRESS_SPACE
      modifies this
      ensures ea + size < ADDRESS_SPACE ==>
              (Find(old(entries), ea, size) == |old(entries)| <==> !AnyTouches(old(entries), ea, size))
      ensures var free := Find(old(entries), ea, size) == |old(entries)| && pages.mapped && pages.accessible;
              && (ok <==> free && (!pages.protectionsChange || pages.protectable))
              && (!free ==> entries == old(entries))
              && (free ==> entries == Inserted(old(entries), NewEntry(ea, size, kind, ok)))
              && (free ==> exists e ::
                    && e in entries
                    && e.bpt.ea == ea && e.bpt.userLen == size && e.bpt.kind == kind && e.bpt.enabled == ok
                    && e.pageEa % PAGE == 0 && e.pageEa <= ea < e.pageEa + PAGE
                    && e.bpt.alignedLen % PAGE == 0 && ea + size <= e.pageEa + e.bpt.alignedLen < ea + size + PAGE)
              && (Valid() <==> !free || ea + size < ADDRESS_SPACE || NoneAbove(old(entries), PageBase(ea)))
    {
      hide Find, AnyTouches, Inserted, WellFormed, Placed, PageBase, AlignedLen;
      if ea + size < ADDRESS_SPACE {
        FindIsComplete(entries, ea, size);
      }
      if Find(entries, ea, size) != |entries| || !pages.mapped || !pages.accessible {
        return false;
      }
      ok := !pages.protectionsChange || pages.protectable;
      if ea + size < ADDRESS_SPACE {
        InsertKeeps(entries, ea, size, kind, ok);
      } else {
        AddAtTop(entries, ea, size, kind, ok);
      }
      InsertKeepsPlaced(entries, ea, size, kind, ok);
      NewEntryDescribes(entries, ea, size, kind, ok);
      entries := Inserted(entries, NewEntry(ea, size, kind, ok));
    }

    /** Deletes the breakpoint that was asked for at `ea` with this kind. At the
        last address it is never found. */
    method Delete(ea: Ea, kind: nat) returns (ok: bool)
      requires Valid()
      modifies this
      ensures Valid()
      ensures ok ==> exists i | 0 <= i < |old(entries)| ::
              AskedFor(old(entries)[i], ea, kind) && entries == Erased(old(entries), i)
      ensures !ok ==> entries == old(entries)
      ensures ok <==> ea < BADADDR && exists i | 0 <= i < |old(entries)| :: AskedFor(old(entries)[i], ea, kind)
    {
      hide Find, WellFormed, Placed;
      if ea < BADADDR {
        forall i | 0 <= i < |entries| && entries[i].bpt.ea == ea ensures Find(entries, ea, 1) == i {
          OwnEntryFound(entries, i);
        }
      } else {
        LastAddressNotFound(entries);
      }
      var p := Find(entries, ea, 1);
      if p == |entries| {
        return false;
      }
      if !AskedFor(entries[p], ea, kind) {
        return false;
      }
      EraseKeeps(entries, p);
      entries := Erased(entries, p);
      ok := true;
    }
  }

  lemma NewEntryDescribes(entries: seq<Entry>, ea: Ea, size: nat, kind: nat, enabled: bool)
    requires 0 < size && ea + size <= ADDRESS_SPACE
    ensures var e := NewEntry(ea, size, kind, enabled);
            && e in Inserted(entries, e)
            && e.bpt.ea == ea && e.bpt.userLen == size && e.bpt.kind == kind && e.bpt.enabled == enabled
            && e.pageEa % PAGE == 0 && e.pageEa <= ea < e.pageEa + PAGE
            && e.bpt.alignedLen % PAGE == 0 && ea + size <= e.pageEa + e.bpt.alignedLen < ea + size + PAGE
  {
    hide AlignedLen, PageBase;
    AlignedLenWhole(ea, size);
    BaseIsBoundary(ea);
    var e := NewEntry(ea, size, kind, enabled);
    var p := LowerBound(entries, e.pageEa);
    NewEntryWhole(ea, size, kind, enabled);
    assert Inserted(entries, e)[p] == e;
  }

  predicate AskedFor(e: Entry, ea: Ea, kind: nat) {
    e.bpt.ea == ea && e.bpt.kind == kind
  }

  /** No two entries were asked for at the same address, so a deletion has no choice. */
  lemma AskedForOnce(entries: seq<Entry>, i: nat, j: nat)
    requires WellFormed(entries) && Placed(entries) && i < j < |entries|
    ensures entries[i].bpt.ea != entries[j].bpt.ea
  {
    assert Whole(entries[i]) && End(entries[i]) <= entries[j].pageEa;
  }

  /** Deleting a breakpoint that was just added gives the map back exactly when
      it is not at the last address and has overwritten no other. */
  lemma DeleteUndoesAdd(entries: seq<Entry>, ea: Ea, size: nat, kind: nat, enabled: bool)
    requires Free(entries, ea, size) && 0 < size && ea + size <= ADDRESS_SPACE
    ensures var after := Inserted(entries, NewEntry(ea, size, kind, enabled));
            var p := Find(after, ea, 1);
            p < |after| && AskedFor(after[p], ea, kind) && Erased(after, p) == entries
            <==> ea < BADADDR && NoneAt(entries, PageBase(ea))
  {
    hide Find, AlignedLen, PageBase, Whole, LowerBound;
    var e, p := NewEntry(ea, size, kind, enabled), LowerBound(entries, PageBase(ea));
    var after := Inserted(entries, e);
    if ea + size < ADDRESS_SPACE {
      InsertKeeps(entries, ea, size, kind, enabled);
      NoneAtBelowTop(entries, ea, size);
    } else {
      AddAtTop(entries, ea, size, kind, enabled);
    }
    if !NoneAt(entries, PageBase(ea)) {
      assert |after| == |entries|;
    } else {
      assert after[p] == e && Erased(after, p) == entries;
      if ea < BADADDR {
        NewEntryWhole(ea, size, kind, enabled);
        OwnPageFound(after, ea, p);
      } else {
        NoneAboveLast(entries);
        InsertKeepsPlaced(entries, ea, size, kind, enabled);
        TopBase();
        LastAddressNotFound(after);
      }
    }
  }

  lemma TopBase()
    ensures PageBase(BADADDR) == ADDRESS_SPACE - PAGE
  {
    BaseIsBoundary(BADADDR);
  }

  lemma NoneAtBelowTop(entries: seq<Entry>, ea: Ea, size: nat)
    requires Free(entries, ea, size) && 0 < size && ea + size < ADDRESS_SPACE
    ensures NoneAt(entries, PageBase(ea))
  {
    hide Find, PageBase, Boundary;
    FindIsComplete(entries, ea, size);
    forall i | 0 <= i < |entries| ensures entries[i].pageEa != PageBase(ea) {
      assert !Touches(entries[i], ea, size);
      TouchesMeans(entries[i], ea, size);
      if entries[i].pageEa == PageBase(ea) {
        Apart(entries[i].pageEa, End(entries[i]));
      }
    }
  }

  /** The entry at the page of `ea` is found also in a map with overlaps. */
  lemma OwnPageFound(entries: seq<Entry>, ea: Ea, p: nat)
    requires p < |entries| && ea < BADADDR && Whole(entries[p]) && entries[p].pageEa == PageBase(ea)
    requires forall i | 0 <= i < p :: entries[i].pageEa < PageBase(ea)
    ensures Find(entries, ea, 1) == p
  {
    hide Whole, Boundary, Touches, PageBase;
    LowerTouches(entries[p], ea, 1);
    assert LowerBound(entries, PageBase(ea)) == p;
  }
}
