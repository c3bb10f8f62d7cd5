/** Trying candidates in order, as both search directions do on every page: the
    first success ends the search, every partial success is remembered. */
module PageScan {
  import opened BinPattern
  import opened Options

  /** One comparison: pattern `i` against the page at offset `pos`. */
  datatype Attempt = Attempt(i: nat, pos: nat)

  /** What was learnt: the place of a match, or the partial matches to carry on. */
  datatype PageResult = Hit(ea: int) | Carry(pms: seq<Partial>)

  /** Sequential composition: a hit stops, otherwise the partial matches add up. */
  ghost function Then(a: PageResult, b: PageResult): PageResult {
    if a.Hit? then a else if b.Hit? then b else Carry(a.pms + b.pms)
  }

  lemma ThenAssociative(a: PageResult, b: PageResult, c: PageResult)
    ensures Then(Then(a, b), c) == Then(a, Then(b, c))
  {
    if a.Carry? && b.Carry? && c.Carry? {
      assert a.pms + b.pms + c.pms == a.pms + (b.pms + c.pms);
    }
  }

  /** Judges the candidates in order until there is a hit. */
  ghost function Scan<A>(judge: A -> PageResult, items: seq<A>): PageResult {
    if items == [] then Carry([]) else Then(judge(items[0]), Scan(judge, items[1..]))
  }

  lemma ScanEmpty<A>(judge: A -> PageResult)
    ensures Scan(judge, []) == Carry([])
  {
  }

  lemma {:induction false} ScanAppend<A>(judge: A -> PageResult, a: seq<A>, b: seq<A>)
    ensures Scan(judge, a + b) == Then(Scan(judge, a), Scan(judge, b))
  {
    if a == [] {
      assert a + b == b;
      if Scan(judge, b).Carry? {
        assert [] + Scan(judge, b).pms == Scan(judge, b).pms;
      }
    } else {
      assert (a + b)[1..] == a[1..] + b;
      ScanAppend(judge, a[1..], b);
      ThenAssociative(judge(a[0]), Scan(judge, a[1..]), Scan(judge, b));
    }
  }

  /** One more candidate at the end. */
  lemma ScanSnoc<A>(judge: A -> PageResult, a: seq<A>, x: A)
    ensures Scan(judge, a + [x]) == Then(Scan(judge, a), judge(x))
  {
    ScanAppend(judge, a, [x]);
    if judge(x).Carry? {
      assert judge(x).pms + [] == judge(x).pms;
    }
    assert Scan(judge, [x]) == judge(x);
  }

  /** Without a hit, no candidate was one. */
  lemma {:induction false} ScanNoHit<A>(judge: A -> PageResult, items: seq<A>)
    requires Scan(judge, items).Carry?
    ensures forall k | 0 <= k < |items| :: judge(items[k]).Carry?
  {
    if items != [] {
      ScanNoHit(judge, items[1..]);
      assert forall k | 0 < k < |items| :: items[k] == items[1..][k - 1];
    }
  }

  /** Candidates without any success can be skipped. */
  lemma {:induction false} ScanMisses<A>(judge: A -> PageResult, a: seq<A>)
    requires forall k | 0 <= k < |a| :: judge(a[k]) == Carry([])
    ensures Scan(judge, a) == Carry([])
  {
    if a != [] {
      ScanMisses(judge, a[1..]);
    }
  }

  /** For any one pattern the remembered matches get shorter along the list. */
  ghost predicate Shrinking(pms: seq<Partial>) {
    forall j, k | 0 <= j < k < |pms| && pms[j].ptnIdx == pms[k].ptnIdx :: pms[j].ptnOff > pms[k].ptnOff
  }

  ghost predicate FirstHit<A>(judge: A -> PageResult, items: seq<A>, ea: int, k: int) {
    0 <= k < |items| && judge(items[k]) == Hit(ea) && forall j | 0 <= j < k :: judge(items[j]).Carry?
  }

  ghost predicate RememberedBy<A>(judge: A -> PageResult, items: seq<A>, p: Partial, k: int) {
    0 <= k < |items| && judge(items[k]) == Carry([p])
  }

  ghost predicate Remembered<A>(judge: A -> PageResult, items: seq<A>, p: Partial) {
    exists k :: RememberedBy(judge, items, p, k)
  }

  /** A judge that remembers at most one partial match per candidate, in an
      order that makes the remembered list shrinking. */
  ghost predicate Orderly<A>(judge: A -> PageResult, items: seq<A>) {
    && (forall k | 0 <= k < |items| && judge(items[k]).Carry? :: |judge(items[k]).pms| <= 1)
    && (forall a, b | 0 <= a < b < |items| :: InOrder(judge(items[a]), judge(items[b])))
  }

  ghost predicate InOrder(a: PageResult, b: PageResult) {
    (a.Carry? && b.Carry? && |a.pms| == 1 && |b.pms| == 1 && a.pms[0].ptnIdx == b.pms[0].ptnIdx) ==>
      a.pms[0].ptnOff > b.pms[0].ptnOff
  }

  /** What a scan finds: the first hit, or exactly the remembered partial matches. */
  ghost predicate ScanMeans<A>(judge: A -> PageResult, items: seq<A>, r: PageResult) {
    match r
    case Hit(ea) => exists k :: FirstHit(judge, items, ea, k)
    case Carry(pms) =>
      && (forall k | 0 <= k < |items| :: judge(items[k]).Carry?)
      && (forall n | 0 <= n < |pms| :: Remembered(judge, items, pms[n]))
      && (forall k | 0 <= k < |items| && judge(items[k]).pms != [] :: judge(items[k]).pms[0] in pms)
      && Shrinking(pms)
  }

  lemma {:induction false} ScanResult<A>(judge: A -> PageResult, items: seq<A>)
    requires Orderly(judge, items)
    ensures ScanMeans(judge, items, Scan(judge, items))
  {
    if items != [] {
      var tail := items[1..];
      assert forall k | 0 <= k < |tail| :: tail[k] == items[k + 1];
      ScanResult(judge, tail);
      var head, rest := judge(items[0]), Scan(judge, tail);
      if head.Hit? {
        assert FirstHit(judge, items, head.ea, 0);
      } else if rest.Hit? {
        var k :| FirstHit(judge, tail, rest.ea, k);
        assert FirstHit(judge, items, rest.ea, k + 1);
      } else {
        ScanCarry(judge, items, head.pms, rest.pms);
      }
    }
  }

  lemma ScanSource<A>(judge: A -> PageResult, items: seq<A>, pms: seq<Partial>, n: nat) returns (k: nat)
    requires ScanMeans(judge, items, Carry(pms)) && n < |pms|
    ensures k < |items| && judge(items[k]) == Carry([pms[n]])
  {
    assert Remembered(judge, items, pms[n]);
    var m :| RememberedBy(judge, items, pms[n], m);
    k := m;
  }

  lemma ScanRemembers<A>(judge: A -> PageResult, items: seq<A>, pms: seq<Partial>, p: Partial, k: nat)
    requires ScanMeans(judge, items, Carry(pms)) && k < |items| && judge(items[k]) == Carry([p])
    ensures p in pms
  {
    assert judge(items[k]).pms[0] in pms;
  }

  lemma ScanCarry<A>(judge: A -> PageResult, items: seq<A>, head: seq<Partial>, rest: seq<Partial>)
    requires items != [] && Orderly(judge, items)
    requires judge(items[0]) == Carry(head) && ScanMeans(judge, items[1..], Carry(rest))
    ensures ScanMeans(judge, items, Carry(head + rest))
  {
    hide Scan, Orderly, InOrder, Shrinking;
    CarryIsSound(judge, items, head, rest);
    CarryIsComplete(judge, items, head, rest);
    CarryShrinks(judge, items, head, rest);
  }

  /** Whatever the tail remembers comes from a later candidate. */
  lemma TailRemembers<A>(judge: A -> PageResult, items: seq<A>, rest: seq<Partial>, n: nat) returns (k: nat)
    requires items != [] && ScanMeans(judge, items[1..], Carry(rest)) && n < |rest|
    ensures 0 < k < |items| && judge(items[k]) == Carry([rest[n]])
  {
    hide Scan, Shrinking;
    var tail := items[1..];
    assert Remembered(judge, tail, rest[n]);
    var j :| RememberedBy(judge, tail, rest[n], j);
    k := j + 1;
  }

  lemma CarryIsSound<A>(judge: A -> PageResult, items: seq<A>, head: seq<Partial>, rest: seq<Partial>)
    requires items != [] && Orderly(judge, items)
    requires judge(items[0]) == Carry(head) && ScanMeans(judge, items[1..], Carry(rest))
    ensures forall n | 0 <= n < |head + rest| :: Remembered(judge, items, (head + rest)[n])
  {
    hide Scan, Shrinking, InOrder, ScanMeans;
    var pms := head + rest;
    forall n | 0 <= n < |pms| ensures Remembered(judge, items, pms[n]) {
      if n < |head| {
        assert head == [pms[n]];
        assert RememberedBy(judge, items, pms[n], 0);
      } else {
        var k := TailRemembers(judge, items, rest, n - |head|);
        assert RememberedBy(judge, items, pms[n], k);
      }
    }
  }

  lemma CarryIsComplete<A>(judge: A -> PageResult, items: seq<A>, head: seq<Partial>, rest: seq<Partial>)
    requires items != []
    requires judge(items[0]) == Carry(head) && ScanMeans(judge, items[1..], Carry(rest))
    ensures forall k | 0 <= k < |items| ::
              judge(items[k]).Carry? && (judge(items[k]).pms != [] ==> judge(items[k]).pms[0] in head + rest)
  {
    hide Scan, Shrinking, Remembered;
    var tail, pms := items[1..], head + rest;
    forall k | 0 <= k < |items|
      ensures judge(items[k]).Carry? && (judge(items[k]).pms != [] ==> judge(items[k]).pms[0] in pms)
    {
      if k == 0 {
        assert head != [] ==> pms[0] == head[0];
      } else {
        assert items[k] == tail[k - 1];
      }
    }
  }

  lemma CarryShrinks<A>(judge: A -> PageResult, items: seq<A>, head: seq<Partial>, rest: seq<Partial>)
    requires items != [] && Orderly(judge, items)
    requires judge(items[0]) == Carry(head) && ScanMeans(judge, items[1..], Carry(rest))
    ensures Shrinking(head + rest)
  {
    hide Scan, Remembered;
    var pms := head + rest;
    forall j, k | 0 <= j < k < |pms| && pms[j].ptnIdx == pms[k].ptnIdx
      ensures pms[j].ptnOff > pms[k].ptnOff
    {
      if j < |head| {
        var x := TailRemembers(judge, items, rest, k - |head|);
        assert InOrder(judge(items[0]), judge(items[x]));
      } else {
        assert pms[j] == rest[j - |head|] && pms[k] == rest[k - |head|];
      }
    }
  }

  // ------------------------------------------------- the orders of comparison

  /** All positions for one pattern. */
  ghost function Column(i: nat, ps: seq<nat>): seq<Attempt> {
    seq(|ps|, k requires 0 <= k < |ps| => Attempt(i, ps[k]))
  }

  /** All patterns at one position. */
  ghost function Row(list: seq<nat>, pos: nat): seq<Attempt> {
    seq(|list|, k requires 0 <= k < |list| => Attempt(list[k], pos))
  }

  /** Simple patterns are tried one after the other. */
  ghost function PatternMajor(list: seq<nat>, ps: seq<nat>): seq<Attempt> {
    if list == [] then [] else PatternMajor(list[..|list| - 1], ps) + Column(list[|list| - 1], ps)
  }

  /** Complex patterns are all tried at one position before the next one. */
  ghost function PositionMajor(list: seq<nat>, ps: seq<nat>): seq<Attempt> {
    if ps == [] then [] else PositionMajor(list, ps[..|ps| - 1]) + Row(list, ps[|ps| - 1])
  }

  ghost predicate Distinct(list: seq<nat>) {
    forall a, b | 0 <= a < b < |list| :: list[a] != list[b]
  }

  ghost predicate Monotone(ps: seq<nat>, up: bool) {
    forall a, b | 0 <= a < b < |ps| :: if up then ps[a] < ps[b] else ps[a] > ps[b]
  }

  /** For any one pattern the attempts move in the given direction. */
  ghost predicate Directed(att: seq<Attempt>, up: bool) {
    forall a, b | 0 <= a < b < |att| :: InDirection(att[a], att[b], up)
  }

  ghost predicate InDirection(x: Attempt, y: Attempt, up: bool) {
    x.i == y.i ==> if up then x.pos < y.pos else x.pos > y.pos
  }

  lemma JoinDirected(a: seq<Attempt>, b: seq<Attempt>, up: bool)
    requires Directed(a, up) && Directed(b, up)
    requires forall x, y | x in a && y in b :: InDirection(x, y, up)
    ensures Directed(a + b, up)
  {
    hide InDirection;
    var all := a + b;
    forall j, k | 0 <= j < k < |all| ensures InDirection(all[j], all[k], up) {
      if j < |a| <= k {
        assert all[j] in a && all[k] in b;
      }
    }
  }

  /** The attempts are exactly those for a listed pattern at a listed position. */
  ghost predicate Covers(att: seq<Attempt>, list: seq<nat>, ps: seq<nat>) {
    forall a :: a in att <==> a.i in list && a.pos in ps
  }

  lemma {:induction false} PatternMajorOrder(list: seq<nat>, ps: seq<nat>, up: bool)
    requires Distinct(list) && Monotone(ps, up)
    ensures Covers(PatternMajor(list, ps), list, ps)
    ensures Directed(PatternMajor(list, ps), up)
  {
    if list != [] {
      var i, before := list[|list| - 1], list[..|list| - 1];
      PatternMajorOrder(before, ps, up);
      ColumnOrder(i, ps, up);
      LastDistinct(list);
      JoinDirected(PatternMajor(before, ps), Column(i, ps), up);
    }
  }

  lemma LastDistinct(list: seq<nat>)
    requires Distinct(list) && list != []
    ensures var n := |list| - 1;
            list[n] !in list[..n] && forall x :: x in list <==> x in list[..n] || x == list[n]
  {
    var n := |list| - 1;
    assert list == list[..n] + [list[n]];
  }

  lemma ColumnOrder(i: nat, ps: seq<nat>, up: bool)
    requires Monotone(ps, up)
    ensures forall a: Attempt :: a in Column(i, ps) <==> a.i == i && a.pos in ps
    ensures Directed(Column(i, ps), up)
  {
    forall a: Attempt ensures a in Column(i, ps) <==> a.i == i && a.pos in ps {
      if a.i == i && a.pos in ps {
        var k :| 0 <= k < |ps| && ps[k] == a.pos;
        assert Column(i, ps)[k] == a;
      }
    }
  }

  lemma {:induction false} PositionMajorOrder(list: seq<nat>, ps: seq<nat>, up: bool)
    requires Distinct(list) && Monotone(ps, up)
    ensures Covers(PositionMajor(list, ps), list, ps)
    ensures Directed(PositionMajor(list, ps), up)
  {
    if ps != [] {
      var pos, before := ps[|ps| - 1], ps[..|ps| - 1];
      PositionMajorOrder(list, before, up);
      RowOrder(list, pos, up);
      LastInDirection(ps, up);
      JoinDirected(PositionMajor(list, before), Row(list, pos), up);
    }
  }

  lemma LastInDirection(ps: seq<nat>, up: bool)
    requires Monotone(ps, up) && ps != []
    ensures var n := |ps| - 1;
            && (forall x | x in ps[..n] :: if up then x < ps[n] else x > ps[n])
            && (forall x :: x in ps <==> x in ps[..n] || x == ps[n])
  {
    var n := |ps| - 1;
    assert ps == ps[..n] + [ps[n]];
  }

  lemma RowOrder(list: seq<nat>, pos: nat, up: bool)
    requires Distinct(list)
    ensures forall a: Attempt :: a in Row(list, pos) <==> a.i in list && a.pos == pos
    ensures Directed(Row(list, pos), up)
  {
    forall a: Attempt ensures a in Row(list, pos) <==> a.i in list && a.pos == pos {
      if a.i in list && a.pos == pos {
        var k :| 0 <= k < |list| && list[k] == a.i;
        assert Row(list, pos)[k] == a;
      }
    }
  }

  ghost predicate Searchable(q: Query, i: nat) {
    i < |q.ptns| && 0 < q.Len(i)
  }

  /** All attempts on a page: the simple patterns first, then the complex ones. */
  ghost function Attempts(q: Query, ps: seq<nat>): seq<Attempt> {
    PatternMajor(Indices(q, true, |q.ptns|), ps) + PositionMajor(Indices(q, false, |q.ptns|), ps)
  }

  /** Each non-empty pattern is tried at each position, in the given direction. */
  lemma AttemptsOrder(q: Query, ps: seq<nat>, up: bool)
    requires Monotone(ps, up)
    ensures forall a :: a in Attempts(q, ps) <==> Searchable(q, a.i) && a.pos in ps
    ensures Directed(Attempts(q, ps), up)
  {
    hide Directed, PatternMajor, PositionMajor, Indices;
    var simple, complex := Indices(q, true, |q.ptns|), Indices(q, false, |q.ptns|);
    IndicesSound(q, true, |q.ptns|);
    IndicesSound(q, false, |q.ptns|);
    PatternMajorOrder(simple, ps, up);
    PositionMajorOrder(complex, ps, up);
    JoinDirected(PatternMajor(simple, ps), PositionMajor(complex, ps), up);
  }

  /** The offsets off, off + 1, ..., lastOff - 1. */
  ghost function Upwards(off: nat, lastOff: nat): (ps: seq<nat>)
    ensures |ps| == if off < lastOff then lastOff - off else 0
    ensures forall k | 0 <= k < |ps| :: ps[k] == off + k
    ensures forall p :: p in ps <==> off <= p < lastOff
  {
    if off >= lastOff then [] else Upwards(off, lastOff - 1) + [lastOff - 1]
  }

  /** The offsets lastOff, lastOff - 1, ..., off + 1. */
  ghost function Downwards(off: nat, lastOff: nat): (ps: seq<nat>)
    ensures |ps| == if off < lastOff then lastOff - off else 0
    ensures forall k | 0 <= k < |ps| :: ps[k] == lastOff - k
    ensures forall p :: p in ps <==> off < p <= lastOff
    decreases lastOff - off
  {
    if off >= lastOff then [] else Downwards(off + 1, lastOff) + [off + 1]
  }

  // ------------------------------------- one more attempt, and none after a hit

  lemma HitStays<A>(judge: A -> PageResult, a: seq<A>, b: seq<A>)
    requires Scan(judge, a).Hit?
    ensures Scan(judge, a + b) == Scan(judge, a)
  {
    ScanAppend(judge, a, b);
  }

  lemma ColumnTake(judge: Attempt -> PageResult, i: nat, ps: seq<nat>, k: nat)
    requires k < |ps|
    ensures Scan(judge, Column(i, ps[..k + 1])) == Then(Scan(judge, Column(i, ps[..k])), judge(Attempt(i, ps[k])))
  {
    assert Column(i, ps[..k + 1]) == Column(i, ps[..k]) + [Attempt(i, ps[k])];
    ScanSnoc(judge, Column(i, ps[..k]), Attempt(i, ps[k]));
  }

  lemma RowTake(judge: Attempt -> PageResult, list: seq<nat>, k: nat, pos: nat)
    requires k < |list|
    ensures Scan(judge, Row(list[..k + 1], pos)) == Then(Scan(judge, Row(list[..k], pos)), judge(Attempt(list[k], pos)))
  {
    assert Row(list[..k + 1], pos) == Row(list[..k], pos) + [Attempt(list[k], pos)];
    ScanSnoc(judge, Row(list[..k], pos), Attempt(list[k], pos));
  }

  lemma PatternTake(judge: Attempt -> PageResult, list: seq<nat>, k: nat, ps: seq<nat>)
    requires k < |list|
    ensures Scan(judge, PatternMajor(list[..k + 1], ps)) ==
            Then(Scan(judge, PatternMajor(list[..k], ps)), Scan(judge, Column(list[k], ps)))
  {
    assert list[..k + 1][..k] == list[..k];
    ScanAppend(judge, PatternMajor(list[..k], ps), Column(list[k], ps));
  }

  lemma PositionTake(judge: Attempt -> PageResult, list: seq<nat>, ps: seq<nat>, k: nat)
    requires k < |ps|
    ensures Scan(judge, PositionMajor(list, ps[..k + 1])) ==
            Then(Scan(judge, PositionMajor(list, ps[..k])), Scan(judge, Row(list, ps[k])))
  {
    assert ps[..k + 1][..k] == ps[..k];
    ScanAppend(judge, PositionMajor(list, ps[..k]), Row(list, ps[k]));
  }

  /** Before the first attempt of any order. */
  lemma NothingTried(judge: Attempt -> PageResult, i: nat, list: seq<nat>, ps: seq<nat>, pos: nat)
    ensures Scan(judge, Column(i, ps[..0])) == Carry([])
    ensures Scan(judge, Row(list[..0], pos)) == Carry([])
    ensures Scan(judge, PatternMajor(list[..0], ps)) == Carry([])
    ensures Scan(judge, PositionMajor(list, ps[..0])) == Carry([])
  {
    ScanEmpty(judge);
    assert Column(i, ps[..0]) == [] && Row(list[..0], pos) == [];
  }

  /** Attempts without any success can be skipped. */
  lemma {:induction false} SkipColumn(judge: Attempt -> PageResult, i: nat, ps: seq<nat>, k: nat, n: nat)
    requires k <= n <= |ps|
    requires forall j | k <= j < n :: judge(Attempt(i, ps[j])) == Carry([])
    ensures Scan(judge, Column(i, ps[..n])) == Scan(judge, Column(i, ps[..k]))
  {
    hide Scan, Column;
    if k < n {
      SkipColumn(judge, i, ps, k, n - 1);
      ColumnTake(judge, i, ps, n - 1);
      var before := Scan(judge, Column(i, ps[..n - 1]));
      if before.Carry? {
        assert before.pms + [] == before.pms;
      }
    }
  }

  lemma RestOfColumn(judge: Attempt -> PageResult, i: nat, ps: seq<nat>, k: nat)
    requires k <= |ps| && Scan(judge, Column(i, ps[..k])).Hit?
    ensures Scan(judge, Column(i, ps)) == Scan(judge, Column(i, ps[..k]))
  {
    assert Column(i, ps) == Column(i, ps[..k]) + Column(i, ps[k..]);
    HitStays(judge, Column(i, ps[..k]), Column(i, ps[k..]));
  }

  lemma RestOfRow(judge: Attempt -> PageResult, list: seq<nat>, k: nat, pos: nat)
    requires k <= |list| && Scan(judge, Row(list[..k], pos)).Hit?
    ensures Scan(judge, Row(list, pos)) == Scan(judge, Row(list[..k], pos))
  {
    assert Row(list, pos) == Row(list[..k], pos) + Row(list[k..], pos);
    HitStays(judge, Row(list[..k], pos), Row(list[k..], pos));
  }

  lemma {:induction false} RestOfPatterns(judge: Attempt -> PageResult, list: seq<nat>, k: nat, ps: seq<nat>)
    requires k <= |list| && Scan(judge, PatternMajor(list[..k], ps)).Hit?
    ensures Scan(judge, PatternMajor(list, ps)) == Scan(judge, PatternMajor(list[..k], ps))
  {
    hide Scan, PatternMajor;
    if k < |list| {
      var n := |list| - 1;
      assert list[..n][..k] == list[..k];
      RestOfPatterns(judge, list[..n], k, ps);
      assert list[..n + 1] == list;
      PatternTake(judge, list, n, ps);
    } else {
      assert list[..k] == list;
    }
  }

  lemma {:induction false} RestOfPositions(judge: Attempt -> PageResult, list: seq<nat>, ps: seq<nat>, k: nat)
    requires k <= |ps| && Scan(judge, PositionMajor(list, ps[..k])).Hit?
    ensures Scan(judge, PositionMajor(list, ps)) == Scan(judge, PositionMajor(list, ps[..k]))
  {
    hide Scan, PositionMajor;
    if k < |ps| {
      var n := |ps| - 1;
      assert ps[..n][..k] == ps[..k];
      RestOfPositions(judge, list, ps[..n], k);
      assert ps[..n + 1] == ps;
      PositionTake(judge, list, ps, n);
    } else {
      assert ps[..k] == ps;
    }
  }

  lemma {:induction false} PositionMajorEmpty(ps: seq<nat>)
    ensures PositionMajor([], ps) == []
  {
    if ps != [] {
      PositionMajorEmpty(ps[..|ps| - 1]);
    }
  }
}
