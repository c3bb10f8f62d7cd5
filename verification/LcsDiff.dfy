/** The difference of two vectors: the table is filled in place, then followed
    backwards to an edit script that is kept as runs of equal actions. */
module LcsDiff {
  import opened LcsTable

  datatype Action = Eq | Add | Sub

  datatype Edit<T> = Edit(action: Action, item: T)

  /** A portion of the result. */
  datatype Part<T> = Part(action: Action, items: seq<T>)

  // ------------------------------------------------------------------ scripts

  /** The items of the old vector that a script walks over. */
  ghost function OldOf<T>(s: seq<Edit<T>>): seq<T> {
    if s == [] then []
    else
      var e := s[|s| - 1];
      OldOf(s[..|s| - 1]) + if e.action == Add then [] else [e.item]
  }

  /** The items of the new vector that a script produces. */
  ghost function NewOf<T>(s: seq<Edit<T>>): seq<T> {
    if s == [] then []
    else
      var e := s[|s| - 1];
      NewOf(s[..|s| - 1]) + if e.action == Sub then [] else [e.item]
  }

  /** The items that a script keeps. */
  ghost function Kept<T>(s: seq<Edit<T>>): seq<T> {
    if s == [] then []
    else
      var e := s[|s| - 1];
      Kept(s[..|s| - 1]) + if e.action == Eq then [e.item] else []
  }

  /** The number of additions and removals. */
  ghost function Cost<T>(s: seq<Edit<T>>): nat {
    if s == [] then 0 else Cost(s[..|s| - 1]) + if s[|s| - 1].action == Eq then 0 else 1
  }

  /** The script turns `x` into `y`. */
  ghost predicate Transforms<T>(s: seq<Edit<T>>, x: seq<T>, y: seq<T>) {
    OldOf(s) == x && NewOf(s) == y
  }

  /** The script that the backward walk follows. */
  ghost function Script<T>(x: seq<T>, y: seq<T>, i: nat, j: nat): seq<Edit<T>>
    requires i <= |x| && j <= |y|
    decreases i + j
  {
    if i == 0 && j == 0 then []
    else if i == 0 then Script(x, y, i, j - 1) + [Edit(Add, y[j - 1])]
    else if j == 0 then Script(x, y, i - 1, j) + [Edit(Sub, x[i - 1])]
    else if x[i - 1] == y[j - 1] then Script(x, y, i - 1, j - 1) + [Edit(Eq, x[i - 1])]
    else if Lcs(x, y, i - 1, j) <= Lcs(x, y, i, j - 1) then Script(x, y, i, j - 1) + [Edit(Add, y[j - 1])]
    else Script(x, y, i - 1, j) + [Edit(Sub, x[i - 1])]
  }

  lemma ScriptEnd<T>(x: seq<T>, y: seq<T>)
    ensures Script(x, y, 0, 0) == []
  {
  }

  lemma Snoc<T>(s: seq<Edit<T>>, e: Edit<T>)
    ensures OldOf(s + [e]) == OldOf(s) + if e.action == Add then [] else [e.item]
    ensures NewOf(s + [e]) == NewOf(s) + if e.action == Sub then [] else [e.item]
    ensures Kept(s + [e]) == Kept(s) + if e.action == Eq then [e.item] else []
    ensures Cost(s + [e]) == Cost(s) + if e.action == Eq then 0 else 1
  {
    assert (s + [e])[..|s|] == s;
  }

  /** One step of the backward walk, whose edit ends the script so far and
      begins the part that has been collected. */
  lemma ScriptMoves<T>(x: seq<T>, y: seq<T>, i: nat, j: nat, i': nat, j': nat, e: Edit<T>, done: seq<Edit<T>>)
    requires i <= |x| && j <= |y| && 0 < i + j
    requires i' == (if e.action == Add then i else i - 1) && j' == (if e.action == Sub then j else j - 1)
    requires e.item == if e.action == Add then y[j'] else x[i']
    requires e.action ==
             if i == 0 then Add else if j == 0 then Sub else if x[i - 1] == y[j - 1] then Eq
             else if Lcs(x, y, i - 1, j) <= Lcs(x, y, i, j - 1) then Add else Sub
    ensures Script(x, y, i, j) + Reverse(done) == Script(x, y, i', j') + Reverse(done + [e])
  {
    hide Reverse, Lcs;
    ReverseSnoc(done, e);
    assert Script(x, y, i, j) == Script(x, y, i', j') + [e];
    hide Script;
    assert Script(x, y, i', j') + [e] + Reverse(done) == Script(x, y, i', j') + ([e] + Reverse(done));
  }

  /** The last step of the script, as one of three cases. */
  lemma ScriptStep<T>(x: seq<T>, y: seq<T>, i: nat, j: nat) returns (i': nat, j': nat, e: Edit<T>)
    requires i <= |x| && j <= |y| && 0 < i + j
    ensures i' <= i && j' <= j && i' + j' < i + j
    ensures Script(x, y, i, j) == Script(x, y, i', j') + [e]
    ensures match e.action
            case Eq => i == i' + 1 && j == j' + 1 && e.item == x[i'] == y[j']
                && Lcs(x, y, i, j) == Lcs(x, y, i', j') + 1
            case Add => i == i' && j == j' + 1 && e.item == y[j'] && Lcs(x, y, i, j) == Lcs(x, y, i', j')
            case Sub => i == i' + 1 && j == j' && e.item == x[i'] && Lcs(x, y, i, j) == Lcs(x, y, i', j')
  {
    if i > 0 && j > 0 && x[i - 1] == y[j - 1] {
      i', j', e := i - 1, j - 1, Edit(Eq, x[i - 1]);
    } else if i == 0 || (j > 0 && Lcs(x, y, i - 1, j) <= Lcs(x, y, i, j - 1)) {
      i', j', e := i, j - 1, Edit(Add, y[j - 1]);
    } else {
      i', j', e := i - 1, j, Edit(Sub, x[i - 1]);
    }
  }

  /** The script does its job and keeps as many items as the table says. */
  lemma {:induction false} ScriptTransforms<T>(x: seq<T>, y: seq<T>, i: nat, j: nat)
    requires i <= |x| && j <= |y|
    ensures Transforms(Script(x, y, i, j), x[..i], y[..j])
    ensures |Kept(Script(x, y, i, j))| == Lcs(x, y, i, j)
    decreases i + j
  {
    if 0 < i + j {
      hide Script, Lcs, OldOf, NewOf, Kept;
      var i', j', e := ScriptStep(x, y, i, j);
      ScriptTransforms(x, y, i', j');
      Snoc(Script(x, y, i', j'), e);
      if e.action != Add {
        assert x[..i] == x[..i'] + [x[i']];
      }
      if e.action != Sub {
        assert y[..j] == y[..j'] + [y[j']];
      }
    }
  }

  /** What a script keeps is a common subsequence of what it relates. */
  lemma {:induction false} KeptEmbeds<T>(s: seq<Edit<T>>) returns (f: seq<nat>, g: seq<nat>)
    ensures Embeds(Kept(s), OldOf(s), f) && Embeds(Kept(s), NewOf(s), g)
  {
    f, g := [], [];
    if s != [] {
      var n := |s| - 1;
      var e := s[n];
      f, g := KeptEmbeds(s[..n]);
      assert s == s[..n] + [e];
      Snoc(s[..n], e);
      hide OldOf, NewOf, Kept;
      match e.action {
        case Eq =>
          EmbedsMore(Kept(s[..n]), OldOf(s[..n]), f, e.item);
          EmbedsMore(Kept(s[..n]), NewOf(s[..n]), g, e.item);
          f, g := f + [|OldOf(s[..n])|], g + [|NewOf(s[..n])|];
        case Add =>
          EmbedsMore(Kept(s[..n]), NewOf(s[..n]), g, e.item);
          assert OldOf(s) == OldOf(s[..n]) && Kept(s) == Kept(s[..n]);
        case Sub =>
          EmbedsMore(Kept(s[..n]), OldOf(s[..n]), f, e.item);
          assert NewOf(s) == NewOf(s[..n]) && Kept(s) == Kept(s[..n]);
      }
    }
  }

  lemma EmbedsMore<T>(s: seq<T>, x: seq<T>, f: seq<nat>, v: T)
    requires Embeds(s, x, f)
    ensures Embeds(s, x + [v], f) && Embeds(s + [v], x + [v], f + [|x|])
  {
  }

  /** Every script costs the items of both sides that it does not keep. */
  lemma {:induction false} CostCounts<T>(s: seq<Edit<T>>)
    ensures Cost(s) == |OldOf(s)| + |NewOf(s)| - 2 * |Kept(s)|
  {
    if s != [] {
      CostCounts(s[..|s| - 1]);
    }
  }

  /** No script between the two vectors has fewer additions and removals. */
  lemma ScriptIsMinimal<T>(x: seq<T>, y: seq<T>, i: nat, j: nat, other: seq<Edit<T>>)
    requires i <= |x| && j <= |y| && Transforms(other, x[..i], y[..j])
    ensures Cost(Script(x, y, i, j)) <= Cost(other)
  {
    ScriptTransforms(x, y, i, j);
    var f, g := KeptEmbeds(other);
    LcsUpper(x, y, i, j, Kept(other), f, g);
    CostCounts(Script(x, y, i, j));
    CostCounts(other);
  }

  // ------------------------------------------------- which script it is

  /** Seen from their ends, the scripts first differ at the k-th edit, and there
      `s` keeps an item or `other` removes one. */
  ghost predicate Preferred<T>(s: seq<Edit<T>>, other: seq<Edit<T>>, k: nat) {
    && k < |s| && k < |other|
    && s[|s| - k..] == other[|other| - k..]
    && var a, b := s[|s| - 1 - k].action, other[|other| - 1 - k].action;
       a != b && (a == Eq || b == Sub)
  }

  lemma PreferredBefore<T>(s: seq<Edit<T>>, other: seq<Edit<T>>, e: Edit<T>, k: nat)
    requires Preferred(s, other, k)
    ensures Preferred(s + [e], other + [e], k + 1)
  {
    assert (s + [e])[|s| + 1 - (k + 1)..] == s[|s| - k..] + [e];
    assert (other + [e])[|other| + 1 - (k + 1)..] == other[|other| - k..] + [e];
  }

  /** Of all scripts with the fewest additions and removals it is the one that,
      from the end, keeps an item if it can, and otherwise adds one if it can. */
  lemma {:induction false} ScriptIsPreferred<T>(x: seq<T>, y: seq<T>, i: nat, j: nat, other: seq<Edit<T>>)
    returns (k: nat)
    requires i <= |x| && j <= |y| && Transforms(other, x[..i], y[..j])
    requires Cost(other) <= Cost(Script(x, y, i, j)) && other != Script(x, y, i, j)
    ensures Preferred(Script(x, y, i, j), other, k)
    decreases i + j
  {
    hide Script, Lcs, OldOf, NewOf, Kept, Cost, Preferred;
    NotEmpty(x, y, i, j, other);
    var i', j', e := ScriptStep(x, y, i, j);
    var s', o', o := Script(x, y, i', j'), other[..|other| - 1], other[|other| - 1];
    assert other == o' + [o];
    Snoc(s', e);
    Snoc(o', o);
    LastItems(x, y, i, j, o', o);
    if 0 < i && 0 < j {
      LastChoice(x, y, i, j);
    }
    if o.action == e.action {
      assert o == e;
      k := ScriptIsPreferred(x, y, i', j', o');
      PreferredBefore(s', o', e, k);
      k := k + 1;
    } else {
      if o.action == Add && e.action == Sub {
        TooFewKept(x, y, i, j, other);
      }
      k := 0;
      assert Preferred(s' + [e], other, 0) by { DifferentEnds(s', e, o', o); }
    }
  }

  /** Which case is taken when both vectors have items left. */
  lemma LastChoice<T>(x: seq<T>, y: seq<T>, i: nat, j: nat)
    requires 0 < i <= |x| && 0 < j <= |y|
    ensures var s := Script(x, y, i, j);
            && s != []
            && s[|s| - 1].action ==
               if x[i - 1] == y[j - 1] then Eq
               else if Lcs(x, y, i - 1, j) <= Lcs(x, y, i, j - 1) then Add else Sub
  {
    hide Lcs;
  }

  lemma DifferentEnds<T>(s: seq<Edit<T>>, e: Edit<T>, other: seq<Edit<T>>, o: Edit<T>)
    requires e.action != o.action && (e.action == Eq || o.action == Sub)
    ensures Preferred(s + [e], other + [o], 0)
  {
  }

  /** Two different scripts with the same effect have a last edit each. */
  lemma NotEmpty<T>(x: seq<T>, y: seq<T>, i: nat, j: nat, other: seq<Edit<T>>)
    requires i <= |x| && j <= |y| && Transforms(other, x[..i], y[..j])
    requires Cost(other) <= Cost(Script(x, y, i, j)) && other != Script(x, y, i, j)
    ensures 0 < i + j && other != []
  {
    if other != [] {
      assert other == other[..|other| - 1] + [other[|other| - 1]];
      Snoc(other[..|other| - 1], other[|other| - 1]);
    }
  }

  /** What the last edit of a script does to the vectors. */
  lemma LastItems<T>(x: seq<T>, y: seq<T>, i: nat, j: nat, s: seq<Edit<T>>, e: Edit<T>)
    requires i <= |x| && j <= |y| && Transforms(s + [e], x[..i], y[..j])
    ensures e.action != Add ==> 0 < i && e.item == x[i - 1]
    ensures e.action != Sub ==> 0 < j && e.item == y[j - 1]
    ensures Transforms(s, x[..if e.action == Add then i else i - 1], y[..if e.action == Sub then j else j - 1])
  {
    hide OldOf, NewOf;
    Snoc(s, e);
    if e.action != Add {
      assert x[..i] == x[..i - 1] + [x[i - 1]];
    }
    if e.action != Sub {
      assert y[..j] == y[..j - 1] + [y[j - 1]];
    }
  }

  /** A script that ends with an addition is not minimal where the table is
      smaller to the left. */
  lemma TooFewKept<T>(x: seq<T>, y: seq<T>, i: nat, j: nat, other: seq<Edit<T>>)
    requires i <= |x| && 0 < j <= |y| && other != [] && other[|other| - 1].action == Add
    requires Transforms(other, x[..i], y[..j]) && Lcs(x, y, i, j - 1) < Lcs(x, y, i, j)
    ensures Cost(Script(x, y, i, j)) < Cost(other)
  {
    hide Script, Lcs, OldOf, NewOf, Kept, Cost;
    var o', o := other[..|other| - 1], other[|other| - 1];
    assert other == o' + [o];
    Snoc(o', o);
    LastItems(x, y, i, j, o', o);
    ScriptIsMinimal(x, y, i, j - 1, o');
    ScriptTransforms(x, y, i, j);
    ScriptTransforms(x, y, i, j - 1);
    CostCounts(Script(x, y, i, j));
    CostCounts(Script(x, y, i, j - 1));
  }

  /** No removal comes right after an addition. */
  ghost predicate InOrder<T>(s: seq<Edit<T>>) {
    forall k: nat | k + 1 < |s| :: s[k].action == Add ==> s[k + 1].action != Sub
  }

  lemma LcsGrows<T>(x: seq<T>, y: seq<T>, i: nat, j: nat)
    requires i < |x| && j <= |y|
    ensures Lcs(x, y, i, j) <= Lcs(x, y, i + 1, j)
  {
    hide Lcs;
    var s, f, g := LcsWitness(x, y, i, j);
    LcsUpper(x, y, i + 1, j, s, f, g);
  }

  /** Between two items that are kept all removals come before all additions. */
  lemma {:induction false} RemovalsFirst<T>(x: seq<T>, y: seq<T>, i: nat, j: nat, k: nat)
    requires i <= |x| && j <= |y| && k + 1 < |Script(x, y, i, j)|
    ensures Script(x, y, i, j)[k].action == Add ==> Script(x, y, i, j)[k + 1].action != Sub
    decreases i + j
  {
    hide Script;
    ScriptEnd(x, y);
    var s := Script(x, y, i, j);
    var i', j', e := ScriptStep(x, y, i, j);
    if k + 1 < |s| - 1 {
      RemovalsFirst(x, y, i', j', k);
    } else if e.action == Sub && s[k].action == Add {
      var i'', j'', e' := ScriptStep(x, y, i', j');
      LastChoice(x, y, i, j);
      if 0 < i' {
        LastChoice(x, y, i', j);
        LcsGrows(x, y, i', j - 1);
      }
    }
  }

  lemma ScriptInOrder<T>(x: seq<T>, y: seq<T>, i: nat, j: nat)
    requires i <= |x| && j <= |y|
    ensures InOrder(Script(x, y, i, j))
  {
    forall k: nat | k + 1 < |Script(x, y, i, j)|
      ensures Script(x, y, i, j)[k].action == Add ==> Script(x, y, i, j)[k + 1].action != Sub
    {
      RemovalsFirst(x, y, i, j, k);
    }
  }

  // --------------------------------------------------------------------- runs

  ghost function EditsOf<T>(p: Part<T>): seq<Edit<T>> {
    seq(|p.items|, k requires 0 <= k < |p.items| => Edit(p.action, p.items[k]))
  }

  /** The script that a list of parts stands for. */
  ghost function Flatten<T>(parts: seq<Part<T>>): seq<Edit<T>> {
    if parts == [] then [] else Flatten(parts[..|parts| - 1]) + EditsOf(parts[|parts| - 1])
  }

  /** Parts are not empty and as long as possible. */
  ghost predicate MaximalRuns<T>(parts: seq<Part<T>>) {
    && (forall k | 0 <= k < |parts| :: parts[k].items != [])
    && (forall k | 0 < k < |parts| :: parts[k - 1].action != parts[k].action)
  }

  /** No part that adds is followed by one that removes. */
  ghost predicate RemovalsBeforeAdditions<T>(parts: seq<Part<T>>) {
    forall k | 0 < k < |parts| :: parts[k - 1].action == Add ==> parts[k].action != Sub
  }

  lemma OrderOfTwo<T>(a: seq<Edit<T>>, b: seq<Edit<T>>)
    requires InOrder(a + b)
    ensures InOrder(a)
    ensures a != [] && b != [] && a[|a| - 1].action == Add ==> b[0].action != Sub
  {
    var s := a + b;
    forall k: nat | k + 1 < |a| ensures a[k].action == Add ==> a[k + 1].action != Sub {
      assert s[k] == a[k] && s[k + 1] == a[k + 1];
    }
    if a != [] && b != [] {
      assert s[|a| - 1] == a[|a| - 1] && s[|a| - 1 + 1] == b[0];
    }
  }

  lemma LastEdit<T>(parts: seq<Part<T>>)
    requires MaximalRuns(parts) && parts != []
    ensures var s := Flatten(parts); s != [] && s[|s| - 1].action == parts[|parts| - 1].action
  {
    var p := parts[|parts| - 1];
    assert EditsOf(p)[|p.items| - 1].action == p.action;
  }

  lemma {:induction false} PartsInOrder<T>(parts: seq<Part<T>>)
    requires MaximalRuns(parts) && InOrder(Flatten(parts))
    ensures RemovalsBeforeAdditions(parts)
  {
    if 1 < |parts| {
      var n := |parts| - 1;
      assert Flatten(parts) == Flatten(parts[..n]) + EditsOf(parts[n]);
      hide Flatten, InOrder;
      OrderOfTwo(Flatten(parts[..n]), EditsOf(parts[n]));
      PartsInOrder(parts[..n]);
      LastEdit(parts[..n]);
      forall k | 0 < k < |parts| ensures parts[k - 1].action == Add ==> parts[k].action != Sub {
        assert k < n ==> parts[..n][k - 1] == parts[k - 1] && parts[..n][k] == parts[k];
      }
    }
  }

  function Reverse<A>(s: seq<A>): (r: seq<A>)
    ensures |r| == |s|
    ensures forall k | 0 <= k < |s| :: r[k] == s[|s| - 1 - k]
  {
    if s == [] then [] else [s[|s| - 1]] + Reverse(s[..|s| - 1])
  }

  function ReverseItems<T>(p: Part<T>): Part<T> {
    p.(items := Reverse(p.items))
  }

  /** The parts in reverse order, each with its items reversed. */
  function Mirror<T>(parts: seq<Part<T>>): (r: seq<Part<T>>)
    ensures |r| == |parts|
    ensures forall k | 0 <= k < |parts| :: r[k] == ReverseItems(parts[|parts| - 1 - k])
  {
    if parts == [] then [] else [ReverseItems(parts[|parts| - 1])] + Mirror(parts[..|parts| - 1])
  }

  lemma FlattenSnoc<T>(parts: seq<Part<T>>, p: Part<T>)
    ensures Flatten(parts + [p]) == Flatten(parts) + EditsOf(p)
  {
    assert (parts + [p])[..|parts|] == parts;
  }

  lemma FlattenExtend<T>(front: seq<Part<T>>, p: Part<T>, v: T)
    ensures Flatten(front + [p.(items := p.items + [v])]) == Flatten(front + [p]) + [Edit(p.action, v)]
  {
    var p' := p.(items := p.items + [v]);
    FlattenSnoc(front, p);
    FlattenSnoc(front, p');
    assert EditsOf(p') == EditsOf(p) + [Edit(p.action, v)];
  }

  lemma FlattenNew<T>(parts: seq<Part<T>>, action: Action, v: T)
    ensures Flatten(parts + [Part(action, [] + [v])]) == Flatten(parts) + [Edit(action, v)]
  {
    FlattenSnoc(parts, Part(action, [v]));
    assert EditsOf(Part(action, [v])) == [Edit(action, v)];
    assert [] + [v] == [v];
  }

  lemma {:induction false} FlattenCons<T>(p: Part<T>, parts: seq<Part<T>>)
    ensures Flatten([p] + parts) == EditsOf(p) + Flatten(parts)
  {
    hide EditsOf;
    if parts == [] {
      assert [p] + parts == [] + [p];
      FlattenSnoc([], p);
      assert Flatten<T>([]) == [];
    } else {
      hide Flatten;
      var n := |parts| - 1;
      var last := parts[n];
      assert parts == parts[..n] + [last];
      assert [p] + parts == ([p] + parts[..n]) + [last];
      FlattenSnoc([p] + parts[..n], last);
      FlattenSnoc(parts[..n], last);
      FlattenCons(p, parts[..n]);
    }
  }

  lemma NothingYet<T>()
    ensures Flatten<T>([]) == [] && MaximalRuns<T>([]) && Reverse<Edit<T>>([]) == []
  {
  }

  lemma ReverseSnoc<A>(s: seq<A>, v: A)
    ensures Reverse(s + [v]) == [v] + Reverse(s)
  {
  }

  lemma ReverseConcat<A>(a: seq<A>, b: seq<A>)
    ensures Reverse(a + b) == Reverse(b) + Reverse(a)
  {
  }

  /** Reversing the parts and their items reverses the script. */
  lemma {:induction false} MirrorReverses<T>(parts: seq<Part<T>>)
    ensures Flatten(Mirror(parts)) == Reverse(Flatten(parts))
  {
    if parts != [] {
      var n := |parts| - 1;
      var last := parts[n];
      MirrorReverses(parts[..n]);
      FlattenCons(ReverseItems(last), Mirror(parts[..n]));
      assert EditsOf(ReverseItems(last)) == Reverse(EditsOf(last));
      ReverseConcat(Flatten(parts[..n]), EditsOf(last));
    }
  }

  lemma MirrorKeepsRuns<T>(parts: seq<Part<T>>)
    requires MaximalRuns(parts)
    ensures MaximalRuns(Mirror(parts))
  {
    var r := Mirror(parts);
    forall k | 0 < k < |r|
      ensures r[k - 1].action != r[k].action
    {
      assert parts[|parts| - 1 - k].action != parts[|parts| - 1 - (k - 1)].action;
    }
  }

  /** Where the last run of a script begins. */
  ghost predicate LastRun<T>(s: seq<Edit<T>>, p: Part<T>) {
    && 0 < |p.items| <= |s|
    && s[|s| - |p.items|..] == EditsOf(p)
    && (|p.items| < |s| ==> s[|s| - |p.items| - 1].action != p.action)
  }

  lemma LastPartIsLastRun<T>(a: seq<Part<T>>)
    requires MaximalRuns(a) && a != []
    ensures LastRun(Flatten(a), a[|a| - 1])
    ensures Flatten(a[..|a| - 1]) == Flatten(a)[..|Flatten(a)| - |a[|a| - 1].items|]
  {
    if |a| > 1 {
      var before := a[..|a| - 1];
      var edits := EditsOf(before[|before| - 1]);
      assert Flatten(before)[|Flatten(before)| - 1] == edits[|edits| - 1];
    }
  }

  lemma LastRunNotShorter<T>(s: seq<Edit<T>>, p: Part<T>, q: Part<T>)
    requires LastRun(s, p) && LastRun(s, q)
    ensures |q.items| <= |p.items|
  {
    var run, run' := s[|s| - |p.items|..], s[|s| - |q.items|..];
    assert run[|run| - 1] == s[|s| - 1] == run'[|run'| - 1];
    assert forall k | |s| - |q.items| <= k < |s| :: s[k] == run'[k - (|s| - |q.items|)];
  }

  lemma LastRunUnique<T>(s: seq<Edit<T>>, p: Part<T>, q: Part<T>)
    requires LastRun(s, p) && LastRun(s, q)
    ensures p == q
  {
    LastRunNotShorter(s, p, q);
    LastRunNotShorter(s, q, p);
    hide EditsOf;
    EditsDetermine(p, q);
  }

  lemma EditsDetermine<T>(p: Part<T>, q: Part<T>)
    requires EditsOf(p) == EditsOf(q) && p.items != []
    ensures p == q
  {
    assert |EditsOf(p)| == |p.items| && |EditsOf(q)| == |q.items|;
    assert EditsOf(p)[0].action == p.action && EditsOf(q)[0].action == q.action;
    forall k | 0 <= k < |p.items|
      ensures p.items[k] == q.items[k]
    {
      assert EditsOf(p)[k].item == EditsOf(q)[k].item;
    }
  }

  /** A script has only one division into maximal runs. */
  lemma {:induction false} RunsAreUnique<T>(a: seq<Part<T>>, b: seq<Part<T>>)
    requires MaximalRuns(a) && MaximalRuns(b) && Flatten(a) == Flatten(b)
    ensures a == b
  {
    if a != [] {
      LastPartIsLastRun(a);
    }
    if b != [] {
      LastPartIsLastRun(b);
    }
    if a != [] && b != [] {
      LastRunUnique(Flatten(a), a[|a| - 1], b[|b| - 1]);
      RunsAreUnique(a[..|a| - 1], b[..|b| - 1]);
    }
  }

  // ---------------------------------------------------------------- the table

  /** The place of a cell in the table, row by row. */
  function Index(m: nat, i: nat, j: nat): nat {
    i * (m + 1) + j
  }

  lemma IndexInBounds(n: nat, m: nat, i: nat, j: nat)
    requires i <= n && j <= m
    ensures Index(m, i, j) < (n + 1) * (m + 1)
  {
    assert i * (m + 1) <= n * (m + 1);
  }

  lemma IndexInjective(m: nat, i: nat, j: nat, a: nat, b: nat)
    requires j <= m && b <= m && (i != a || j != b)
    ensures Index(m, i, j) != Index(m, a, b)
  {
    if i < a {
      assert (i + 1) * (m + 1) <= a * (m + 1);
    } else if a < i {
      assert (a + 1) * (m + 1) <= i * (m + 1);
    }
  }

  /** The recurrence, one cell at a time. */
  lemma LcsCases<T>(x: seq<T>, y: seq<T>, i: nat, j: nat)
    requires i <= |x| && j <= |y|
    ensures Lcs(x, y, i, j) ==
            if i == 0 || j == 0 then 0
            else if x[i - 1] == y[j - 1] then 1 + Lcs(x, y, i - 1, j - 1)
            else Max(Lcs(x, y, i - 1, j), Lcs(x, y, i, j - 1))
  {
  }

  class LcsDiff<T(==,!new)> {
    const x: seq<T>
    const y: seq<T>
    const n: nat
    const m: nat
    const lcsTable: array<nat>
    var result: seq<Part<T>>

    /** The cells before (i, j), row by row, hold the recurrence. */
    ghost predicate FilledUpTo(i: nat, j: nat)
      reads lcsTable
    {
      && n <= |x| && m <= |y| && lcsTable.Length == (n + 1) * (m + 1)
      && forall a: nat, b: nat | a <= n && b <= m && (a < i || (a == i && b < j)) ::
           Index(m, a, b) < lcsTable.Length && lcsTable[Index(m, a, b)] == Lcs(x, y, a, b)
    }

    ghost predicate Valid()
      reads this, lcsTable
    {
      FilledUpTo(n + 1, 0)
    }

    constructor (x: seq<T>, y: seq<T>, n: nat, m: nat)
      requires n <= |x| && m <= |y|
      ensures Valid() && fresh(lcsTable) && this.x == x && this.y == y && this.n == n && this.m == m
      ensures result == []
    {
      hide Lcs, Index, FilledUpTo;
      this.x, this.y, this.n, this.m := x, y, n, m;
      lcsTable := new nat[(n + 1) * (m + 1)];
      result := [];
      new;
      NothingFilled();
      for i := 0 to n + 1
        invariant FilledUpTo(i, 0) && result == []
      {
        for j := 0 to m + 1
          invariant FilledUpTo(i, j) && result == [] && (j == m + 1 ==> FilledUpTo(i + 1, 0))
        {
          FillCell(i, j);
        }
      }
    }

    /** The body of the constructor's loops: one cell from its neighbours. */
    method FillCell(i: nat, j: nat)
      requires i <= n && j <= m && FilledUpTo(i, j)
      modifies lcsTable
      ensures FilledUpTo(i, j + 1) && (j == m ==> FilledUpTo(i + 1, 0))
    {
      hide Lcs, Index, FilledUpTo;
      assert n <= |x| && m <= |y| by { FilledFits(i, j); }
      LcsCases(x, y, i, j);
      var value;
      if i == 0 || j == 0 {
        value := 0;
      } else if x[i - 1] == y[j - 1] {
        var t := Table(i - 1, j - 1, i, j);
        value := 1 + t;
      } else {
        var l := Table(i - 1, j, i, j);
        var u := Table(i, j - 1, i, j);
        value := Max(l, u);
      }
      SetTable(i, j, value);
    }

    lemma NothingFilled()
      requires n <= |x| && m <= |y| && lcsTable.Length == (n + 1) * (m + 1)
      ensures FilledUpTo(0, 0)
    {
    }

    lemma FilledFits(i: nat, j: nat)
      requires FilledUpTo(i, j)
      ensures n <= |x| && m <= |y|
    {
    }

    /** Reads a cell that has been filled. */
    method Table(i: nat, j: nat, ghost upI: nat, ghost upJ: nat) returns (value: nat)
      requires i <= n && j <= m && FilledUpTo(upI, upJ) && (i < upI || (i == upI && j < upJ))
      ensures value == Lcs(x, y, i, j)
    {
      IndexInBounds(n, m, i, j);
      value := lcsTable[Index(m, i, j)];
    }

    method SetTable(i: nat, j: nat, value: nat)
      requires i <= n && j <= m && FilledUpTo(i, j) && value == Lcs(x, y, i, j)
      modifies lcsTable
      ensures FilledUpTo(i, j + 1) && (j == m ==> FilledUpTo(i + 1, 0))
    {
      IndexInBounds(n, m, i, j);
      lcsTable[Index(m, i, j)] := value;
      forall a: nat, b: nat | a <= n && b <= m && (a < i || (a == i && b < j))
        ensures lcsTable[Index(m, a, b)] == Lcs(x, y, a, b)
      {
        IndexInjective(m, i, j, a, b);
      }
    }

    /** Every cell of the filled table is the length of a longest common
        subsequence of the two prefixes that it stands for. */
    lemma TableIsLongest(i: nat, j: nat)
      requires Valid() && i <= n && j <= m
      ensures Index(m, i, j) < lcsTable.Length && LongestCommon(x[..i], y[..j], lcsTable[Index(m, i, j)])
    {
      LcsIsLongest(x, y, i, j);
    }

    /** Appends an item with its action, as part of the last run if it fits. */
    method SetAction(wanted: Action, item: T)
      requires MaximalRuns(result)
      modifies this`result
      ensures MaximalRuns(result) && Flatten(result) == old(Flatten(result)) + [Edit(wanted, item)]
    {
      hide Flatten, EditsOf;
      if result == [] || result[|result| - 1].action != wanted {
        FlattenNew(result, wanted, item);
        result := result + [Part(wanted, [])];
      } else {
        FlattenExtend(result[..|result| - 1], result[|result| - 1], item);
        assert result[..|result| - 1] + [result[|result| - 1]] == result;
      }
      var last := |result| - 1;
      result := result[..last] + [result[last].(items := result[last].items + [item])];
    }

    /** Computes the edit script from x[..n] to y[..m], in maximal runs. */
    method Diff()
      requires Valid()
      modifies this`result
      ensures Flatten(result) == Script(x, y, n, m) && MaximalRuns(result)
      ensures Transforms(Flatten(result), x[..n], y[..m]) && |Kept(Flatten(result))| == Lcs(x, y, n, m)
      ensures forall other | Transforms(other, x[..n], y[..m]) :: Cost(Flatten(result)) <= Cost(other)
      ensures forall other | Transforms(other, x[..n], y[..m]) && Cost(other) <= Cost(Flatten(result)) ::
                other == Flatten(result) || exists k: nat :: Preferred(Flatten(result), other, k)
      ensures RemovalsBeforeAdditions(result)
    {
      hide Lcs, Flatten, MaximalRuns, Reverse, Script, Transforms, Kept, Cost, Preferred, RemovalsBeforeAdditions;
      ghost var whole := Script(x, y, n, m);
      result := [];
      NothingYet<T>();
      var i: nat, j: nat := n, m;
      while i != 0 || j != 0
        invariant i <= n && j <= m && MaximalRuns(result)
        invariant whole == Script(x, y, i, j) + Reverse(Flatten(result))
        decreases i + j
      {
        ghost var i0, j0, before := i, j, Flatten(result);
        ghost var edit;
        // end of one of the vectors reached
        if i == 0 {
          j := j - 1;
          SetAction(Add, y[j]);
          edit := Edit(Add, y[j]);
        } else if j == 0 {
          i := i - 1;
          SetAction(Sub, x[i]);
          edit := Edit(Sub, x[i]);
        } else if x[i - 1] == y[j - 1] {
          i := i - 1;
          SetAction(Eq, x[i]);
          edit := Edit(Eq, x[i]);
          j := j - 1;
        } else {
          var l := Table(i - 1, j, n + 1, 0);
          var u := Table(i, j - 1, n + 1, 0);
          if l <= u {
            j := j - 1;
            SetAction(Add, y[j]);
            edit := Edit(Add, y[j]);
          } else {
            i := i - 1;
            SetAction(Sub, x[i]);
            edit := Edit(Sub, x[i]);
          }
        }
        ScriptMoves(x, y, i0, j0, i, j, edit, before);
      }
      assert Script(x, y, 0, 0) == [] by {
        ScriptEnd(x, y);
      }
      assert whole == Reverse(Flatten(result));
      ReverseParts();
      ScriptTransforms(x, y, n, m);
      forall other | Transforms(other, x[..n], y[..m]) ensures Cost(Script(x, y, n, m)) <= Cost(other) {
        ScriptIsMinimal(x, y, n, m, other);
      }
      forall other | Transforms(other, x[..n], y[..m]) && Cost(other) <= Cost(whole) && other != whole
        ensures exists k: nat :: Preferred(whole, other, k)
      {
        var k := ScriptIsPreferred(x, y, n, m, other);
      }
      assert InOrder(whole) by { ScriptInOrder(x, y, n, m); }
      PartsInOrder(result);
    }

    /** Reverses the list of parts, then every part. */
    method ReverseParts()
      modifies this`result
      ensures Flatten(result) == Reverse(old(Flatten(result)))
      ensures old(MaximalRuns(result)) ==> MaximalRuns(result)
    {
      hide Flatten, MaximalRuns, Reverse, Mirror;
      MirrorReverses(result);
      if MaximalRuns(result) {
        MirrorKeepsRuns(result);
      }
      ghost var mirror := Mirror(result);
      result := Reverse(result);
      var k := 0;
      while k < |result|
        invariant 0 <= k <= |result| == |mirror|
        invariant forall h | 0 <= h < k :: result[h] == mirror[h]
        invariant forall h | k <= h < |result| :: ReverseItems(result[h]) == mirror[h]
      {
        result := result[k := ReverseItems(result[k])];
        k := k + 1;
      }
      assert result == mirror;
    }
  }
}
