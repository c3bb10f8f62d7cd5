/** Common subsequences, and the recurrence that computes how long they get. */
module LcsTable {

  /** `f` gives, in increasing order, the places of the items of `s` in `x`. */
  ghost predicate Embeds<T>(s: seq<T>, x: seq<T>, f: seq<nat>) {
    && |f| == |s|
    && (forall k | 0 <= k < |f| :: f[k] < |x| && s[k] == x[f[k]])
    && (forall a, b | 0 <= a < b < |f| :: f[a] < f[b])
  }

  ghost predicate Subsequence<T(!new)>(s: seq<T>, x: seq<T>) {
    exists f :: Embeds(s, x, f)
  }

  ghost predicate Common<T(!new)>(s: seq<T>, x: seq<T>, y: seq<T>) {
    Subsequence(s, x) && Subsequence(s, y)
  }

  /** `len` is the length of a longest common subsequence. */
  ghost predicate LongestCommon<T(!new)>(x: seq<T>, y: seq<T>, len: nat) {
    && (exists s :: Common(s, x, y) && |s| == len)
    && (forall s | Common(s, x, y) :: |s| <= len)
  }

  function Max(a: nat, b: nat): nat {
    if a < b then b else a
  }

  /** The recurrence for the first `i` items of `x` and the first `j` of `y`. */
  function Lcs<T(==)>(x: seq<T>, y: seq<T>, i: nat, j: nat): nat
    requires i <= |x| && j <= |y|
    decreases i + j
  {
    if i == 0 || j == 0 then 0
    else if x[i - 1] == y[j - 1] then 1 + Lcs(x, y, i - 1, j - 1)
    else Max(Lcs(x, y, i - 1, j), Lcs(x, y, i, j - 1))
  }

  /** One more item at the end. */
  lemma EmbedsSnoc<T>(s: seq<T>, x: seq<T>, f: seq<nat>, i: nat)
    requires i < |x| && Embeds(s, x[..i], f)
    ensures Embeds(s + [x[i]], x[..i + 1], f + [i])
  {
  }

  /** Without the last item, in a prefix that ends before its place. */
  lemma EmbedsInit<T>(s: seq<T>, x: seq<T>, f: seq<nat>, i: nat)
    requires s != [] && i <= |x| && Embeds(s, x[..i], f)
    ensures f[|f| - 1] < i
    ensures forall h: nat | f[|f| - 1] <= h < i :: Embeds(s[..|s| - 1], x[..h], f[..|f| - 1])
    ensures forall h: nat | f[|f| - 1] < h <= i :: Embeds(s, x[..h], f)
  {
    assert x[..i][f[|f| - 1]] == x[f[|f| - 1]];
  }

  /** No common subsequence is longer than the recurrence says. */
  lemma {:induction false} LcsUpper<T>(x: seq<T>, y: seq<T>, i: nat, j: nat, s: seq<T>, f: seq<nat>, g: seq<nat>)
    requires i <= |x| && j <= |y| && Embeds(s, x[..i], f) && Embeds(s, y[..j], g)
    ensures |s| <= Lcs(x, y, i, j)
    decreases i + j
  {
    if s != [] {
      EmbedsInit(s, x, f, i);
      EmbedsInit(s, y, g, j);
      var n := |s| - 1;
      if x[i - 1] == y[j - 1] {
        LcsUpper(x, y, i - 1, j - 1, s[..n], f[..n], g[..n]);
      } else if f[n] < i - 1 {
        LcsUpper(x, y, i - 1, j, s, f, g);
      } else {
        assert s[n] == x[..i][f[n]] == x[i - 1] && s[n] == y[..j][g[n]];
        LcsUpper(x, y, i, j - 1, s, f, g);
      }
    }
  }

  /** A common subsequence as long as the recurrence says. */
  lemma {:induction false} LcsWitness<T>(x: seq<T>, y: seq<T>, i: nat, j: nat)
    returns (s: seq<T>, f: seq<nat>, g: seq<nat>)
    requires i <= |x| && j <= |y|
    ensures Embeds(s, x[..i], f) && Embeds(s, y[..j], g) && |s| == Lcs(x, y, i, j)
    decreases i + j
  {
    if i == 0 || j == 0 {
      s, f, g := [], [], [];
    } else if x[i - 1] == y[j - 1] {
      s, f, g := LcsWitness(x, y, i - 1, j - 1);
      EmbedsSnoc(s, x, f, i - 1);
      EmbedsSnoc(s, y, g, j - 1);
      s, f, g := s + [x[i - 1]], f + [i - 1], g + [j - 1];
    } else if Lcs(x, y, i - 1, j) < Lcs(x, y, i, j - 1) {
      s, f, g := LcsWitness(x, y, i, j - 1);
      assert forall k | 0 <= k < |g| :: y[..j - 1][g[k]] == y[..j][g[k]];
    } else {
      s, f, g := LcsWitness(x, y, i - 1, j);
      assert forall k | 0 <= k < |f| :: x[..i - 1][f[k]] == x[..i][f[k]];
    }
  }

  /** The recurrence is the length of a longest common subsequence. */
  lemma LcsIsLongest<T(!new)>(x: seq<T>, y: seq<T>, i: nat, j: nat)
    requires i <= |x| && j <= |y|
    ensures LongestCommon(x[..i], y[..j], Lcs(x, y, i, j))
  {
    var s, f, g := LcsWitness(x, y, i, j);
    assert Common(s, x[..i], y[..j]);
    forall s | Common(s, x[..i], y[..j])
      ensures |s| <= Lcs(x, y, i, j)
    {
      var f :| Embeds(s, x[..i], f);
      var g :| Embeds(s, y[..j], g);
      LcsUpper(x, y, i, j, s, f, g);
    }
  }
}
