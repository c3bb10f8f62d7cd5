/** Finding the size of a remote file by reading single bytes of it. */
module ProbeFile {
  import opened Words

  /** The first value that an `int` cannot hold. */
  const INT_TOP: int := 0x8000_0000
  /** The first size that a file cannot have. */
  const SIZE_TOP: int := 0x8000_0000_0000_0000

  /** The value of an `int` that an unsigned 64-bit value is assigned to. */
  function Truncated(x: Word): int {
    var w := x % (2 * INT_TOP);
    if w < INT_TOP then w else w - 2 * INT_TOP
  }

  /** One byte can be read before offset `end`, seen as an unsigned number. */
  predicate Readable(size: nat, end: int) {
    Wrap(end - 1) < size
  }

  /** The bounds of the search: the file has at least `low` bytes. */
  datatype Bounds = Bounds(low: Word, high: Word) {
    predicate Done() {
      high <= low + 1
    }
  }

  /** One round of the search, with the middle held in an `int`. */
  function Round(size: nat, b: Bounds): Bounds {
    if b.Done() then b
    else
      var middle := Truncated(Wrap(b.high + b.low) / 2);
      if Readable(size, middle) then b.(low := Wrap(middle)) else b.(high := Wrap(middle))
  }

  function Rounds(size: nat, b: Bounds, n: nat): Bounds
    decreases n
  {
    if n == 0 then b else Rounds(size, Round(size, b), n - 1)
  }

  /** The search stops and answers `r`. */
  ghost predicate Answers(size: nat, b: Bounds, r: int) {
    exists n: nat :: Rounds(size, b, n).Done() && Rounds(size, b, n).low == r
  }

  /** The first power of two times `step` whose last byte cannot be read. */
  function Stage(size: nat, high: Word): (r: Word)
    requires 0 < high && size < SIZE_TOP
    ensures high <= r && !Readable(size, r)
    ensures r == high || r <= 2 * size
    decreases size - high
  {
    if Readable(size, high) then Stage(size, 2 * high) else high
  }

  function Doubled(step: nat, k: nat): nat {
    if k == 0 then step else 2 * Doubled(step, k - 1)
  }

  /** The least number of halvings that bring `gap` down to one. */
  function Halvings(gap: nat): nat {
    if gap <= 1 then 0 else 1 + Halvings((gap + 1) / 2)
  }

  /** That is the logarithm of the gap to base two, rounded up. */
  lemma {:induction false} HalvingsExact(gap: nat)
    ensures gap <= Doubled(1, Halvings(gap))
    ensures 1 < gap ==> 0 < Halvings(gap) && Doubled(1, Halvings(gap) - 1) < gap
    ensures gap <= 1 ==> Halvings(gap) == 0
  {
    if 2 < gap {
      HalvingsExact((gap + 1) / 2);
    }
  }

  lemma {:induction false} HalvingsGrow(a: nat, b: nat)
    requires a <= b
    ensures Halvings(a) <= Halvings(b)
  {
    if 1 < a {
      HalvingsGrow((a + 1) / 2, (b + 1) / 2);
    }
  }

  /** While the middle fits, a round keeps the size between the bounds and halves
      their distance. */
  lemma RoundHalves(size: nat, b: Bounds)
    requires b.low <= size < b.high <= INT_TOP && !b.Done()
    ensures var c := Round(size, b);
            c.low <= size < c.high <= b.high && Halvings(c.high - c.low) < Halvings(b.high - b.low)
  {
    hide Wrap, Truncated;
    MiddleFits(b);
    var c := Round(size, b);
    HalvingsGrow(c.high - c.low, (b.high - b.low + 1) / 2);
  }

  lemma MiddleFits(b: Bounds)
    requires b.high <= INT_TOP && !b.Done()
    ensures var middle := (b.high + b.low) / 2;
            && Truncated(Wrap(b.high + b.low) / 2) == middle
            && Wrap(middle) == middle && Wrap(middle - 1) == middle - 1
  {
    assert Wrap(b.high + b.low) == b.high + b.low;
  }

  /** While the middle fits, the search finds the size. */
  lemma {:induction false} SearchFinds(size: nat, b: Bounds)
    requires b.low <= size < b.high <= INT_TOP
    ensures var n := Halvings(b.high - b.low); Rounds(size, b, n).Done() && Rounds(size, b, n).low == size
    decreases Halvings(b.high - b.low)
  {
    hide Wrap, Truncated, Readable, Round;
    var n := Halvings(b.high - b.low);
    if b.Done() {
      StaysDone(size, b, n);
    } else {
      RoundHalves(size, b);
      var c := Round(size, b);
      var m := Halvings(c.high - c.low);
      SearchFinds(size, c);
      RoundsAdd(size, c, m, n - 1 - m);
      StaysDone(size, Rounds(size, c, m), n - 1 - m);
    }
  }

  lemma {:induction false} StaysDone(size: nat, b: Bounds, n: nat)
    requires b.Done()
    ensures Rounds(size, b, n) == b
  {
    if 0 < n {
      StaysDone(size, b, n - 1);
    }
  }

  lemma {:induction false} RoundsAdd(size: nat, b: Bounds, m: nat, n: nat)
    ensures Rounds(size, b, m + n) == Rounds(size, Rounds(size, b, m), n)
    decreases m
  {
    if 0 < m {
      RoundsAdd(size, Round(size, b), m - 1, n);
    }
  }

  /** However it goes, the lower bound is the first one or fits an `int`. */
  lemma {:induction false} LowFitsOrStays(size: nat, b: Bounds, n: nat)
    requires size < SIZE_TOP
    ensures var low := Rounds(size, b, n).low; low == b.low || low < INT_TOP
    decreases n
  {
    if 0 < n {
      LowFitsOrStays(size, Round(size, b), n - 1);
    }
  }

  /** Main result. The search from `b` answers the size of every file that leads
      to it, exactly when the upper bound is at most 2^31. */
  lemma ExactUpToIntTop(b: Bounds)
    requires b.low + 1 < b.high <= SIZE_TOP
    ensures (forall size: nat | b.low <= size < b.high :: Answers(size, b, size)) <==> b.high <= INT_TOP
  {
    if b.high <= INT_TOP {
      forall size: nat | b.low <= size < b.high ensures Answers(size, b, size) {
        SearchFinds(size, b);
      }
    } else {
      var size := b.high - 1;
      forall n: nat ensures Rounds(size, b, n).low != size {
        LowFitsOrStays(size, b, n);
      }
      assert !Answers(size, b, size);
    }
  }

  lemma ReadableMeans(size: nat, end: Word)
    requires size < SIZE_TOP
    ensures Readable(size, end) <==> 0 < end <= size
  {
    if end == 0 {
      assert Wrap(-1) == ADDRESS_SPACE - 1;
    }
  }

  /** The lower bound when the first loop ends after `k` doublings. */
  function LowAfter(step: nat, k: nat): nat {
    if k == 0 then 0 else Doubled(step, k - 1)
  }

  lemma {:induction false} DoubledGrows(step: nat, j: nat, k: nat)
    requires j <= k
    ensures Doubled(step, j) <= Doubled(step, k)
  {
    if j < k {
      DoubledGrows(step, j, k - 1);
    }
  }

  lemma {:induction false} StageAhead(size: nat, step: Word, j: nat, k: nat)
    requires 0 < step && size < SIZE_TOP && j <= k && Doubled(step, k) < ADDRESS_SPACE
    requires j < k ==> Doubled(step, k - 1) <= size
    ensures 0 < Doubled(step, j) <= Doubled(step, k)
    ensures j < k ==> Doubled(step, j) <= size
    ensures Stage(size, Doubled(step, j)) == Stage(size, Doubled(step, k))
    decreases k - j
  {
    hide Readable;
    DoubledGrows(step, 0, j);
    DoubledGrows(step, j, k);
    if j < k {
      DoubledGrows(step, j, k - 1);
      ReadableMeans(size, Doubled(step, j));
      StageAhead(size, step, j + 1, k);
    }
  }

  /** A size below a doubled step is never asked about beyond it. */
  lemma {:induction false} StageBelow(size: nat, step: Word, k: nat)
    requires 0 < step && size < SIZE_TOP && size < Doubled(step, k) < ADDRESS_SPACE
    ensures Stage(size, step) <= Doubled(step, k)
    decreases k
  {
    hide Readable;
    ReadableMeans(size, step);
    if 0 < k {
      DoubledGrows(step, 0, k - 1);
      if size < Doubled(step, k - 1) {
        StageBelow(size, step, k - 1);
      } else {
        ReadableMeans(size, Doubled(step, k));
        StageAhead(size, step, 0, k);
      }
    }
  }

  /** The first loop ends after `k` doublings exactly for the sizes between the
      two bounds that it then has. */
  lemma StageExactly(size: nat, step: Word, k: nat)
    requires 0 < step && size < SIZE_TOP && Doubled(step, k) < ADDRESS_SPACE
    ensures Stage(size, step) == Doubled(step, k) <==> LowAfter(step, k) <= size < Doubled(step, k)
  {
    hide Readable;
    var high := Doubled(step, k);
    DoubledGrows(step, 0, k);
    ReadableMeans(size, high);
    if LowAfter(step, k) <= size {
      StageAhead(size, step, 0, k);
    } else {
      DoubledGrows(step, 0, k - 1);
      StageBelow(size, step, k - 1);
    }
  }

  /** Main result for the whole of the probing. All sizes for which the first
      loop ends after `k` doublings are found exactly when the upper bound that
      it then has is at most 2^31. */
  lemma ProbeExactUpToIntTop(step: Word, k: nat)
    requires 0 < step && LowAfter(step, k) < SIZE_TOP && Doubled(step, k) < ADDRESS_SPACE
    ensures (forall size: nat | size < SIZE_TOP && Stage(size, step) == Doubled(step, k) ::
               Answers(size, Bounds(LowAfter(step, k), Doubled(step, k)), size))
            <==> Doubled(step, k) <= INT_TOP
  {
    var b := Bounds(LowAfter(step, k), Doubled(step, k));
    if b.high <= INT_TOP {
      forall size: nat | size < SIZE_TOP && Stage(size, step) == b.high
        ensures Answers(size, b, size)
      {
        StageExactly(size, step, k);
        SearchFinds(size, b);
      }
    } else {
      var size := if b.high < SIZE_TOP then b.high - 1 else SIZE_TOP - 1;
      StageExactly(size, step, k);
      forall n: nat
        ensures !(Rounds(size, b, n).Done() && Rounds(size, b, n).low == size)
      {
        LowFitsOrStays(size, b, n);
        if b.low == size {
          TopStays(size, b, n);
        }
      }
      assert !Answers(size, b, size);
    }
  }

  /** With the greatest bounds that the first loop can leave, the search goes on
      for ever. */
  lemma {:induction false} TopStays(size: nat, b: Bounds, n: nat)
    requires b.low == size == SIZE_TOP - 1 && b.high == 2 * b.low
    ensures Rounds(size, b, n) == b
    decreases n
  {
    if 0 < n {
      assert Round(size, b) == b;
      TopStays(size, b, n - 1);
    }
  }

  /** The first loop: doubles the upper bound until it is above the size. */
  method Widen(size: nat, firstStep: Word) returns (low: Word, high: Word, doublings: nat)
    requires size < SIZE_TOP
    ensures firstStep == 0 ==> low == high == 0
    ensures 0 < firstStep ==> low <= size < high && high == Stage(size, firstStep)
    ensures 0 < firstStep ==> high == Doubled(firstStep, doublings) && low == LowAfter(firstStep, doublings)
  {
    hide Readable, Wrap;
    var step: Word := firstStep;
    low, high, doublings := 0, firstStep, 0;
    ReadableMeans(size, high);
    while Readable(size, high)
      invariant Readable(size, high) <==> 0 < high <= size
      invariant firstStep == 0 ==> high == low == 0
      invariant 0 < firstStep ==> low <= size && 0 < high && low == LowAfter(firstStep, doublings)
      invariant 0 < firstStep ==> high == Doubled(firstStep, doublings)
      invariant 0 < firstStep ==> Stage(size, high) == Stage(size, firstStep)
      invariant high <= size ==> step == high
      decreases size - high
    {
      WrapNear(2 * high);
      low := high;
      high := Wrap(high + step);
      if step < SIZE_TOP - 1 {
        step := Wrap(2 * step);
      }
      doublings := doublings + 1;
      ReadableMeans(size, high);
    }
  }

  /** The second loop: halves the distance between the bounds. */
  method Search(size: nat, from: Word, to: Word) returns (low: Word, halvings: nat)
    requires from == to == 0 || from <= size < to <= INT_TOP
    ensures low == if to == 0 then 0 else size
    ensures halvings <= Halvings(to - from)
  {
    hide Truncated, Readable, Wrap;
    var high: Word := to;
    low, halvings := from, 0;
    while low + 1 < high
      invariant low <= high && high <= INT_TOP
      invariant if to == 0 then low == high == 0 else low <= size < high
      invariant halvings + Halvings(high - low) <= Halvings(to - from)
      decreases Halvings(high - low)
    {
      RoundHalves(size, Bounds(low, high));
      var middle := Truncated(Wrap(high + low) / 2);
      if Readable(size, middle) {
        low := Wrap(middle);
      } else {
        high := Wrap(middle);
      }
      halvings := halvings + 1;
    }
  }

  /** Probes a file of `size` bytes. Whenever the upper bound fits, the answer is
      the size, after a number of reads that is logarithmic in it. A first step of
      zero answers zero. */
  method ProbeFileSize(size: nat, firstStep: Word) returns (low: Word, doublings: nat, halvings: nat)
    requires size < SIZE_TOP && (0 < firstStep ==> Stage(size, firstStep) <= INT_TOP)
    ensures low == if firstStep == 0 then 0 else size
    ensures 0 < firstStep ==> Doubled(firstStep, doublings) == Stage(size, firstStep)
    ensures 0 < firstStep ==> halvings <= Halvings(Stage(size, firstStep))
  {
    var high;
    low, high, doublings := Widen(size, firstStep);
    HalvingsGrow(high - low, high);
    low, halvings := Search(size, low, high);
  }
}
