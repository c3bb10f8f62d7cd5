/** The naive search that the source keeps as its own reference, and its test:
    whatever the memory, the patterns and the range, the paged matchers pass it. */
module ReferenceSearch {
  import opened BinPattern
  import opened Options
  import FM = ForwardMatcher
  import BM = BackwardMatcher
  import opened Words

  /** The test memory as the matchers see it. */
  function BytesOf(memory: seq<byte>): int -> byte {
    ea => if 0 <= ea < |memory| then memory[ea] else 0
  }

  /** Compares `|ptn|` bytes of memory at `at` with the pattern. */
  method CmpBytes(memory: seq<byte>, at: nat, ptn: seq<byte>, senseCase: bool) returns (same: bool)
    requires at + |ptn| <= |memory|
    ensures same <==> forall k | 0 <= k < |ptn| ::
                        if senseCase then memory[at + k] == ptn[k] else ToUpper(memory[at + k]) == ToUpper(ptn[k])
  {
    if senseCase {
      var part := memory[at..at + |ptn|];
      same := part == ptn;
      assert forall k | 0 <= k < |ptn| :: part[k] == memory[at + k];
      return;
    }
    for i := 0 to |ptn|
      invariant forall k | 0 <= k < i :: ToUpper(memory[at + k]) == ToUpper(ptn[k])
    {
      if ToUpper(memory[at + i]) != ToUpper(ptn[i]) {
        return false;
      }
    }
    return true;
  }

  /** Without a mask, comparing bytes is what an occurrence asks for. */
  lemma OccursBare(q: Query, memory: seq<byte>, i: nat, at: nat, lo: nat, hi: nat)
    requires i < |q.ptns| && q.ptns[i].mask == [] && 0 < q.Len(i) && lo <= at && at + q.Len(i) <= hi <= |memory|
    ensures Occurs(q, BytesOf(memory), i, at, lo, hi) <==>
            forall k | 0 <= k < q.Len(i) ::
              if q.flags.caseSensitive then memory[at + k] == q.ptns[i].bytes[k]
              else ToUpper(memory[at + k]) == ToUpper(q.ptns[i].bytes[k])
  {
    forall k | 0 <= k < q.Len(i)
      ensures AgreesAt(BytesOf(memory), q.ptns[i], q.flags, at, k) <==>
              if q.flags.caseSensitive then memory[at + k] == q.ptns[i].bytes[k]
              else ToUpper(memory[at + k]) == ToUpper(q.ptns[i].bytes[k])
    {
      assert BytesOf(memory)(at + k) == memory[at + k];
    }
  }

  /** The first place in [lo, hi) at which pattern `i` occurs. */
  method MemMem(q: Query, memory: seq<byte>, i: nat, lo: nat, hi: nat) returns (found: Option<nat>)
    requires i < |q.ptns| && q.ptns[i].mask == [] && lo <= hi <= |memory|
    ensures found.Some? ==> FirstOf(q, BytesOf(memory), i, found.value, lo, hi)
    ensures found == None ==> forall s :: !Occurs(q, BytesOf(memory), i, s, lo, hi)
  {
    hide Agrees;
    var ptn := q.ptns[i].bytes;
    if |ptn| == 0 || |ptn| > hi - lo {
      return None;
    }
    var ptr := lo;
    while ptr < hi - |ptn| + 1
      invariant lo <= ptr <= hi - |ptn| + 1
      invariant forall s | s < ptr :: !Occurs(q, BytesOf(memory), i, s, lo, hi)
    {
      OccursBare(q, memory, i, ptr, lo, hi);
      var same := CmpBytes(memory, ptr, ptn, q.flags.caseSensitive);
      if same {
        return Some(ptr);
      }
      ptr := ptr + 1;
    }
    return None;
  }

  /** The last place in [lo, hi) at which pattern `i` occurs. */
  method MemMemR(q: Query, memory: seq<byte>, i: nat, lo: nat, hi: nat) returns (found: Option<nat>)
    requires i < |q.ptns| && q.ptns[i].mask == [] && lo <= hi <= |memory|
    ensures found.Some? ==> LastOf(q, BytesOf(memory), i, found.value, lo, hi)
    ensures found == None ==> forall s :: !Occurs(q, BytesOf(memory), i, s, lo, hi)
  {
    hide Agrees;
    var ptn := q.ptns[i].bytes;
    if |ptn| == 0 || |ptn| > hi - lo {
      return None;
    }
    var ptr := hi - |ptn|;
    while lo <= ptr
      invariant lo - 1 <= ptr <= hi - |ptn|
      invariant forall s | ptr < s :: !Occurs(q, BytesOf(memory), i, s, lo, hi)
    {
      OccursBare(q, memory, i, ptr, lo, hi);
      var same := CmpBytes(memory, ptr, ptn, q.flags.caseSensitive);
      if same {
        return Some(ptr);
      }
      ptr := ptr - 1;
    }
    return None;
  }

  /** `ea` is the place that the reference reports for one of the first n patterns. */
  ghost predicate Reported(q: Query, mem: int -> byte, n: nat, ea: int, lo: nat, hi: nat, backward: bool) {
    exists i: nat :: i < n && if backward then LastOf(q, mem, i, ea, lo, hi) else FirstOf(q, mem, i, ea, lo, hi)
  }

  /** The reference search: one answer for every pattern that occurs. */
  method SimpleBinarySearch(q: Query, memory: seq<byte>, start: nat, end: nat, backward: bool)
    returns (drc: Drc, foundEas: seq<nat>)
    requires forall i | 0 <= i < |q.ptns| :: q.ptns[i].mask == []
    ensures start <= end ==> forall ea: nat :: ea in foundEas <==>
              Reported(q, BytesOf(memory), |q.ptns|, ea, start, Min(|memory|, end), backward)
    ensures drc == if foundEas == [] then DrcFailed else DrcOk
    ensures start >= end ==> foundEas == []
  {
    hide Agrees;
    foundEas := [];
    if start >= end || start > |memory| {
      return DrcFailed, [];
    }
    var hi := start + Min(|memory| - start, end - start);
    for p := 0 to |q.ptns|
      invariant forall ea: nat :: ea in foundEas <==> Reported(q, BytesOf(memory), p, ea, start, hi, backward)
    {
      var f;
      if backward {
        f := MemMemR(q, memory, p, start, hi);
      } else {
        f := MemMem(q, memory, p, start, hi);
      }
      ghost var before := foundEas;
      if f.Some? && f.value < end {
        foundEas := foundEas + [f.value];
      }
      forall ea: nat
        ensures ea in foundEas <==> Reported(q, BytesOf(memory), p + 1, ea, start, hi, backward)
      {
        OneMore(q, BytesOf(memory), p, ea, start, hi, backward);
        if f.Some? && (if backward then LastOf(q, BytesOf(memory), p, ea, start, hi)
                       else FirstOf(q, BytesOf(memory), p, ea, start, hi)) {
          assert f.value == ea;
        }
      }
    }
    return if foundEas == [] then DrcFailed else DrcOk, foundEas;
  }

  lemma OneMore(q: Query, mem: int -> byte, n: nat, ea: int, lo: nat, hi: nat, backward: bool)
    ensures Reported(q, mem, n + 1, ea, lo, hi, backward) <==>
            Reported(q, mem, n, ea, lo, hi, backward) ||
            if backward then LastOf(q, mem, n, ea, lo, hi) else FirstOf(q, mem, n, ea, lo, hi)
  {
    hide FirstOf, LastOf;
  }

  /** Is the answer of a matcher one of the answers of the reference? */
  method Check(expected: seq<nat>, found: Option<int>) returns (ok: bool)
    ensures ok <==> (expected == [] && found == None) || (found.Some? && found.value in expected)
  {
    ok := expected == [] && found == None;
    for k := 0 to |expected|
      invariant ok <==> (expected == [] && found == None) || (found.Some? && found.value in expected[..k])
    {
      assert expected[..k + 1] == expected[..k] + [expected[k]];
      if Some(expected[k] as int) == found {
        ok := true;
      }
    }
    assert expected[..|expected|] == expected;
  }

  /** One round of the test program; it never fails. */
  method TestRound(q: Query, memory: seq<byte>, start: nat, end: nat, backward: bool) returns (ok: bool)
    requires q.Valid() && ADDRESS_SPACE % q.pageSize == 0
    requires forall i | 0 <= i < |q.ptns| :: q.ptns[i].mask == []
    requires start <= end <= |memory| <= ADDRESS_SPACE - q.pageSize
    ensures ok
  {
    hide Agrees;
    var drc1, expected := SimpleBinarySearch(q, memory, start, end, backward);
    assert expected != [] ==> expected[0] in expected;
    var t := Target(BytesOf(memory), ea => ea < |memory|, _ => false);
    assert t.bytes == BytesOf(memory);
    var drc2, found;
    if backward {
      drc2, found := BM.BinarySearch(q, t, start, end);
    } else {
      drc2, found := FM.BinarySearch(q, t, start, end);
    }
    AgreementIsComplete(q, BytesOf(memory), start, end, backward);
    if drc2 == DrcOk {
      assert Reported(q, BytesOf(memory), |q.ptns|, found.value, start, end, backward);
      FoundIsAddress(q, BytesOf(memory), found.value, start, end, backward);
      assert found.value as nat in expected;
    }
    ok := Check(expected, found);
  }

  lemma FoundIsAddress(q: Query, mem: int -> byte, ea: int, lo: nat, hi: nat, backward: bool)
    requires Reported(q, mem, |q.ptns|, ea, lo, hi, backward)
    ensures 0 <= ea && !NoneInside(q, mem, lo, hi)
  {
  }

  /** When something occurs, the reference has an answer. */
  lemma AgreementIsComplete(q: Query, mem: int -> byte, lo: nat, hi: nat, backward: bool)
    ensures !NoneInside(q, mem, lo, hi) ==> exists ea: nat :: Reported(q, mem, |q.ptns|, ea, lo, hi, backward)
    ensures NoneInside(q, mem, lo, hi) ==> forall ea: nat :: !Reported(q, mem, |q.ptns|, ea, lo, hi, backward)
  {
    if !NoneInside(q, mem, lo, hi) {
      var i: nat, s: int :| Occurs(q, mem, i, s, lo, hi);
      if backward {
        var ea := LatestFrom(q, mem, i, s, lo, hi);
        assert Reported(q, mem, |q.ptns|, ea, lo, hi, backward);
      } else {
        var ea := EarliestFrom(q, mem, i, s, lo, hi);
        assert Reported(q, mem, |q.ptns|, ea, lo, hi, backward);
      }
    }
  }

  lemma {:induction false} EarliestFrom(q: Query, mem: int -> byte, i: nat, s: int, lo: nat, hi: nat) returns (ea: nat)
    requires Occurs(q, mem, i, s, lo, hi)
    ensures FirstOf(q, mem, i, ea, lo, hi)
    decreases s - lo
  {
    hide Agrees;
    if t: int :| t < s && Occurs(q, mem, i, t, lo, hi) {
      ea := EarliestFrom(q, mem, i, t, lo, hi);
    } else {
      ea := s;
    }
  }

  lemma {:induction false} LatestFrom(q: Query, mem: int -> byte, i: nat, s: int, lo: nat, hi: nat) returns (ea: nat)
    requires Occurs(q, mem, i, s, lo, hi)
    ensures LastOf(q, mem, i, ea, lo, hi)
    decreases hi - s
  {
    hide Agrees;
    if t: int :| s < t && Occurs(q, mem, i, t, lo, hi) {
      ea := LatestFrom(q, mem, i, t, lo, hi);
    } else {
      ea := s;
    }
  }
}
