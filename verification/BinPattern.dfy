/** Byte patterns, the memory they are searched in, and what it means for a
    pattern to occur somewhere. Every search in this project is judged against
    `Occurs`; nothing below mentions pages or partial matches. */
module BinPattern {
  import opened Options

  type byte = bv8

  /** The debugger return codes that a search can produce. */
  datatype Drc = DrcOk | DrcNone | DrcFailed | DrcError

  /** The search flags that matter here; `noBreak` switches cancellation off. */
  datatype Flags = Flags(caseSensitive: bool, bitmask: bool, noBreak: bool)

  /** A compiled pattern. An empty mask says that all bytes are defined. */
  datatype RawPattern = RawPattern(bytes: seq<byte>, mask: seq<byte>) {
    predicate AllBytesDefined() {
      mask == []
    }
  }

  type Pattern = p: RawPattern | p.AllBytesDefined() || |p.mask| == |p.bytes|
    witness RawPattern([], [])

  /** What is searched for: the patterns, the flags and the page size. */
  datatype Query = Query(ptns: seq<Pattern>, flags: Flags, pageSize: nat) {
    ghost predicate Valid() {
      0 < pageSize < 0x8000_0000
    }

    /** Patterns that the search compares with plain memory primitives. */
    predicate IsSimple(i: nat)
      requires i < |ptns|
    {
      flags.caseSensitive && ptns[i].AllBytesDefined()
    }

    function Len(i: nat): nat
      requires i < |ptns|
    {
      |ptns[i].bytes|
    }
  }

  /** The searched process: its bytes, the pages that can be read as a whole,
      and the answer of the user when asked for a break at a page. */
  datatype Target = Target(bytes: int -> byte, readable: nat -> bool, cancelled: nat -> bool)

  /** A prefix (forward) or suffix (backward) of a pattern that has matched so
      far; `ptnOff` counts the matched bytes. */
  datatype Partial = Partial(matchEa: nat, ptnIdx: nat, ptnOff: nat)

  /** Upper case in the C locale. */
  function ToUpper(c: byte): byte {
    if 0x61 <= c <= 0x7A then c - 0x20 else c
  }

  /** Compares one memory byte with one pattern byte. */
  predicate ByteMatches(memByte: byte, ptnByte: byte, mask: Option<byte>, flags: Flags) {
    var c1 := if flags.caseSensitive then memByte else ToUpper(memByte);
    var c2 := if flags.caseSensitive then ptnByte else ToUpper(ptnByte);
    match mask
    case None => c1 == c2
    case Some(m) =>
      if flags.bitmask then (c1 ^ c2) & m == 0
      else m == 0 || c1 == c2
  }

  /** Does `c` match the k-th byte of the pattern? */
  predicate MatchesAt(ptn: Pattern, k: nat, c: byte, flags: Flags)
    requires k < |ptn.bytes|
  {
    ByteMatches(c, ptn.bytes[k], if ptn.AllBytesDefined() then None else Some(ptn.mask[k]), flags)
  }

  /** With the pattern laid at address `ea`, its k-th byte matches the memory. */
  ghost predicate AgreesAt(mem: int -> byte, ptn: Pattern, flags: Flags, ea: int, k: nat)
    requires k < |ptn.bytes|
  {
    MatchesAt(ptn, k, mem(ea + k), flags)
  }

  /** With the pattern laid at address `ea`, its bytes lo..hi match the memory. */
  ghost predicate Agrees(mem: int -> byte, ptn: Pattern, flags: Flags, ea: int, lo: nat, hi: nat)
    requires hi <= |ptn.bytes|
  {
    forall k | lo <= k < hi :: AgreesAt(mem, ptn, flags, ea, k)
  }

  /** Pattern `i` is not empty and occurs at `s`, wholly inside [lo, hi). */
  ghost predicate Occurs(q: Query, mem: int -> byte, i: nat, s: int, lo: int, hi: int) {
    && i < |q.ptns|
    && 0 < q.Len(i)
    && lo <= s
    && s + q.Len(i) <= hi
    && Agrees(mem, q.ptns[i], q.flags, s, 0, q.Len(i))
  }

  ghost predicate NoneInside(q: Query, mem: int -> byte, lo: int, hi: int) {
    forall i: nat, s: int :: !Occurs(q, mem, i, s, lo, hi)
  }

  /** `s` is the first place in [lo, hi) at which pattern `i` occurs. */
  ghost predicate FirstOf(q: Query, mem: int -> byte, i: nat, s: int, lo: int, hi: int) {
    Occurs(q, mem, i, s, lo, hi) && forall t | t < s :: !Occurs(q, mem, i, t, lo, hi)
  }

  /** `s` is the last place in [lo, hi) at which pattern `i` occurs. */
  ghost predicate LastOf(q: Query, mem: int -> byte, i: nat, s: int, lo: int, hi: int) {
    Occurs(q, mem, i, s, lo, hi) && forall t | s < t :: !Occurs(q, mem, i, t, lo, hi)
  }

  /** For a simple pattern a byte matches exactly when it is equal. */
  lemma SimpleMeansEqual(q: Query, i: nat, k: nat, c: byte)
    requires i < |q.ptns| && q.IsSimple(i) && k < q.Len(i)
    ensures MatchesAt(q.ptns[i], k, c, q.flags) <==> c == q.ptns[i].bytes[k]
  {
  }

  /** Two bytes are the same; without case sensitivity also the two cases of one
      of the letters A to Z. */
  ghost predicate SameByte(c: byte, p: byte, caseSensitive: bool) {
    || c == p
    || (!caseSensitive && ((0x41 <= c <= 0x5A && p == c + 0x20) || (0x41 <= p <= 0x5A && c == p + 0x20)))
  }

  lemma SameUpper(c: byte, p: byte)
    ensures ToUpper(c) == ToUpper(p) <==> SameByte(c, p, false)
  {
  }

  ghost predicate SameBits(c: byte, p: byte, m: byte) {
    c & m == p & m
  }

  ghost predicate NoOtherBits(c: byte, p: byte, m: byte) {
    (c ^ p) & m == 0
  }

  lemma SameUnderMask(c: byte, p: byte, m: byte)
    ensures NoOtherBits(c, p, m) <==> SameBits(c, p, m)
  {
  }

  /** Without a mask, and with a mask that is not one of bits: a zero byte of the
      mask lets every byte pass, any other asks for the same byte. */
  lemma MatchesPlain(ptn: Pattern, k: nat, c: byte, flags: Flags)
    requires k < |ptn.bytes| && (ptn.mask == [] || !flags.bitmask)
    ensures MatchesAt(ptn, k, c, flags) <==>
            (ptn.mask != [] && ptn.mask[k] == 0) || SameByte(c, ptn.bytes[k], flags.caseSensitive)
  {
    SameUpper(c, ptn.bytes[k]);
    hide ToUpper;
  }

  /** A letter a to z has the bit for lower case cleared. */
  ghost function Folded(c: byte, caseSensitive: bool): byte {
    if !caseSensitive && 0x61 <= c && c <= 0x7A then c & 0xDF else c
  }

  lemma FoldedIs(c: byte, caseSensitive: bool)
    ensures Folded(c, caseSensitive) == if caseSensitive then c else ToUpper(c)
  {
  }

  /** With a mask of bits, the bits under the mask have to be the same, without
      case sensitivity those of the folded bytes. */
  lemma MatchesBits(ptn: Pattern, k: nat, c: byte, flags: Flags)
    requires k < |ptn.bytes| && ptn.mask != [] && flags.bitmask
    ensures MatchesAt(ptn, k, c, flags) <==>
            SameBits(Folded(c, flags.caseSensitive), Folded(ptn.bytes[k], flags.caseSensitive), ptn.mask[k])
  {
    var p, m := ptn.bytes[k], ptn.mask[k];
    hide *;
    FoldedIs(c, flags.caseSensitive);
    FoldedIs(p, flags.caseSensitive);
    MatchesXor(ptn, k, c, flags);
    SameUnderMask(Folded(c, flags.caseSensitive), Folded(p, flags.caseSensitive), m);
  }

  lemma MatchesXor(ptn: Pattern, k: nat, c: byte, flags: Flags)
    requires k < |ptn.bytes| && ptn.mask != [] && flags.bitmask
    ensures MatchesAt(ptn, k, c, flags) <==>
            NoOtherBits(if flags.caseSensitive then c else ToUpper(c),
                        if flags.caseSensitive then ptn.bytes[k] else ToUpper(ptn.bytes[k]), ptn.mask[k])
  {
    hide ToUpper;
  }

  /** The byte of memory fits the k-th byte of the pattern: always under a zero
      byte of the mask; with the same bits under a mask of bits; and otherwise
      when it is the same byte. */
  ghost predicate Fits(ptn: Pattern, k: nat, c: byte, flags: Flags)
    requires k < |ptn.bytes|
  {
    var p, exact := ptn.bytes[k], flags.caseSensitive;
    if ptn.mask == [] then SameByte(c, p, exact)
    else if flags.bitmask then SameBits(Folded(c, exact), Folded(p, exact), ptn.mask[k])
    else ptn.mask[k] == 0 || SameByte(c, p, exact)
  }

  lemma MatchesMeans(ptn: Pattern, k: nat, c: byte, flags: Flags)
    requires k < |ptn.bytes|
    ensures MatchesAt(ptn, k, c, flags) <==> Fits(ptn, k, c, flags)
  {
    hide SameByte, MatchesAt, Folded, SameBits;
    if ptn.mask != [] && flags.bitmask {
      MatchesBits(ptn, k, c, flags);
    } else {
      MatchesPlain(ptn, k, c, flags);
    }
  }

  ghost predicate FitsAt(mem: int -> byte, ptn: Pattern, flags: Flags, ea: int, k: nat)
    requires k < |ptn.bytes|
  {
    Fits(ptn, k, mem(ea + k), flags)
  }

  /** A pattern occurs exactly where each of its bytes fits the memory. */
  lemma OccursMeans(q: Query, mem: int -> byte, i: nat, s: int, lo: int, hi: int)
    ensures Occurs(q, mem, i, s, lo, hi) <==>
            && i < |q.ptns| && 0 < |q.ptns[i].bytes| && lo <= s && s + |q.ptns[i].bytes| <= hi
            && forall k | 0 <= k < |q.ptns[i].bytes| :: FitsAt(mem, q.ptns[i], q.flags, s, k)
  {
    hide Fits, MatchesAt;
    if i < |q.ptns| {
      forall k | 0 <= k < |q.ptns[i].bytes|
        ensures AgreesAt(mem, q.ptns[i], q.flags, s, k) <==> FitsAt(mem, q.ptns[i], q.flags, s, k)
      {
        MatchesMeans(q.ptns[i], k, mem(s + k), q.flags);
      }
    }
  }

  /** What follows for single bytes. Under a zero byte of the mask every byte
      fits, and under 0xFF the same bytes as without a mask. */
  lemma MaskBytes(ptn: Pattern, k: nat, c: byte, flags: Flags)
    requires k < |ptn.bytes| && ptn.mask != []
    ensures ptn.mask[k] == 0 ==> MatchesAt(ptn, k, c, flags)
    ensures ptn.mask[k] == 0xFF ==> (MatchesAt(ptn, k, c, flags) <==> MatchesAt(RawPattern(ptn.bytes, []), k, c, flags))
  {
    var plain: Pattern := RawPattern(ptn.bytes, []);
    MatchesMeans(ptn, k, c, flags);
    MatchesMeans(plain, k, c, flags);
    FullMask(c, ptn.bytes[k], flags.caseSensitive);
    hide SameByte, MatchesAt, Folded, SameBits;
  }

  lemma FullMask(c: byte, p: byte, exact: bool)
    ensures SameBits(Folded(c, exact), Folded(p, exact), 0)
    ensures SameBits(Folded(c, exact), Folded(p, exact), 0xFF) <==> SameByte(c, p, exact)
  {
  }

  /** Pages below `end` can be read and nobody asks for a break. */
  ghost predicate Undisturbed(q: Query, t: Target, end: nat) {
    forall ea: nat | ea < end :: t.readable(ea) && (q.flags.noBreak || !t.cancelled(ea))
  }

  /** The first occurrence in a range stays the first one when the range grows upwards. */
  lemma FirstOfWidens(q: Query, mem: int -> byte, i: nat, s: int, lo: int, hi: int, hi': int)
    requires FirstOf(q, mem, i, s, lo, hi) && hi <= hi'
    ensures FirstOf(q, mem, i, s, lo, hi')
  {
    forall t | t < s
      ensures !Occurs(q, mem, i, t, lo, hi')
    {
      assert !Occurs(q, mem, i, t, lo, hi);
    }
  }

  /** The last occurrence in a range stays the last one when the range grows downwards. */
  lemma LastOfWidens(q: Query, mem: int -> byte, i: nat, s: int, lo: int, hi: int, lo': int)
    requires LastOf(q, mem, i, s, lo, hi) && lo' <= lo
    ensures LastOf(q, mem, i, s, lo', hi)
  {
    forall t | s < t
      ensures !Occurs(q, mem, i, t, lo', hi)
    {
      assert !Occurs(q, mem, i, t, lo, hi);
    }
  }

  /** The indices below `n` of the non-empty simple (or complex) patterns, in order. */
  ghost function Indices(q: Query, simple: bool, n: nat): (s: seq<nat>)
    requires n <= |q.ptns|
  {
    if n == 0 then []
    else Indices(q, simple, n - 1) + if 0 < q.Len(n - 1) && q.IsSimple(n - 1) == simple then [n - 1] else []
  }

  lemma {:induction false} IndicesSound(q: Query, simple: bool, n: nat)
    requires n <= |q.ptns|
    ensures forall i :: i in Indices(q, simple, n) <==> 0 <= i < n && 0 < q.Len(i) && q.IsSimple(i) == simple
    ensures forall a, b | 0 <= a < b < |Indices(q, simple, n)| :: Indices(q, simple, n)[a] < Indices(q, simple, n)[b]
  {
    if n > 0 {
      IndicesSound(q, simple, n - 1);
      var s := Indices(q, simple, n - 1);
      assert forall a | 0 <= a < |s| :: s[a] in s;
    }
  }

  /** The constructor's split of the pattern indices; empty patterns are dropped. */
  method SplitPatterns(q: Query) returns (simplePtns: seq<nat>, complexPtns: seq<nat>)
    ensures simplePtns == Indices(q, true, |q.ptns|)
    ensures complexPtns == Indices(q, false, |q.ptns|)
    ensures forall i ::
              i in simplePtns <==>
              0 <= i < |q.ptns| && q.ptns[i].bytes != [] && q.flags.caseSensitive && q.ptns[i].mask == []
    ensures forall i ::
              i in complexPtns <==>
              0 <= i < |q.ptns| && q.ptns[i].bytes != [] && !(q.flags.caseSensitive && q.ptns[i].mask == [])
  {
    simplePtns, complexPtns := [], [];
    for i := 0 to |q.ptns|
      invariant simplePtns == Indices(q, true, i)
      invariant complexPtns == Indices(q, false, i)
    {
      if q.ptns[i].bytes == [] {
        continue;
      }
      if q.IsSimple(i) {
        simplePtns := simplePtns + [i];
      } else {
        complexPtns := complexPtns + [i];
      }
    }
    IndicesSound(q, true, |q.ptns|);
    IndicesSound(q, false, |q.ptns|);
  }

  function AlignDown(ea: nat, size: nat): (r: nat)
    requires 0 < size
    ensures r <= ea < r + size
  {
    ea - ea % size
  }

  function Min(a: int, b: int): int {
    if a < b then a else b
  }

  /** The page buffer holds the bytes of the page at `pageEa`. */
  ghost predicate PageHolds(page: array<byte>, mem: int -> byte, pageEa: int)
    reads page
  {
    forall j | 0 <= j < page.Length :: page[j] == mem(pageEa + j)
  }

  /** Compares `nbytes` bytes of the page from `at` with the pattern from `ptnOff`. */
  method MatchPattern(page: array<byte>, ghost mem: int -> byte, ghost pageEa: int, flags: Flags,
                      ptn: Pattern, at: nat, ptnOff: nat, nbytes: nat)
    returns (ok: bool)
    requires PageHolds(page, mem, pageEa)
    requires at + nbytes <= page.Length && ptnOff + nbytes <= |ptn.bytes|
    ensures ok <==> Agrees(mem, ptn, flags, pageEa + at - ptnOff, ptnOff, ptnOff + nbytes)
  {
    var i := 0;
    while i < nbytes
      invariant 0 <= i <= nbytes
      invariant Agrees(mem, ptn, flags, pageEa + at - ptnOff, ptnOff, ptnOff + i)
    {
      assert page[at + i] == mem(pageEa + at - ptnOff + (ptnOff + i));
      if !MatchesAt(ptn, ptnOff + i, page[at + i], flags) {
        assert !AgreesAt(mem, ptn, flags, pageEa + at - ptnOff, ptnOff + i);
        return false;
      }
      assert AgreesAt(mem, ptn, flags, pageEa + at - ptnOff, ptnOff + i);
      i := i + 1;
    }
    return true;
  }

  /** Plain comparison of memory with a simple pattern. */
  method CompareBytes(page: array<byte>, ghost mem: int -> byte, ghost pageEa: int, q: Query,
                      i: nat, at: nat, ptnOff: nat, nbytes: nat)
    returns (ok: bool)
    requires PageHolds(page, mem, pageEa)
    requires i < |q.ptns| && q.IsSimple(i)
    requires at + nbytes <= page.Length && ptnOff + nbytes <= q.Len(i)
    ensures ok <==> Agrees(mem, q.ptns[i], q.flags, pageEa + at - ptnOff, ptnOff, ptnOff + nbytes)
  {
    var inMemory, wanted := page[at..at + nbytes], q.ptns[i].bytes[ptnOff..ptnOff + nbytes];
    ok := inMemory == wanted;
    forall j | 0 <= j < nbytes
      ensures AgreesAt(mem, q.ptns[i], q.flags, pageEa + at - ptnOff, ptnOff + j) <==> inMemory[j] == wanted[j]
    {
      assert inMemory[j] == page[at + j] == mem(pageEa + at - ptnOff + (ptnOff + j));
    }
    if ok {
      ghost var ea := pageEa + at - ptnOff;
      forall k | ptnOff <= k < ptnOff + nbytes
        ensures AgreesAt(mem, q.ptns[i], q.flags, ea, k)
      {
        assert k == ptnOff + (k - ptnOff);
      }
    }
  }
}
