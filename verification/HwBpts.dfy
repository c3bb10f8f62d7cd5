/** Hardware breakpoints of x86: the slot table and the register DR7. */
module HwBpts {
  import opened Words

  const MAX_BPT: nat := 4

  /** A register is the set of the numbers of its bits that are set: `|=` is a
      union, and `&= ~` a difference. */
  type Bits = set<nat>

  /** The types of hardware breakpoints; `Unset` in a slot never used. */
  datatype Kind = Unset | Write | Read | ReadWrite | Exec

  datatype Slot = Free | Used(ea: Ea, kind: Kind, len: int)

  type Table = t: seq<Slot> | |t| == MAX_BPT witness [Free, Free, Free, Free]

  /** The bits of a number below 16, shifted by `n`. */
  function Shifted(v: nat, n: nat): (r: Bits)
    requires v < 16
    ensures forall m | m in r :: n <= m < n + 4 && (v < 4 ==> m < n + 2) && (v < 2 ==> m == n)
  {
    (if v % 2 == 1 then {n} else {}) + (if v / 2 % 2 == 1 then {n + 1} else {})
    + (if v / 4 % 2 == 1 then {n + 2} else {}) + (if v / 8 % 2 == 1 then {n + 3} else {})
  }

  /** The codes of a type and of a length (section 17.2.4 of volume 3 of the
      Intel software developer's manual). */
  function TypeCode(kind: Kind): (r: nat)
    ensures r < 4
  {
    match kind
    case Write => 1
    case Read => 2
    case ReadWrite => 3
    case _ => 0
  }

  function LenCode(len: int): (r: nat)
    ensures r < 4
  {
    if len == 2 then 1 else if len == 4 then 3 else if len == 8 then 2 else 0
  }

  /** The bits of one slot. */
  function Field(s: Slot, i: nat): Bits
    requires GoodSlot(s)
  {
    match s
    case Free => {}
    case Used(_, kind, len) => FieldOf(kind, len, i)
  }

  function FieldOf(kind: Kind, len: int, i: nat): Bits {
    Shifted(1, 2 * i) + Shifted(TypeCode(kind), 16 + 4 * i) + Shifted(LenCode(len), 18 + 4 * i)
  }

  predicate GoodSlot(s: Slot) {
    s.Used? ==> s.ea != BADADDR
  }

  predicate GoodTable(t: Table) {
    forall i | 0 <= i < MAX_BPT :: GoodSlot(t[i])
  }

  /** The register for a table; bit 8 asks for exact breakpoints. */
  function Encode(t: Table): Bits
    requires GoodTable(t)
  {
    {8} + Field(t[0], 0) + Field(t[1], 1) + Field(t[2], 2) + Field(t[3], 3)
  }

  /** The bits that belong to slot `i`. */
  function Mask(i: nat): Bits {
    Shifted(3, 2 * i) + Shifted(0xF, 16 + 4 * i)
  }

  lemma MaskMeans(i: nat, m: nat)
    ensures m in Mask(i) <==> m == 2 * i || m == 2 * i + 1 || 16 + 4 * i <= m < 20 + 4 * i
  {
  }

  lemma MasksApart(i: nat, j: nat)
    requires i < MAX_BPT && j < MAX_BPT && i != j
    ensures Mask(i) !! Mask(j) && 8 !in Mask(i) && forall m | m in Mask(i) :: m < 32
  {
    forall m | m in Mask(i) ensures m !in Mask(j) {
      MaskMeans(i, m);
      MaskMeans(j, m);
    }
    MaskMeans(i, 8);
  }

  lemma FieldInMask(s: Slot, i: nat)
    requires GoodSlot(s)
    ensures Field(s, i) <= Mask(i)
  {
    hide Shifted, Mask;
    forall m | m in Field(s, i) ensures m in Mask(i) {
      MaskMeans(i, m);
    }
  }

  /** Filling a free slot adds its bits and no others. */
  lemma FillSlot(t: Table, i: nat, s: Slot)
    requires i < MAX_BPT && GoodTable(t) && t[i].Free? && GoodSlot(s)
    ensures Encode(t[i := s]) == Encode(t) + Field(s, i)
  {
    hide Shifted;
  }

  lemma ThreeSteps(b: Bits, kind: Kind, len: int, i: nat)
    ensures b + Shifted(1, 2 * i) + Shifted(TypeCode(kind), 16 + 4 * i) + Shifted(LenCode(len), 18 + 4 * i)
            == b + FieldOf(kind, len, i)
  {
    hide Shifted;
  }

  /** What adding writes into the table: a slot with the address BADADDR still
      counts as free. */
  function Put(t: Table, i: nat, ea: Ea, kind: Kind, len: int): Table
    requires i < MAX_BPT
  {
    t[i := if ea == BADADDR then Free else Used(ea, kind, len)]
  }

  /** Adding keeps the register the encoding of the table exactly when the address
      is not BADADDR. */
  lemma AddKeepsEncodingExactly(t: Table, i: nat, ea: Ea, kind: Kind, len: int)
    requires i < MAX_BPT && GoodTable(t) && t[i].Free?
    ensures GoodTable(Put(t, i, ea, kind, len))
    ensures Encode(t) + FieldOf(kind, len, i) == Encode(Put(t, i, ea, kind, len)) <==> ea != BADADDR
  {
    hide Encode, Shifted;
    if ea != BADADDR {
      FillSlot(t, i, Used(ea, kind, len));
    } else {
      assert t[i := Free] == t;
      OwnBits(t, i);
      MaskMeans(i, 2 * i);
      assert 2 * i in Shifted(1, 2 * i) by { EnableBit(2 * i); }
      assert 2 * i in Mask(i) && 2 * i !in Encode(t) * Mask(i);
    }
  }

  lemma EnableBit(n: nat)
    ensures n in Shifted(1, n)
  {
  }

  /** Masking a slot out removes its bits and no others. */
  lemma ClearSlot(t: Table, i: nat)
    requires i < MAX_BPT && GoodTable(t)
    ensures GoodTable(t[i := Free]) && Encode(t[i := Free]) == Encode(t) - Mask(i)
  {
    hide Mask, Shifted;
    InOrOut(t[0], 0, i);
    InOrOut(t[1], 1, i);
    InOrOut(t[2], 2, i);
    InOrOut(t[3], 3, i);
  }

  lemma InOrOut(s: Slot, j: nat, i: nat)
    requires i < MAX_BPT && j < MAX_BPT && GoodSlot(s)
    ensures if i == j then Field(s, j) <= Mask(i) else Field(s, j) !! Mask(i)
    ensures 8 !in Mask(i)
  {
    hide Mask, Field;
    FieldInMask(s, j);
    MasksApart(i, if i == j then (i + 1) % 4 else j);
  }

  /** Setting the bits of a slot and masking it out restores a register bit for
      bit exactly when the slot had no bits in it. */
  lemma DeleteRestoresExactly(d: Bits, i: nat, kind: Kind, len: int)
    requires i < MAX_BPT
    ensures d + FieldOf(kind, len, i) - Mask(i) == d <==> d !! Mask(i)
  {
    hide FieldOf, Mask;
    FieldInMask(Used(0, kind, len), i);
  }

  /** In step with the table, the register has no bits of a free slot. */
  lemma FreeSlotHasNoBits(t: Table, i: nat)
    requires i < MAX_BPT && GoodTable(t) && t[i].Free?
    ensures Encode(t) !! Mask(i)
  {
    hide Encode, Mask;
    OwnBits(t, i);
    forall m | m in Encode(t) ensures m !in Mask(i) {
      assert m !in Encode(t) * Mask(i);
    }
  }

  /** Which bits a breakpoint has in slot `i`: the enable bit; the type, 1 for
      writing, 2 for reading, 3 for both and 0 for execution; and the length, 1
      for 2 bytes, 3 for 4 bytes, 2 for 8 bytes and 0 otherwise. */
  lemma FieldBits(kind: Kind, len: int, i: nat, m: nat)
    ensures m in FieldOf(kind, len, i) <==>
            || m == 2 * i
            || (m == 16 + 4 * i && (kind == Write || kind == ReadWrite))
            || (m == 17 + 4 * i && (kind == Read || kind == ReadWrite))
            || (m == 18 + 4 * i && (len == 2 || len == 4))
            || (m == 19 + 4 * i && (len == 4 || len == 8))
  {
  }

  /** Bit by bit, the register says which slots are enabled, and their types and
      lengths. Bit 8 is always set, and the other bits never. */
  lemma RegisterReadsBack(t: Table, i: nat)
    requires i < MAX_BPT && GoodTable(t)
    ensures var d, s := Encode(t), t[i];
            && (2 * i in d <==> s.Used?) && 2 * i + 1 !in d
            && (16 + 4 * i in d <==> s.Used? && (s.kind == Write || s.kind == ReadWrite))
            && (17 + 4 * i in d <==> s.Used? && (s.kind == Read || s.kind == ReadWrite))
            && (18 + 4 * i in d <==> s.Used? && (s.len == 2 || s.len == 4))
            && (19 + 4 * i in d <==> s.Used? && (s.len == 4 || s.len == 8))
            && 8 in d && forall m | m in d :: m <= 8 || 16 <= m < 32
  {
    hide FieldOf, Encode, Mask;
    OwnBits(t, i);
    forall m | m == 2 * i || m == 2 * i + 1 || 16 + 4 * i <= m < 20 + 4 * i
      ensures m in Encode(t) <==> m in Field(t[i], i)
    {
      MaskMeans(i, m);
      assert m in Encode(t) <==> m in Encode(t) * Mask(i);
    }
    if t[i].Used? {
      forall m {
        FieldBits(t[i].kind, t[i].len, i, m);
      }
    }
  }

  /** The bits of slot `i` in the register are those of its own field. */
  lemma OwnBits(t: Table, i: nat)
    requires i < MAX_BPT && GoodTable(t)
    ensures Encode(t) * Mask(i) == Field(t[i], i)
    ensures 8 in Encode(t) && forall m | m in Encode(t) :: m <= 8 || 16 <= m < 32
  {
    hide Mask, Field;
    InOrOut(t[0], 0, i);
    InOrOut(t[1], 1, i);
    InOrOut(t[2], 2, i);
    InOrOut(t[3], 3, i);
    forall j, m | 0 <= j < MAX_BPT && m in Field(t[j], j)
      ensures m < 8 || 16 <= m < 32
    {
      FieldInMask(t[j], j);
      MaskMeans(j, m);
    }
  }

  // --------------------------------------------------------------- operations

  /** Entry `j` holds this address and this type; also a free one may, for BADADDR. */
  predicate SameAt(eas: seq<Ea>, kinds: seq<Kind>, j: nat, at: Ea, k: Kind)
    requires j < |eas| == |kinds|
  {
    eas[j] == at && kinds[j] == k
  }

  /** The slot for a new breakpoint: the first free one, unless the same address
      and type are found there or before. */
  ghost predicate SlotFor(eas: seq<Ea>, kinds: seq<Kind>, at: Ea, k: Kind, r: int)
    requires |eas| == |kinds| == MAX_BPT
  {
    if r == -1 then
      (forall j | 0 <= j < MAX_BPT :: eas[j] != BADADDR)
      || exists x | 0 <= x < MAX_BPT :: SameAt(eas, kinds, x, at, k) && forall j | 0 <= j < x :: eas[j] != BADADDR
    else
      0 <= r < MAX_BPT && eas[r] == BADADDR && !SameAt(eas, kinds, r, at, k)
      && forall j | 0 <= j < r :: eas[j] != BADADDR && !SameAt(eas, kinds, j, at, k)
  }

  lemma AllFree()
    ensures Encode([Free, Free, Free, Free]) == {8}
  {
  }

  class HwBreakpoints {
    const ea: array<Ea>
    const kind: array<Kind>
    var dr6: Bits
    var dr7: Bits
    /** The lengths, which the table does not keep. */
    ghost var lens: seq<int>

    ghost predicate Sized()
      reads this
    {
      ea.Length == kind.Length == |lens| == MAX_BPT
    }

    ghost function SlotAt(i: nat): Slot
      requires i < MAX_BPT && Sized()
      reads this, ea, kind
    {
      if ea[i] == BADADDR then Free else Used(ea[i], kind[i], lens[i])
    }

    ghost function Slots(): Table
      requires Sized()
      reads this, ea, kind
    {
      [SlotAt(0), SlotAt(1), SlotAt(2), SlotAt(3)]
    }

    /** DR7 is the encoding of the table. */
    ghost predicate Valid()
      reads this, ea, kind
    {
      Sized() && GoodTable(Slots()) && dr7 == Encode(Slots())
    }

    constructor ()
      ensures Valid() && Slots() == [Free, Free, Free, Free] && fresh(ea) && fresh(kind)
    {
      ea := new Ea[MAX_BPT](_ => BADADDR);
      kind := new Kind[MAX_BPT](_ => Unset);
      dr6, dr7, lens := {}, {8}, [0, 0, 0, 0];
    }

    /** Repairs the register from any state. */
    method Cleanup()
      requires Sized()
      modifies this, ea, kind
      ensures Valid() && Slots() == [Free, Free, Free, Free] && dr6 == {} && dr7 == {8}
    {
      hide Encode, Shifted;
      var i := 0;
      while i < MAX_BPT
        invariant 0 <= i <= MAX_BPT && Sized()
        invariant forall j | 0 <= j < i :: ea[j] == BADADDR
      {
        ea[i] := BADADDR;
        kind[i] := Unset;
        i := i + 1;
      }
      dr6 := {};
      dr7 := {8};
      AllFree();
      lens := [0, 0, 0, 0];
    }

    method FindSlot(at: Ea, k: Kind) returns (r: int)
      requires Sized()
      ensures -1 <= r < MAX_BPT && (r != -1 ==> ea[r] == BADADDR)
      ensures SlotFor(ea[..], kind[..], at, k, r)
    {
      var i := 0;
      while i < MAX_BPT
        invariant 0 <= i <= MAX_BPT
        invariant forall j | 0 <= j < i :: ea[j] != BADADDR && !SameAt(ea[..], kind[..], j, at, k)
      {
        if ea[i] == at && kind[i] == k {
          assert SameAt(ea[..], kind[..], i, at, k);
          return -1;
        }
        if ea[i] == BADADDR {
          return i;
        }
        i := i + 1;
      }
      return -1;
    }

    /** Adds a breakpoint; `refreshed` tells whether the threads took the new
        registers. The register stays the encoding of the table unless a slot
        was used for BADADDR. */
    method Add(k: Kind, at: Ea, len: int, refreshed: bool) returns (ok: bool, ghost slot: int)
      requires Sized()
      modifies this, ea, kind
      ensures Sized() && -1 <= slot < MAX_BPT && SlotFor(old(ea[..]), old(kind[..]), at, k, slot)
      ensures old(Valid()) ==> (Valid() <==> slot == -1 || at != BADADDR)
      ensures ea[..] == if slot == -1 then old(ea[..]) else old(ea[..])[slot := at]
      ensures kind[..] == if slot == -1 then old(kind[..]) else old(kind[..])[slot := k]
      ensures Slots() == if slot == -1 then old(Slots()) else Put(old(Slots()), slot, at, k, len)
      ensures dr7 == if slot == -1 then old(dr7) else old(dr7) + FieldOf(k, len, slot)
      ensures slot != -1 ==> forall m ::
                m in dr7 <==>
                || m in old(dr7) || m == 2 * slot
                || (m == 16 + 4 * slot && (k == Write || k == ReadWrite))
                || (m == 17 + 4 * slot && (k == Read || k == ReadWrite))
                || (m == 18 + 4 * slot && (len == 2 || len == 4))
                || (m == 19 + 4 * slot && (len == 4 || len == 8))
      ensures ok <==> slot != -1 && refreshed
      ensures dr6 == old(dr6)
    {
      hide Encode, Shifted, FieldOf, GoodTable, SlotFor, Put;
      var i := FindSlot(at, k);
      slot := i;
      if i == -1 {
        return false, slot;
      }
      if Valid() {
        AddKeepsEncodingExactly(Slots(), i, at, k, len);
      }
      Fill(i, k, at, len);
      ok := refreshed;
    }

    /** Writes a breakpoint into a free slot and sets its bits. */
    method Fill(i: nat, k: Kind, at: Ea, len: int)
      requires Sized() && i < MAX_BPT && ea[i] == BADADDR
      modifies this, ea, kind
      ensures Sized() && Slots() == Put(old(Slots()), i, at, k, len)
      ensures ea[..] == old(ea[..])[i := at] && kind[..] == old(kind[..])[i := k]
      ensures dr7 == old(dr7) + FieldOf(k, len, i) && dr6 == old(dr6)
      ensures forall m ::
                m in dr7 <==>
                || m in old(dr7) || m == 2 * i
                || (m == 16 + 4 * i && (k == Write || k == ReadWrite))
                || (m == 17 + 4 * i && (k == Read || k == ReadWrite))
                || (m == 18 + 4 * i && (len == 2 || len == 4))
                || (m == 19 + 4 * i && (len == 4 || len == 8))
    {
      hide Encode, Shifted, FieldOf, GoodTable, TypeCode, LenCode;
      ghost var before := Slots();
      ThreeSteps(dr7, k, len, i);
      ea[i] := at;
      kind[i] := k;
      lens := lens[i := len];
      assert Slots() == Put(before, i, at, k, len);
      dr7 := dr7 + Shifted(1, 2 * i);
      dr7 := dr7 + Shifted(TypeCode(k), 16 + 4 * i);
      dr7 := dr7 + Shifted(LenCode(len), 18 + 4 * i);
      forall m {
        FieldBits(k, len, i, m);
      }
    }

    /** Frees the first entry with this address and type and clears its bits. For
        BADADDR that is a free one, and if the register is in step nothing changes. */
    method Delete(at: Ea, k: Kind, refreshed: bool) returns (ok: bool, ghost slot: int)
      requires Sized()
      modifies this, ea
      ensures Sized() && -1 <= slot < MAX_BPT && (old(Valid()) ==> Valid())
      ensures forall j | 0 <= j < if slot == -1 then MAX_BPT else slot :: !SameAt(old(ea[..]), kind[..], j, at, k)
      ensures slot != -1 ==> SameAt(old(ea[..]), kind[..], slot, at, k)
      ensures ea[..] == if slot == -1 then old(ea[..]) else old(ea[..])[slot := BADADDR]
      ensures dr7 == if slot == -1 then old(dr7) else old(dr7) - Mask(slot)
      ensures slot != -1 ==> forall m ::
                m in dr7 <==>
                m in old(dr7) && m != 2 * slot && m != 2 * slot + 1 && !(16 + 4 * slot <= m < 20 + 4 * slot)
      ensures Slots() == if slot == -1 then old(Slots()) else old(Slots())[slot := Free]
      ensures old(Valid()) && at == BADADDR ==> Slots() == old(Slots()) && dr7 == old(dr7)
      ensures ok <==> slot != -1 && refreshed
      ensures dr6 == old(dr6)
    {
      hide Encode, Shifted, GoodTable, Mask;
      var i := 0;
      while i < MAX_BPT
        invariant 0 <= i <= MAX_BPT
        invariant Sized() && Slots() == old(Slots()) && dr6 == old(dr6) && dr7 == old(dr7)
        invariant ea[..] == old(ea[..])
        invariant forall j | 0 <= j < i :: !SameAt(ea[..], kind[..], j, at, k)
      {
        if ea[i] == at && kind[i] == k {
          Clear(i);
          return refreshed, i;
        }
        i := i + 1;
      }
      return false, -1;
    }

    /** Frees an entry and masks its bits out. */
    method Clear(i: nat)
      requires Sized() && i < MAX_BPT
      modifies this, ea
      ensures Sized() && (old(Valid()) ==> Valid())
      ensures Slots() == old(Slots())[i := Free] && ea[..] == old(ea[..])[i := BADADDR]
      ensures dr7 == old(dr7) - Mask(i) && dr6 == old(dr6)
      ensures forall m ::
                m in dr7 <==> m in old(dr7) && m != 2 * i && m != 2 * i + 1 && !(16 + 4 * i <= m < 20 + 4 * i)
    {
      hide Encode, Shifted, GoodTable;
      ghost var before := Slots();
      if GoodTable(before) {
        ClearSlot(before, i);
      }
      ea[i] := BADADDR;
      dr7 := dr7 - Shifted(3, 2 * i);
      dr7 := dr7 - Shifted(0xF, 16 + 4 * i);
      assert Slots() == before[i := Free];
      forall m {
        MaskMeans(i, m);
      }
    }

    /** Main result: for every address, BADADDR included, deleting the breakpoint
        just added restores the register bit for bit, if it was in step with the
        table; from any other state exactly when the slot had no bits in it. */
    method AddThenDelete(k: Kind, at: Ea, len: int, refreshed: bool)
      returns (added: bool, deleted: bool, ghost slot: int)
      requires Sized()
      modifies this, ea, kind
      ensures Sized() && (added <==> slot != -1) && (deleted <==> added && refreshed)
      ensures ea[..] == old(ea[..]) && Slots() == old(Slots()) && dr6 == old(dr6)
      ensures old(Valid()) ==> dr7 == old(dr7)
      ensures 0 <= slot < MAX_BPT ==> (dr7 == old(dr7) <==> old(dr7) !! Mask(slot))
      ensures !added ==> dr7 == old(dr7)
    {
      hide Encode, Shifted, FieldOf, Mask, GoodTable, SlotFor;
      ghost var before, eas, kinds := Slots(), ea[..], kind[..];
      added, slot := Add(k, at, len, true);
      if !added {
        return added, false, slot;
      }
      TakesFree(eas, kinds, at, k, slot);
      DeleteRestoresExactly(old(dr7), slot, k, len);
      if old(Valid()) {
        FreeSlotHasNoBits(before, slot);
      }
      ghost var eas', kinds' := ea[..], kind[..];
      assert SameAt(eas', kinds', slot, at, k);
      assert forall j | 0 <= j < slot :: SameAt(eas', kinds', j, at, k) == SameAt(eas, kinds, j, at, k);
      ghost var freed;
      deleted, freed := Delete(at, k, refreshed);
      assert kind[..] == kinds';
      assert freed == slot;
    }
  }

  /** The slot was free, and no entry before it is the breakpoint. */
  lemma TakesFree(eas: seq<Ea>, kinds: seq<Kind>, at: Ea, k: Kind, r: int)
    requires |eas| == |kinds| == MAX_BPT && 0 <= r && SlotFor(eas, kinds, at, k, r)
    ensures r < MAX_BPT && eas[r] == BADADDR
    ensures forall j | 0 <= j < r :: !SameAt(eas, kinds, j, at, k)
  {
  }
}
