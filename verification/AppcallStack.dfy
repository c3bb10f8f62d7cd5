/** The stack image of an application call: where it lies and what it holds. */
module AppcallStack {
  import Arith
  import opened Options
  import opened Words

  const RED_ZONE: int := 128

  /** Debugger modules: 32-bit and 64-bit builds of the PC one, and the ARM one. */
  datatype Arch = Pc32 | Pc64 | Arm

  function AlignUp(size: nat, unit: nat): (r: nat)
    requires 0 < unit
    ensures size <= r < size + unit
  {
    var m := size % unit;
    if m == 0 then size else size + unit - m
  }

  /** The top of the stack range that the call may use. */
  function OrgSp(arch: Arch, sp: Ea): Ea {
    if arch != Pc64 then sp
    else if sp > RED_ZONE then sp - RED_ZONE else BADADDR
  }

  /** The 16-byte boundary at or below `x`. */
  function Align16(x: int): (r: int)
    ensures x - 16 < r <= x
    ensures 0 <= x ==> 0 <= r
  {
    x - x % 16
  }

  /** The addresses computed for one call. */
  datatype Layout = Layout(argsSp: Ea, ctrlEa: Ea, sp: Ea)

  /** Room for the arguments: their size in whole stack units. */
  function Room(addrSize: nat, argSize: nat): (r: nat)
    requires addrSize in {4, 8}
    ensures argSize <= r < argSize + addrSize
  {
    AlignUp(argSize, addrSize)
  }

  lemma RoomIsWhole(addrSize: nat, argSize: nat, room: nat)
    requires addrSize in {4, 8} && room == Room(addrSize, argSize)
    ensures argSize <= room < argSize + addrSize && room % addrSize == 0
  {
  }

  /** The layout below `orgSp`; all additions and subtractions are 64-bit ones. */
  function LayoutOf(addrSize: nat, orgSp: Ea, argSize: nat): Layout
    requires addrSize in {4, 8}
  {
    var room := Room(addrSize, argSize);
    var below := Wrap(Wrap(orgSp - addrSize) - room);
    var argsSp: Ea := Align16(below);
    Layout(argsSp, Wrap(argsSp + room), Wrap(argsSp - addrSize))
  }

  /** The underflow test of the source passes. */
  predicate Passes(orgSp: Ea, l: Layout) {
    l.sp < orgSp
  }

  /** The layout over the integers, which may fall below zero. */
  function TrueArgsSp(addrSize: nat, orgSp: Ea, argSize: nat): int
    requires addrSize in {4, 8}
  {
    Align16(orgSp - addrSize - Room(addrSize, argSize))
  }

  /** A block of arguments fits in memory. */
  const MAX_ARGS: nat := 0x8000_0000_0000_0000

  lemma WrapTwice(orgSp: Ea, addrSize: nat, room: nat)
    requires addrSize in {4, 8} && room < MAX_ARGS + 8
    ensures var below := orgSp - addrSize - room;
            Wrap(Wrap(orgSp - addrSize) - room) == if below < 0 then below + ADDRESS_SPACE else below
  {
    hide Wrap;
    WrapNear(orgSp - addrSize);
    WrapNear(Wrap(orgSp - addrSize) - room);
  }

  /** The 64-bit layout is the true one, up to one wrap-around. */
  lemma LayoutWraps(addrSize: nat, orgSp: Ea, argSize: nat)
    requires addrSize in {4, 8} && argSize <= MAX_ARGS
    ensures var l, args := LayoutOf(addrSize, orgSp, argSize), TrueArgsSp(addrSize, orgSp, argSize);
            && -ADDRESS_SPACE < args - addrSize < orgSp
            && orgSp - (args - addrSize) < ADDRESS_SPACE
            && l.argsSp == (if args < 0 then args + ADDRESS_SPACE else args)
            && l.sp == (if args - addrSize < 0 then args - addrSize + ADDRESS_SPACE else args - addrSize)
  {
    hide AlignUp, Wrap, Room, Align16;
    var room := Room(addrSize, argSize);
    var below := orgSp - addrSize - room;
    WrapTwice(orgSp, addrSize, room);
    AlignWraps(below);
    WrapNear(LayoutOf(addrSize, orgSp, argSize).argsSp - addrSize);
  }

  /** Aligning down commutes with one wrap-around. */
  lemma AlignWraps(below: int)
    requires -ADDRESS_SPACE <= below < ADDRESS_SPACE
    ensures var w: int := if below < 0 then below + ADDRESS_SPACE else below;
            var args := Align16(below);
            && Align16(w) == (if args < 0 then args + ADDRESS_SPACE else args)
            && -ADDRESS_SPACE <= args
  {
    assert ADDRESS_SPACE % 16 == 0;
    assert (below + ADDRESS_SPACE) % 16 == below % 16;
    assert (-ADDRESS_SPACE) % 16 == 0;
  }

  /** The underflow test passes exactly when the image does not reach below
      address zero. */
  lemma TestIsExact(addrSize: nat, orgSp: Ea, argSize: nat)
    requires addrSize in {4, 8} && argSize <= MAX_ARGS
    ensures Passes(orgSp, LayoutOf(addrSize, orgSp, argSize)) <==> 0 <= TrueArgsSp(addrSize, orgSp, argSize) - addrSize
  {
    hide LayoutOf, TrueArgsSp;
    LayoutWraps(addrSize, orgSp, argSize);
  }

  // ---------------------------------------------------------------- the image

  type Byte = b: nat | b < 256

  /** `n` bytes of an address, lowest byte first. */
  function LittleEndian(v: nat, n: nat): (r: seq<Byte>)
    ensures |r| == n
  {
    if n == 0 then [] else [v % 256] + LittleEndian(v / 256, n - 1)
  }

  function ValueOf(bs: seq<Byte>): nat {
    if bs == [] then 0 else bs[0] + 256 * ValueOf(bs[1..])
  }

  /** A stack breakpoint and an endless loop, for PC targets. */
  const BPT_AND_LOOP: seq<Byte> := [0xCC, 0xEB, 0xFE]

  /** The part of the image that is written, and where: the return address and
      the arguments, for PC with the code to return to, for ARM without the
      return address, which goes into a register. */
  datatype Image = Image(start: Ea, bytes: seq<Byte>)

  function Padded(args: seq<Byte>, room: nat): (r: seq<Byte>)
    requires |args| <= room
    ensures |r| == room && r[..|args|] == args
  {
    args + seq(room - |args|, _ => 0)
  }

  method BuildImage(arch: Arch, addrSize: nat, l: Layout, args: seq<Byte>) returns (image: Image)
    requires addrSize in {4, 8}
    ensures image == ImageOf(arch, addrSize, l, args)
  {
    var stk := LittleEndian(l.ctrlEa, addrSize);
    stk := stk + Padded(args, Room(addrSize, |args|));
    var delta := 0;
    if arch == Arm {
      delta := addrSize;
    } else {
      stk := stk + BPT_AND_LOOP;
    }
    image := Image(Wrap(l.sp + delta), stk[delta..]);
  }

  function ImageOf(arch: Arch, addrSize: nat, l: Layout, args: seq<Byte>): Image
    requires addrSize in {4, 8}
  {
    var padded := Padded(args, Room(addrSize, |args|));
    if arch == Arm then Image(Wrap(l.sp + addrSize), padded)
    else Image(l.sp, LittleEndian(l.ctrlEa, addrSize) + padded + BPT_AND_LOOP)
  }

  /** The byte of the image at an address. */
  ghost predicate Holds(image: Image, ea: int, bs: seq<Byte>) {
    image.start <= ea && ea + |bs| <= image.start + |image.bytes| &&
    image.bytes[ea - image.start..ea - image.start + |bs|] == bs
  }

  /** Main result for one call. When the underflow test passes: the arguments are
      aligned to 16 bytes, the control address and a stack unit above it are below
      the usable top, by less than 16 bytes, and the image lies between the new
      stack pointer and that top, without wrapping. The arguments are where the
      caller is told; on PC the return slot is at the stack pointer, and the code to
      stop at is at the control address. */
  lemma ImageFits(arch: Arch, addrSize: nat, orgSp: Ea, args: seq<Byte>)
    requires addrSize in {4, 8} && |args| <= MAX_ARGS
    requires Passes(orgSp, LayoutOf(addrSize, orgSp, |args|))
    ensures var l := LayoutOf(addrSize, orgSp, |args|);
            var image := ImageOf(arch, addrSize, l, args);
            && l.argsSp % 16 == 0 && l.ctrlEa + addrSize <= orgSp < l.ctrlEa + addrSize + 16
            && image.start == (if arch == Arm then l.argsSp else l.sp) && l.sp + addrSize == l.argsSp
            && image.start + |image.bytes| <= orgSp
            && Holds(image, l.argsSp, args)
            && |args| <= l.ctrlEa - l.argsSp < |args| + addrSize && (l.ctrlEa - l.argsSp) % addrSize == 0
            && (forall k | l.argsSp - image.start + |args| <= k < l.ctrlEa - image.start :: image.bytes[k] == 0)
            && (arch != Arm ==>
                 Holds(image, l.sp, LittleEndian(l.ctrlEa, addrSize)) && Holds(image, l.ctrlEa, [0xCC, 0xEB, 0xFE]))
  {
    hide *;
    var l := LayoutOf(addrSize, orgSp, |args|);
    PlacesOf(addrSize, orgSp, |args|);
    ImageHolds(arch, addrSize, l, args);
    ImagePadded(arch, addrSize, l, args);
    RoomIsWhole(addrSize, |args|, l.ctrlEa - l.argsSp);
    StopCode();
  }

  lemma StopCode()
    ensures BPT_AND_LOOP == [0xCC, 0xEB, 0xFE]
  {
  }

  /** Behind the arguments come zeros up to the control address. */
  lemma ImagePadded(arch: Arch, addrSize: nat, l: Layout, args: seq<Byte>)
    requires addrSize in {4, 8}
    requires l.sp + addrSize == l.argsSp && l.ctrlEa == l.argsSp + Room(addrSize, |args|)
    ensures var image := ImageOf(arch, addrSize, l, args);
            && image.start <= l.argsSp && l.ctrlEa <= image.start + |image.bytes|
            && forall k | l.argsSp - image.start + |args| <= k < l.ctrlEa - image.start :: image.bytes[k] == 0
  {
    hide LittleEndian, AlignUp, Room, Wrap;
    WrapNear(l.sp + addrSize);
  }

  /** What an image holds, for any layout of plain numbers. */
  lemma ImageHolds(arch: Arch, addrSize: nat, l: Layout, args: seq<Byte>)
    requires addrSize in {4, 8}
    requires l.sp + addrSize == l.argsSp && l.ctrlEa == l.argsSp + Room(addrSize, |args|)
    ensures var image := ImageOf(arch, addrSize, l, args);
            && image.start == (if arch == Arm then l.argsSp else l.sp)
            && image.start + |image.bytes| == l.ctrlEa + (if arch == Arm then 0 else 3)
            && Holds(image, l.argsSp, args)
            && (arch != Arm ==>
                 Holds(image, l.sp, LittleEndian(l.ctrlEa, addrSize)) && Holds(image, l.ctrlEa, BPT_AND_LOOP))
  {
    hide LittleEndian, AlignUp, Room, Wrap, Padded, Holds;
    var padded := Padded(args, Room(addrSize, |args|));
    if arch == Arm {
      WrapNear(l.sp + addrSize);
      ThreeParts(l.argsSp, [], padded, [], args);
      assert [] + padded + [] == padded;
    } else {
      ThreeParts(l.sp, LittleEndian(l.ctrlEa, addrSize), padded, BPT_AND_LOOP, args);
    }
  }

  lemma ThreeParts(start: Ea, a: seq<Byte>, b: seq<Byte>, c: seq<Byte>, front: seq<Byte>)
    requires |front| <= |b| && b[..|front|] == front
    ensures var image := Image(start, a + b + c);
            && Holds(image, start, a)
            && Holds(image, start + |a|, front)
            && Holds(image, start + |a| + |b|, c)
  {
    var s := a + b + c;
    assert s[0..|a|] == a;
    assert s[|a|..|a| + |front|] == b[..|front|];
    var ab := a + b;
    assert s[|ab|..] == c;
    assert s[|ab|..|ab| + |c|] == s[|ab|..];
  }

  /** The places of a layout that passes the test, as plain numbers. */
  lemma PlacesOf(addrSize: nat, orgSp: Ea, argSize: nat)
    requires addrSize in {4, 8} && argSize <= MAX_ARGS
    requires Passes(orgSp, LayoutOf(addrSize, orgSp, argSize))
    ensures var l, room := LayoutOf(addrSize, orgSp, argSize), Room(addrSize, argSize);
            && l.argsSp % 16 == 0
            && l.sp + addrSize == l.argsSp
            && l.ctrlEa == l.argsSp + room
            && l.ctrlEa + addrSize <= orgSp < l.ctrlEa + addrSize + 16
  {
    LayoutWraps(addrSize, orgSp, argSize);
    TestIsExact(addrSize, orgSp, argSize);
    var l, room := LayoutOf(addrSize, orgSp, argSize), Room(addrSize, argSize);
    assert l.argsSp == TrueArgsSp(addrSize, orgSp, argSize);
    WrapNear(l.argsSp + room);
  }

  /** On 64-bit PC targets the image stays out of the 128 bytes below the stack
      pointer (section 3.2.2 of the System V AMD64 ABI). */
  lemma RedZoneKept(addrSize: nat, sp: Ea, args: seq<Byte>)
    requires addrSize in {4, 8} && |args| <= MAX_ARGS && OrgSp(Pc64, sp) != BADADDR
    requires Passes(OrgSp(Pc64, sp), LayoutOf(addrSize, OrgSp(Pc64, sp), |args|))
    ensures OrgSp(Pc64, sp) == sp - 128
    ensures var image := ImageOf(Pc64, addrSize, LayoutOf(addrSize, OrgSp(Pc64, sp), |args|), args);
            image.start + |image.bytes| <= sp - 128
  {
    hide LayoutOf, ImageOf;
    ImageFits(Pc64, addrSize, OrgSp(Pc64, sp), args);
  }

  function Power256(n: nat): nat {
    if n == 0 then 1 else 256 * Power256(n - 1)
  }

  /** There is no usable top exactly below the red zone on 64-bit PC targets, and
      elsewhere where the stack pointer itself is BADADDR. */
  lemma NoTopExactly(arch: Arch, sp: Ea)
    ensures OrgSp(arch, sp) == 0xFFFF_FFFF_FFFF_FFFF
            <==> if arch == Pc64 then sp <= 128 else sp == 0xFFFF_FFFF_FFFF_FFFF
    ensures OrgSp(arch, sp) != 0xFFFF_FFFF_FFFF_FFFF ==> sp - OrgSp(arch, sp) == if arch == Pc64 then 128 else 0
  {
  }

  /** A slot of `n` bytes holds a value up to multiples of 256^n. */
  lemma {:induction false} SlotHolds(v: nat, n: nat)
    ensures 0 < Power256(n) && ValueOf(LittleEndian(v, n)) == v % Power256(n)
  {
    if 0 < n {
      SlotHolds(v / 256, n - 1);
      assert LittleEndian(v, n)[1..] == LittleEndian(v / 256, n - 1);
      OneDigitMore(v, Power256(n - 1));
    }
  }

  lemma OneDigitMore(v: nat, m: nat)
    requires 0 < m
    ensures v % (256 * m) == v % 256 + 256 * (v / 256 % m)
  {
    var u, d := v / 256, v % 256;
    var q, r := u / m, u % m;
    assert u == m * q + r;
    assert v == 256 * m * q + (256 * r + d);
    Arith.DivModUnique(v, 256 * m, q, 256 * r + d);
  }

  /** What the processor reads from `n` bytes of the image at an address. */
  ghost function ReadAt(image: Image, ea: int, n: nat): nat
    requires image.start <= ea && ea + n <= image.start + |image.bytes|
  {
    ValueOf(image.bytes[ea - image.start..ea - image.start + n])
  }

  /** On PC the callee returns to the control address, where the code to stop at
      is, exactly when the address fits the return slot. */
  lemma ReturnAddressReadsBack(arch: Arch, addrSize: nat, orgSp: Ea, args: seq<Byte>)
    requires addrSize in {4, 8} && |args| <= MAX_ARGS && arch != Arm
    requires Passes(orgSp, LayoutOf(addrSize, orgSp, |args|))
    ensures var l := LayoutOf(addrSize, orgSp, |args|);
            var image := ImageOf(arch, addrSize, l, args);
            && l.sp == image.start && addrSize <= |image.bytes|
            && (ReadAt(image, l.sp, addrSize) == l.ctrlEa <==> l.ctrlEa < Power256(addrSize))
            && (addrSize == 8 ==> ReadAt(image, l.sp, addrSize) == l.ctrlEa)
            && Holds(image, l.ctrlEa, BPT_AND_LOOP)
  {
    hide LayoutOf, ImageOf, Passes, LittleEndian, ValueOf;
    var l := LayoutOf(addrSize, orgSp, |args|);
    ImageFits(arch, addrSize, orgSp, args);
    SlotHolds(l.ctrlEa, addrSize);
    BelowModulus(l.ctrlEa, Power256(addrSize));
    assert Power256(8) == ADDRESS_SPACE;
  }

  lemma BelowModulus(v: nat, m: nat)
    requires 0 < m
    ensures v % m == v <==> v < m
  {
  }

  // ------------------------------------------------------------- nested calls

  /** Calls nested in one another: each starts from the stack pointer that the
      one around it has set. None if the stack does not suffice. */
  function Nested(arch: Arch, addrSize: nat, sp: Ea, calls: seq<seq<Byte>>): Option<seq<Image>>
    requires addrSize in {4, 8}
    decreases |calls|
  {
    if calls == [] then Some([])
    else
      var orgSp := OrgSp(arch, sp);
      if orgSp == BADADDR then None
      else
        var l := LayoutOf(addrSize, orgSp, |calls[0]|);
        if !Passes(orgSp, l) then None
        else
          var image := ImageOf(arch, addrSize, l, calls[0]);
          match Nested(arch, addrSize, image.start, calls[1..])
          case None => None
          case Some(rest) => Some([image] + rest)
  }

  /** The images of nested calls lie below one another and do not overlap. */
  lemma {:induction false} NestedDescend(arch: Arch, addrSize: nat, sp: Ea, calls: seq<seq<Byte>>)
    requires addrSize in {4, 8} && forall k | 0 <= k < |calls| :: |calls[k]| <= MAX_ARGS
    requires Nested(arch, addrSize, sp, calls).Some?
    ensures var images := Nested(arch, addrSize, sp, calls).value;
            && |images| == |calls|
            && Descending(sp, images)
    decreases |calls|
  {
    hide LayoutOf, ImageOf, Passes, Holds, Padded, LittleEndian, Wrap;
    if calls != [] {
      var orgSp := OrgSp(arch, sp);
      var image := ImageOf(arch, addrSize, LayoutOf(addrSize, orgSp, |calls[0]|), calls[0]);
      FirstBelow(arch, addrSize, sp, calls[0]);
      NestedDescend(arch, addrSize, image.start, calls[1..]);
      BelowFirst(sp, image, Nested(arch, addrSize, image.start, calls[1..]).value);
    }
  }

  /** The first image lies below the stack pointer. */
  lemma FirstBelow(arch: Arch, addrSize: nat, sp: Ea, args: seq<Byte>)
    requires addrSize in {4, 8} && |args| <= MAX_ARGS && OrgSp(arch, sp) != BADADDR
    requires Passes(OrgSp(arch, sp), LayoutOf(addrSize, OrgSp(arch, sp), |args|))
    ensures var image := ImageOf(arch, addrSize, LayoutOf(addrSize, OrgSp(arch, sp), |args|), args);
            End(image) <= sp
  {
    hide LayoutOf, ImageOf, Passes, Holds;
    ImageFits(arch, addrSize, OrgSp(arch, sp), args);
  }

  function End(image: Image): nat {
    image.start + |image.bytes|
  }

  /** `images` lie below `sp` and below one another. */
  ghost predicate Descending(sp: nat, images: seq<Image>) {
    && (forall k | 0 <= k < |images| :: End(images[k]) <= sp)
    && (forall j, k | 0 <= j < k < |images| :: End(images[k]) <= images[j].start)
  }

  lemma BelowFirst(sp: nat, image: Image, rest: seq<Image>)
    requires End(image) <= sp && Descending(image.start, rest)
    ensures Descending(sp, [image] + rest)
  {
    var all := [image] + rest;
    forall j, k | 0 <= j < k < |all| ensures End(all[k]) <= all[j].start {
      assert all[k] == rest[k - 1];
    }
  }
}
