/** Debug names on their way to the client: addresses as signed differences,
    names without the prefix that they share with the name before, split over
    packets. */
module DebugNames {
  import opened Options
  import opened Words

  const ADDRESSES32: int := 0x1_0000_0000
  const SZPACKET: nat := 1024 * 1024

  /** A C string: no zero inside. */
  type Name = s: string | '\0' !in s

  datatype Item = Item(ea: Ea, name: Name)

  /** One name on the wire: magnitude and sign of the difference, the number of
      shared characters, and the rest of the name. */
  datatype Entry = Entry(diff: Ea, neg: bool, prefixLen: nat, suffix: Name)

  type Packet = seq<Entry>

  // ------------------------------------------------- signed 64-bit arithmetic

  /** The 64-bit word as a signed number. */
  function Signed(u: Ea): int {
    if u < ADDRESS_SPACE / 2 then u else u - ADDRESS_SPACE
  }

  function CommonPrefix(a: string, b: string): (n: nat)
    ensures n <= |a| && n <= |b| && a[..n] == b[..n]
    ensures n < |a| && n < |b| ==> a[n] != b[n]
  {
    if a == [] || b == [] || a[0] != b[0] then 0 else 1 + CommonPrefix(a[1..], b[1..])
  }

  // ---------------------------------------------------------------- one entry

  function Encode(prev: Ea, optr: Name, item: Item): Entry {
    var diff := Signed(Wrap(item.ea - prev));
    var neg := diff < 0;
    var len := CommonPrefix(item.name, optr);
    Entry(Wrap(if neg then -diff else diff), neg, len, item.name[len..])
  }

  /** What the client makes of an entry; it refuses a prefix that is too long. */
  function Decode(prev: Ea, name: Name, e: Entry): Option<Item> {
    if e.prefixLen > |name| then None
    else
      var o2 := Signed(e.diff);
      var o2' := if e.neg then Signed(Wrap(-o2)) else o2;
      Some(Item(Wrap(prev + o2'), name[..e.prefixLen] + e.suffix))
  }

  /** The difference survives, also -2^63, which is its own negation. */
  lemma DifferenceSurvives(prev: Ea, ea: Ea)
    ensures var diff := Signed(Wrap(ea - prev));
            -0x8000_0000_0000_0000 <= diff < 0x8000_0000_0000_0000 && Wrap(prev + diff) == ea
    ensures var diff := Signed(Wrap(ea - prev));
            var word := Wrap(if diff < 0 then -diff else diff);
            Wrap(prev + if diff < 0 then Signed(Wrap(-Signed(word))) else Signed(word)) == ea
  {
    hide Wrap;
    WrapNear(ea - prev);
    var diff := Signed(Wrap(ea - prev));
    WrapNear(prev + diff);
    WrapNear(if diff < 0 then -diff else diff);
    var word := Wrap(if diff < 0 then -diff else diff);
    WrapNear(-Signed(word));
    WrapNear(prev + if diff < 0 then Signed(Wrap(-Signed(word))) else Signed(word));
  }

  lemma EntryRoundTrip(prev: Ea, optr: Name, item: Item)
    ensures Decode(prev, optr, Encode(prev, optr, item)) == Some(item)
  {
    hide Wrap, Signed;
    DifferenceSurvives(prev, item.ea);
    var len := CommonPrefix(item.name, optr);
    assert optr[..len] + item.name[len..] == item.name;
  }

  /** What goes over the wire: no more of the name than what differs from the name
      before, and the smaller way around the address space, with its direction. */
  lemma EntryIsShort(prev: Ea, optr: Name, item: Item)
    ensures var e := Encode(prev, optr, item);
            var n := e.prefixLen;
            && n <= |optr| && n <= |item.name| && optr[..n] == item.name[..n] && e.suffix == item.name[n..]
            && (n < |optr| && n < |item.name| ==> optr[n] != item.name[n])
            && e.diff <= 0x8000_0000_0000_0000
            && (e.neg ==> 0 < e.diff && item.ea == (prev - e.diff) % ADDRESS_SPACE)
            && (!e.neg ==> e.diff < 0x8000_0000_0000_0000 && item.ea == (prev + e.diff) % ADDRESS_SPACE)
  {
    hide CommonPrefix, Wrap, Signed;
    ShortWay(prev, item.ea);
  }

  lemma ShortWay(prev: Ea, ea: Ea)
    ensures var diff := Signed(Wrap(ea - prev));
            && (diff < 0 ==> var d := Wrap(-diff); 0 < d <= 0x8000_0000_0000_0000 && ea == (prev - d) % ADDRESS_SPACE)
            && (diff >= 0 ==> var d := Wrap(diff); d < 0x8000_0000_0000_0000 && ea == (prev + d) % ADDRESS_SPACE)
  {
    DifferenceSurvives(prev, ea);
    var diff := Signed(Wrap(ea - prev));
    WrapNear(if diff < 0 then -diff else diff);
  }

  // --------------------------------------------------------------- one packet

  function EncodeAll(prev: Ea, optr: Name, items: seq<Item>): (p: Packet)
    ensures |p| == |items|
    decreases |items|
  {
    if items == [] then []
    else [Encode(prev, optr, items[0])] + EncodeAll(items[0].ea, items[0].name, items[1..])
  }

  function DecodeAll(prev: Ea, name: Name, p: Packet): (r: Option<seq<Item>>)
    ensures r.Some? ==> |r.value| == |p|
    decreases |p|
  {
    if p == [] then Some([])
    else
      match Decode(prev, name, p[0])
      case None => None
      case Some(item) =>
        match DecodeAll(item.ea, item.name, p[1..])
        case None => None
        case Some(rest) => Some([item] + rest)
  }

  lemma {:induction false} PacketRoundTrip(prev: Ea, optr: Name, items: seq<Item>)
    ensures DecodeAll(prev, optr, EncodeAll(prev, optr, items)) == Some(items)
    decreases |items|
  {
    hide Encode, Decode;
    if items != [] {
      var p := EncodeAll(prev, optr, items);
      assert p[0] == Encode(prev, optr, items[0]) && p[1..] == EncodeAll(items[0].ea, items[0].name, items[1..]);
      hide EncodeAll;
      EntryRoundTrip(prev, optr, items[0]);
      PacketRoundTrip(items[0].ea, items[0].name, items[1..]);
      assert [items[0]] + items[1..] == items;
    }
  }

  /** Each entry is relative to the one before it, the first one to address 0 and
      an empty name, or to what comes before. */
  lemma {:induction false} EntryAt(prev: Ea, optr: Name, items: seq<Item>, k: nat)
    requires k < |items|
    ensures EncodeAll(prev, optr, items)[k] ==
            if k == 0 then Encode(prev, optr, items[0]) else Encode(items[k - 1].ea, items[k - 1].name, items[k])
    decreases k
  {
    hide Encode;
    if 0 < k {
      EntryAt(items[0].ea, items[0].name, items[1..], k - 1);
    }
  }

  // -------------------------------------------------------------- all packets

  /** Bytes of a packet; the size of an entry is the codec's business. */
  function Size(p: Packet, size: Entry -> nat): nat {
    if p == [] then 0 else Size(p[..|p| - 1], size) + size(p[|p| - 1])
  }

  /** It is the sum over the entries. */
  lemma {:induction false} SizeAdds(a: Packet, b: Packet, size: Entry -> nat)
    ensures Size(a + b, size) == Size(a, size) + Size(b, size)
    ensures |b| == 1 ==> Size(b, size) == size(b[0])
  {
    if b == [] {
      assert a + b == a;
    } else {
      assert (a + b)[..|a + b| - 1] == a + b[..|b| - 1];
      SizeAdds(a, b[..|b| - 1], size);
    }
  }

  /** How many of the items the next packet takes: up to and including the one
      with which it exceeds the limit. */
  function Fill(items: seq<Item>, size: Entry -> nat, n: nat): (k: nat)
    requires n <= |items|
    ensures n <= k <= |items| && (n < |items| ==> n < k)
    decreases |items| - n
  {
    if n == |items| then n
    else if Size(EncodeAll(0, "", items[..n + 1]), size) > SZPACKET then n + 1
    else Fill(items, size, n + 1)
  }

  function Packets(items: seq<Item>, size: Entry -> nat): seq<Packet> {
    if items == [] then []
    else
      var n := Fill(items, size, 0);
      [EncodeAll(0, "", items[..n])] + Packets(items[n..], size)
  }

  /** Decodes packets one by one; difference and prefix begin anew in each. */
  function DecodePackets(ps: seq<Packet>): Option<seq<Item>> {
    if ps == [] then Some([])
    else
      match DecodeAll(0, "", ps[0])
      case None => None
      case Some(items) =>
        match DecodePackets(ps[1..])
        case None => None
        case Some(rest) => Some(items + rest)
  }

  /** Main result: what is sent is what arrives. */
  lemma {:induction false} RoundTrip(items: seq<Item>, size: Entry -> nat)
    ensures DecodePackets(Packets(items, size)) == Some(items)
  {
    hide EncodeAll, DecodeAll, Fill;
    if items != [] {
      var n := Fill(items, size, 0);
      PacketRoundTrip(0, "", items[..n]);
      RoundTrip(items[n..], size);
      assert items[..n] + items[n..] == items;
    }
  }

  /** Packets are not empty; only its last entry takes a packet over the limit,
      and all packets but the last one are over it. */
  ghost predicate WellSplit(ps: seq<Packet>, size: Entry -> nat) {
    forall k | 0 <= k < |ps| :: FitsUpToLast(ps[k], size, k == |ps| - 1)
  }

  lemma {:induction false} EncodePrefix(prev: Ea, optr: Name, items: seq<Item>, n: nat)
    requires n <= |items|
    ensures EncodeAll(prev, optr, items[..n]) == EncodeAll(prev, optr, items)[..n]
    decreases n
  {
    if 0 < n {
      assert items[..n][1..] == items[1..][..n - 1];
      EncodePrefix(items[0].ea, items[0].name, items[1..], n - 1);
    }
  }

  lemma {:induction false} FillFits(items: seq<Item>, size: Entry -> nat, n: nat)
    requires n < |items| && Size(EncodeAll(0, "", items[..n]), size) <= SZPACKET
    ensures var k := Fill(items, size, n);
            && Size(EncodeAll(0, "", items[..k - 1]), size) <= SZPACKET
            && (k < |items| ==> Size(EncodeAll(0, "", items[..k]), size) > SZPACKET)
    decreases |items| - n
  {
    hide Size, EncodeAll;
    if Size(EncodeAll(0, "", items[..n + 1]), size) <= SZPACKET && n + 1 < |items| {
      FillFits(items, size, n + 1);
    }
  }

  /** The packet is what one round of the sender puts together. */
  ghost predicate FitsUpToLast(p: Packet, size: Entry -> nat, last: bool) {
    p != [] && Size(p[..|p| - 1], size) <= SZPACKET && (!last ==> Size(p, size) > SZPACKET)
  }

  lemma FirstPacketFits(items: seq<Item>, size: Entry -> nat)
    requires items != []
    ensures var n := Fill(items, size, 0); FitsUpToLast(EncodeAll(0, "", items[..n]), size, n == |items|)
  {
    hide EncodeAll, Size, Fill;
    var n := Fill(items, size, 0);
    assert items[..0] == [];
    EmptyPacket(size);
    FillFits(items, size, 0);
    EncodePrefix(0, "", items[..n], n - 1);
    assert items[..n][..n - 1] == items[..n - 1];
  }

  lemma {:induction false} PacketsSplit(items: seq<Item>, size: Entry -> nat)
    ensures WellSplit(Packets(items, size), size)
    ensures items != [] ==> Packets(items, size) != []
  {
    hide EncodeAll, Size, Fill, FitsUpToLast;
    if items != [] {
      var n := Fill(items, size, 0);
      var rest := Packets(items[n..], size);
      FirstPacketFits(items, size);
      PacketsSplit(items[n..], size);
      var ps := Packets(items, size);
      forall k | 0 <= k < |ps|
        ensures FitsUpToLast(ps[k], size, k == |ps| - 1)
      {
        if k == 0 {
          assert n == |items| <==> rest == [];
        } else {
          assert ps[k] == rest[k - 1];
        }
      }
    }
  }

  /** Packets are not empty, only the last entry of a packet takes it over one
      mebibyte, and all packets but the last one are over it. */
  lemma PacketsWellSplit(items: seq<Item>, size: Entry -> nat)
    ensures var ps := Packets(items, size);
            forall k | 0 <= k < |ps| ::
              && ps[k] != [] && Size(ps[k][..|ps[k]| - 1], size) <= 0x10_0000
              && (k < |ps| - 1 ==> 0x10_0000 < Size(ps[k], size))
    ensures items != [] ==> Packets(items, size) != []
  {
    PacketsSplit(items, size);
  }

  lemma {:induction false} EncodeSnoc(prev: Ea, optr: Name, items: seq<Item>, n: nat)
    requires n < |items|
    ensures EncodeAll(prev, optr, items[..n + 1]) ==
            EncodeAll(prev, optr, items[..n]) +
            [if n == 0 then Encode(prev, optr, items[0]) else Encode(items[n - 1].ea, items[n - 1].name, items[n])]
    decreases n
  {
    hide Encode;
    if n == 0 {
      assert items[..1] == [items[0]];
    } else {
      assert items[..n + 1][1..] == items[1..][..n] && items[..n][1..] == items[1..][..n - 1];
      EncodeSnoc(items[0].ea, items[0].name, items[1..], n - 1);
    }
  }

  /** How the sender ends: all packets were acknowledged, or one was not. */
  datatype Code = RpcOk | RpcUnk

  /** The packets up to the first one whose reply is not its number of entries. */
  ghost predicate Acknowledged(ps: seq<Packet>, replies: nat -> int, n: nat)
    requires n <= |ps|
  {
    forall k | 0 <= k < n :: replies(k) == |ps[k]|
  }

  /** Sends all items; `replies` are the client's answers, packet by packet. */
  method SendDebugNames(items: seq<Item>, size: Entry -> nat, replies: nat -> int)
    returns (code: Code, sent: seq<Packet>)
    ensures sent <= Packets(items, size)
    ensures code == RpcOk <==> Acknowledged(Packets(items, size), replies, |Packets(items, size)|)
    ensures code == RpcOk ==> sent == Packets(items, size)
    ensures code == RpcUnk ==>
            sent != [] && Acknowledged(sent, replies, |sent| - 1) && replies(|sent| - 1) != |sent[|sent| - 1]|
  {
    hide Packets;
    ghost var all := Packets(items, size);
    sent := [];
    assert items[0..] == items;
    var first := 0;
    while first < |items|
      invariant first <= |items|
      invariant all == sent + Packets(items[first..], size)
      invariant Acknowledged(sent, replies, |sent|)
      decreases |items| - first
    {
      var buf := FillPacket(items[first..], size);
      var i := |buf|;
      PacketsStep(items[first..], size, buf);
      assert items[first..][i..] == items[first + i..];
      assert sent + ([buf] + Packets(items[first + i..], size)) == sent + [buf] + Packets(items[first + i..], size);
      sent := sent + [buf];
      assert all[|sent| - 1] == buf;
      if replies(|sent| - 1) != i {
        return RpcUnk, sent;
      }
      first := first + i;
    }
    assert items[first..] == [];
    NoPackets(size);
    return RpcOk, sent;
  }

  lemma NoPackets(size: Entry -> nat)
    ensures Packets([], size) == []
  {
  }

  lemma PacketsStep(items: seq<Item>, size: Entry -> nat, buf: Packet)
    requires items != [] && |buf| == Fill(items, size, 0) && buf == EncodeAll(0, "", items[..|buf|])
    ensures Packets(items, size) == [buf] + Packets(items[|buf|..], size)
  {
    hide EncodeAll, Fill;
  }

  /** The inner loop: puts items into a packet until it exceeds the limit. */
  method FillPacket(items: seq<Item>, size: Entry -> nat) returns (buf: Packet)
    requires items != []
    ensures buf == EncodeAll(0, "", items[..Fill(items, size, 0)]) && |buf| == Fill(items, size, 0)
  {
    hide Encode, EncodeAll, Wrap, Signed;
    buf := [];
    var bufSize := 0;
    var prev: Ea, optr: Name := 0, "";
    var i := 0;
    assert items[..0] == [];
    EmptyPacket(size);
    while i < |items|
      invariant i <= |items|
      invariant buf == EncodeAll(0, "", items[..i]) && bufSize == Size(buf, size)
      invariant if i == 0 then prev == 0 && optr == "" else prev == items[i - 1].ea && optr == items[i - 1].name
      invariant Fill(items, size, 0) == Fill(items, size, i)
    {
      var e := Encode(prev, optr, items[i]);
      EncodeSnoc(0, "", items, i);
      assert (buf + [e])[..|buf|] == buf;
      buf := buf + [e];
      bufSize := bufSize + size(e);
      prev, optr := items[i].ea, items[i].name;
      i := i + 1;
      if bufSize > SZPACKET {
        return;
      }
    }
  }

  lemma EmptyPacket(size: Entry -> nat)
    ensures EncodeAll(0, "", []) == [] && Size([], size) == 0
  {
  }

  // --------------------------------------------------------------- the client

  /** An address as the client stores it for a 64-bit or a 32-bit application. */
  function Stored(is64: bool, ea: Ea): Ea {
    if is64 then ea
    else if ea % ADDRESSES32 == ADDRESSES32 - 1 then BADADDR
    else ea % ADDRESSES32
  }

  ghost function StoredItems(is64: bool, items: seq<Item>): seq<Item> {
    seq(|items|, k requires 0 <= k < |items| => Item(Stored(is64, items[k].ea), items[k].name))
  }

  /** Decodes a packet; `ok` is false where the client's assertion would fail. */
  method ReceiveDebugNames(p: Packet, is64: bool) returns (ok: bool, items: seq<Item>)
    ensures ok <==> DecodeAll(0, "", p).Some?
    ensures ok ==> items == StoredItems(is64, DecodeAll(0, "", p).value)
  {
    hide Wrap, Signed, Stored;
    items := [];
    var prev: Ea, name: Name := 0, "";
    ghost var decoded: seq<Item> := [];
    assert p[0..] == p;
    if DecodeAll(0, "", p).Some? {
      assert [] + DecodeAll(0, "", p).value == DecodeAll(0, "", p).value;
    }
    for i := 0 to |p|
      invariant |decoded| == i && items == StoredItems(is64, decoded)
      invariant DecodeAll(0, "", p) == Prepend(decoded, DecodeAll(prev, name, p[i..]))
    {
      assert p[i..][1..] == p[i + 1..];
      var e := p[i];
      if e.prefixLen > |name| {
        return false, items;
      }
      var o2 := Signed(e.diff);
      if e.neg {
        o2 := Signed(Wrap(-o2));
      }
      prev := Wrap(prev + o2);
      name := name[..e.prefixLen] + e.suffix;
      decoded := decoded + [Item(prev, name)];
      items := items + [Item(Stored(is64, prev), name)];
      assert decoded[..i] + [Item(prev, name)] == decoded;
      PrependMore(decoded[..i], Item(prev, name), DecodeAll(prev, name, p[i + 1..]));
    }
    assert decoded + [] == decoded;
    return true, items;
  }

  ghost function Prepend(front: seq<Item>, r: Option<seq<Item>>): Option<seq<Item>> {
    if r.Some? then Some(front + r.value) else None
  }

  lemma PrependMore(front: seq<Item>, item: Item, r: Option<seq<Item>>)
    ensures Prepend(front, Prepend([item], r)) == Prepend(front + [item], r)
  {
    if r.Some? {
      assert front + ([item] + r.value) == front + [item] + r.value;
    }
  }

  /** The client stores what was sent, for every list of names of a 64-bit
      application; for a 32-bit one exactly when all addresses are below the
      last 32-bit address or are the bad address. */
  lemma StoredAsSent(items: seq<Item>, is64: bool)
    ensures StoredItems(is64, items) == items <==>
            is64 || forall k | 0 <= k < |items| :: items[k].ea < ADDRESSES32 - 1 || items[k].ea == BADADDR
  {
    var stored := StoredItems(is64, items);
    if stored == items {
      forall k | 0 <= k < |items|
        ensures is64 || items[k].ea < ADDRESSES32 - 1 || items[k].ea == BADADDR
      {
        assert stored[k].ea == Stored(is64, items[k].ea);
      }
    }
  }
}
