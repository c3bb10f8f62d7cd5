/** Breakpoint updates through the connection: the client gathers the entries to
    add and to delete into a request, the server hands them to its debugger module,
    and the client scatters the answers over its own array. */
module UpdateBpts {
  import opened Options
  import opened Words

  const INT_MAX: int := 0x7FFF_FFFF
  const BPT_OK: Byte := 0
  const BPT_SOFT: int := 4

  type Byte = b: nat | b < 256

  datatype Bpt = Bpt(ea: Ea, size: int, typ: int, pid: int, tid: int, code: Byte, orgbytes: seq<Byte>)

  /** The packed values, each with its kind. */
  datatype Token = Dd(dd: int) | Ea64(ea: Ea) | Db(db: Byte)

  type Stream = seq<Token>

  /** What has been read, and what is left of the stream. */
  datatype Parsed<+T> = Parsed(value: T, rest: Stream)

  lemma WrapDifference(ea: Ea, prev: Ea)
    ensures Wrap(prev + Wrap(ea - prev)) == ea
  {
  }

  // -------------------------------------------------------------- the request

  function Bytes(bs: seq<Byte>): (r: Stream)
    ensures |r| == |bs| && forall k | 0 <= k < |bs| :: r[k] == Db(bs[k])
  {
    if bs == [] then [] else [Db(bs[0])] + Bytes(bs[1..])
  }

  function AddTokens(prev: Ea, b: Bpt): Stream {
    [Ea64(Wrap(b.ea - prev)), Dd(b.size), Dd(b.typ), Dd(b.pid), Dd(b.tid)]
  }

  /** The length byte holds what is left of a longer length. */
  function DelTokens(prev: Ea, b: Bpt): Stream {
    [Ea64(Wrap(b.ea - prev)), Db(|b.orgbytes| % 256)] + Bytes(b.orgbytes) + [Dd(b.typ), Dd(b.pid), Dd(b.tid)]
  }

  /** The additions; entries that are not in order are skipped. */
  function EncodeAdds(prev: Ea, bs: seq<Bpt>): Stream
    decreases |bs|
  {
    if bs == [] then []
    else if bs[0].code != BPT_OK then EncodeAdds(prev, bs[1..])
    else AddTokens(prev, bs[0]) + EncodeAdds(bs[0].ea, bs[1..])
  }

  function EncodeDels(prev: Ea, bs: seq<Bpt>): Stream
    decreases |bs|
  {
    if bs == [] then [] else DelTokens(prev, bs[0]) + EncodeDels(bs[0].ea, bs[1..])
  }

  /** The additions that are in order. */
  function Live(bs: seq<Bpt>): (r: seq<Bpt>)
    ensures |r| <= |bs|
  {
    if bs == [] then [] else (if bs[0].code == BPT_OK then [bs[0]] else []) + Live(bs[1..])
  }

  function EncodeRequest(adds: seq<Bpt>, dels: seq<Bpt>): Stream {
    [Dd(|Live(adds)|), Dd(|dels|)] + (EncodeAdds(0, adds) + EncodeDels(0, dels))
  }

  // ------------------------------------------------------ the server reads it

  /** What the server sees of an addition and of a deletion. */
  function SeenAdd(b: Bpt): Bpt {
    Bpt(b.ea, b.size, b.typ, b.pid, b.tid, BPT_OK, [])
  }

  function SeenDel(b: Bpt): Bpt {
    Bpt(b.ea, 0, b.typ, b.pid, b.tid, BPT_OK, b.orgbytes)
  }

  function SeenAdds(bs: seq<Bpt>): seq<Bpt> {
    if bs == [] then [] else [SeenAdd(bs[0])] + SeenAdds(bs[1..])
  }

  function SeenDels(bs: seq<Bpt>): seq<Bpt> {
    if bs == [] then [] else [SeenDel(bs[0])] + SeenDels(bs[1..])
  }

  function ReadAdd(prev: Ea, s: Stream): Option<Parsed<Bpt>> {
    if |s| >= 5 && s[0].Ea64? && s[1].Dd? && s[2].Dd? && s[3].Dd? && s[4].Dd? then
      Some(Parsed(Bpt(Wrap(prev + s[0].ea), s[1].dd, s[2].dd, s[3].dd, s[4].dd, BPT_OK, []), s[5..]))
    else None
  }

  /** `n` bytes, if that many come next. */
  function ReadBytes(s: Stream, n: nat): Option<Parsed<seq<Byte>>>
  {
    if n == 0 then Some(Parsed([], s))
    else if s == [] || !s[0].Db? then None
    else
      match ReadBytes(s[1..], n - 1)
      case None => None
      case Some(p) => Some(Parsed([s[0].db] + p.value, p.rest))
  }

  function ReadDel(prev: Ea, s: Stream): Option<Parsed<Bpt>> {
    if |s| < 2 || !s[0].Ea64? || !s[1].Db? then None
    else
      match ReadBytes(s[2..], s[1].db)
      case None => None
      case Some(p) =>
        var t := p.rest;
        if |t| >= 3 && t[0].Dd? && t[1].Dd? && t[2].Dd? then
          Some(Parsed(Bpt(Wrap(prev + s[0].ea), 0, t[0].dd, t[1].dd, t[2].dd, BPT_OK, p.value), t[3..]))
        else None
  }

  function ReadEntries(read: (Ea, Stream) -> Option<Parsed<Bpt>>, n: nat, prev: Ea, s: Stream): Option<Parsed<seq<Bpt>>>
    decreases n
  {
    if n == 0 then Some(Parsed([], s))
    else
      match read(prev, s)
      case None => None
      case Some(p) => Cons(p.value, ReadEntries(read, n - 1, p.value.ea, p.rest))
  }

  function Cons(b: Bpt, r: Option<Parsed<seq<Bpt>>>): Option<Parsed<seq<Bpt>>> {
    if r.Some? then Some(Parsed([b] + r.value.value, r.value.rest)) else None
  }

  /** The counts of a request that the server does not even try to read. */
  predicate Incorrect(s: Stream) {
    |s| >= 2 && s[0].Dd? && s[1].Dd? && (s[0].dd < 0 || s[1].dd < 0 || INT_MAX - s[1].dd < s[0].dd)
  }

  /** The additions and deletions of a request; none if it cannot be read. */
  function DecodeRequest(s: Stream): Option<(seq<Bpt>, seq<Bpt>)> {
    if |s| < 2 || !s[0].Dd? || !s[1].Dd? || Incorrect(s) then None
    else
      match ReadEntries(ReadAdd, s[0].dd, 0, s[2..])
      case None => None
      case Some(adds) =>
        match ReadEntries(ReadDel, s[1].dd, 0, adds.rest)
        case None => None
        case Some(dels) => Some((adds.value, dels.value))
  }

  /** All original bytes fit the length byte. */
  ghost predicate Short(bs: seq<Bpt>) {
    forall k | 0 <= k < |bs| :: |bs[k].orgbytes| <= 255
  }

  lemma ReadBytesStep(b: Byte, s: Stream, n: nat)
    ensures ReadBytes([Db(b)] + s, n + 1) ==
            match ReadBytes(s, n) case None => None case Some(p) => Some(Parsed([b] + p.value, p.rest))
  {
    assert ([Db(b)] + s)[1..] == s;
  }

  lemma BytesCons(bs: seq<Byte>)
    requires bs != []
    ensures Bytes(bs) == [Db(bs[0])] + Bytes(bs[1..])
  {
  }

  lemma SlicesCons(bs: seq<Byte>, n: nat)
    requires 0 < n <= |bs|
    ensures bs[1..][n - 1..] == bs[n..] && [bs[0]] + bs[1..][..n - 1] == bs[..n]
  {
  }

  lemma {:induction false} ReadBytesBack(bs: seq<Byte>, n: nat, rest: Stream)
    requires n <= |bs|
    ensures ReadBytes(Bytes(bs) + rest, n) == Some(Parsed(bs[..n], Bytes(bs[n..]) + rest))
  {
    if n == 0 {
      assert bs[0..] == bs;
    } else {
      hide ReadBytes, Bytes;
      var tail := bs[1..];
      BytesCons(bs);
      assert Bytes(bs) + rest == [Db(bs[0])] + (Bytes(tail) + rest);
      ReadBytesStep(bs[0], Bytes(tail) + rest, n - 1);
      ReadBytesBack(tail, n - 1, rest);
      SlicesCons(bs, n);
    }
  }

  lemma {:induction false} ReadBytesCount(s: Stream, n: nat)
    ensures ReadBytes(s, n).Some? ==> |ReadBytes(s, n).value.value| == n
  {
    if n != 0 && s != [] {
      ReadBytesCount(s[1..], n - 1);
    }
  }

  lemma ReadAddBack(prev: Ea, b: Bpt, rest: Stream)
    ensures ReadAdd(prev, AddTokens(prev, b) + rest) == Some(Parsed(SeenAdd(b), rest))
  {
    hide Wrap;
    WrapDifference(b.ea, prev);
    assert (AddTokens(prev, b) + rest)[5..] == rest;
  }

  /** A deletion is read as it was if its bytes fit the length byte; otherwise
      the reading breaks off. */
  lemma ReadDelBack(prev: Ea, b: Bpt, rest: Stream)
    ensures ReadDel(prev, DelTokens(prev, b) + rest) ==
            if |b.orgbytes| <= 255 then Some(Parsed(SeenDel(b), rest)) else None
  {
    hide ReadDel, DelTokens, SeenDel;
    if |b.orgbytes| <= 255 {
      ReadShortDel(prev, b, rest);
    } else {
      ReadLongDel(prev, b, rest);
    }
  }

  /** What follows the original bytes of a deletion. */
  function DelTail(b: Bpt, rest: Stream): Stream {
    [Dd(b.typ), Dd(b.pid), Dd(b.tid)] + rest
  }

  lemma DelTokensAre(prev: Ea, b: Bpt, rest: Stream)
    ensures var s := DelTokens(prev, b) + rest;
            && |s| >= 2 && s[0] == Ea64(Wrap(b.ea - prev)) && s[1] == Db(|b.orgbytes| % 256)
            && s[2..] == Bytes(b.orgbytes) + DelTail(b, rest)
  {
    hide Wrap, Bytes;
  }

  lemma ReadShortDel(prev: Ea, b: Bpt, rest: Stream)
    requires |b.orgbytes| <= 255
    ensures ReadDel(prev, DelTokens(prev, b) + rest) == Some(Parsed(SeenDel(b), rest))
  {
    hide Wrap, ReadBytes, Bytes, DelTokens;
    DelTokensAre(prev, b, rest);
    WrapDifference(b.ea, prev);
    var n := |b.orgbytes|;
    ReadBytesBack(b.orgbytes, n, DelTail(b, rest));
    assert b.orgbytes[..n] == b.orgbytes && Bytes(b.orgbytes[n..]) + DelTail(b, rest) == DelTail(b, rest);
    assert DelTail(b, rest)[3..] == rest;
  }

  lemma ReadLongDel(prev: Ea, b: Bpt, rest: Stream)
    requires 255 < |b.orgbytes|
    ensures ReadDel(prev, DelTokens(prev, b) + rest) == None
  {
    hide Wrap, ReadBytes, Bytes, DelTokens;
    DelTokensAre(prev, b, rest);
    var n := |b.orgbytes| % 256;
    ReadBytesBack(b.orgbytes, n, DelTail(b, rest));
    var t := Bytes(b.orgbytes[n..]) + DelTail(b, rest);
    assert t[0] == Db(b.orgbytes[n..][0]);
  }

  lemma {:induction false} ReadAddsBack(prev: Ea, bs: seq<Bpt>, rest: Stream)
    ensures ReadEntries(ReadAdd, |Live(bs)|, prev, EncodeAdds(prev, bs) + rest)
            == Some(Parsed(SeenAdds(Live(bs)), rest))
    decreases |bs|
  {
    hide AddTokens, ReadAdd;
    if bs == [] {
      assert [] + rest == rest;
    } else if bs[0].code != BPT_OK {
      assert Live(bs) == Live(bs[1..]);
      ReadAddsBack(prev, bs[1..], rest);
    } else {
      var tail := EncodeAdds(bs[0].ea, bs[1..]) + rest;
      assert AddTokens(prev, bs[0]) + EncodeAdds(bs[0].ea, bs[1..]) + rest == AddTokens(prev, bs[0]) + tail;
      ReadAddBack(prev, bs[0], tail);
      ReadAddsBack(bs[0].ea, bs[1..], rest);
      assert Live(bs)[1..] == Live(bs[1..]);
    }
  }

  lemma {:induction false} ReadDelsBack(prev: Ea, bs: seq<Bpt>, rest: Stream)
    ensures ReadEntries(ReadDel, |bs|, prev, EncodeDels(prev, bs) + rest) ==
            if Short(bs) then Some(Parsed(SeenDels(bs), rest)) else None
    decreases |bs|
  {
    hide DelTokens, ReadDel;
    if bs == [] {
      assert [] + rest == rest;
    } else {
      var tail := EncodeDels(bs[0].ea, bs[1..]) + rest;
      assert DelTokens(prev, bs[0]) + EncodeDels(bs[0].ea, bs[1..]) + rest == DelTokens(prev, bs[0]) + tail;
      ReadDelBack(prev, bs[0], tail);
      ReadDelsBack(bs[0].ea, bs[1..], rest);
      assert Short(bs) <==> |bs[0].orgbytes| <= 255 && Short(bs[1..]) by {
        assert forall k | 0 < k < |bs| :: bs[k] == bs[1..][k - 1];
        assert forall k | 0 <= k < |bs| - 1 :: bs[1..][k] == bs[k + 1];
      }
    }
  }

  /** Main result for the request: the server sees exactly the additions in order
      and all deletions, one by one, if and only if the original bytes of every
      deletion fit the length byte. */
  lemma RequestTransparent(adds: seq<Bpt>, dels: seq<Bpt>)
    requires |adds| + |dels| <= INT_MAX
    ensures DecodeRequest(EncodeRequest(adds, dels)) ==
            if Short(dels) then Some((SeenAdds(Live(adds)), SeenDels(dels))) else None
    ensures !Incorrect(EncodeRequest(adds, dels))
  {
    hide ReadEntries, EncodeAdds, EncodeDels, Live, SeenAdds, SeenDels, Short;
    var s := EncodeRequest(adds, dels);
    assert s[2..] == EncodeAdds(0, adds) + EncodeDels(0, dels);
    assert s[0] == Dd(|Live(adds)|) && s[1] == Dd(|dels|);
    ReadAddsBack(0, adds, EncodeDels(0, dels));
    ReadDelsBack(0, dels, []);
    assert EncodeDels(0, dels) + [] == EncodeDels(0, dels);
  }

  /** What the server sees, entry by entry. The n-th entry of the additions comes
      from the n-th one that is sent, and each one that is sent is seen. Nothing is
      known there of the size of a deletion. */
  lemma ServerSees(adds: seq<Bpt>, dels: seq<Bpt>)
    requires |adds| + |dels| <= INT_MAX && Short(dels)
    ensures var seen := DecodeRequest(EncodeRequest(adds, dels));
            && seen.Some? && |seen.value.1| == |dels|
            && |seen.value.0| == |set k: nat | k < |adds| && adds[k].code == 0|
            && (forall k | 0 <= k < |adds| && adds[k].code == 0 ::
                  && |Live(adds[..k])| < |seen.value.0|
                  && var b := adds[k];
                     seen.value.0[|Live(adds[..k])|] == Bpt(b.ea, b.size, b.typ, b.pid, b.tid, 0, []))
            && (forall j, k | 0 <= j < k < |adds| && adds[j].code == 0 :: |Live(adds[..j])| < |Live(adds[..k])|)
            && (forall k | 0 <= k < |dels| ::
                  var b := dels[k]; seen.value.1[k] == Bpt(b.ea, 0, b.typ, b.pid, b.tid, 0, b.orgbytes))
  {
    hide EncodeRequest, DecodeRequest, Live, SeenAdds, SeenDels, Short;
    RequestTransparent(adds, dels);
    SeenAddsAre(Live(adds));
    SeenDelsAre(dels);
    LiveCount(adds);
    forall k | 0 <= k < |adds| && adds[k].code == 0
      ensures |Live(adds[..k])| < |Live(adds)| && Live(adds)[|Live(adds[..k])|] == adds[k]
    {
      LiveEntry(adds, k);
    }
    forall j, k | 0 <= j < k < |adds| && adds[j].code == 0 ensures |Live(adds[..j])| < |Live(adds[..k])| {
      LiveEntry(adds[..k], j);
      assert adds[..k][..j] == adds[..j];
    }
  }

  lemma {:induction false} LiveEntry(bs: seq<Bpt>, k: nat)
    requires k < |bs| && bs[k].code == 0
    ensures |Live(bs[..k])| < |Live(bs)| && Live(bs)[|Live(bs[..k])|] == bs[k]
  {
    if 0 < k {
      LiveEntry(bs[1..], k - 1);
      assert bs[..k][1..] == bs[1..][..k - 1] && bs[..k][0] == bs[0];
    }
  }

  lemma {:induction false} LiveCount(bs: seq<Bpt>)
    ensures |Live(bs)| == |set k: nat | k < |bs| && bs[k].code == 0|
  {
    if bs == [] {
      assert (set k: nat | k < |bs| && bs[k].code == 0) == {};
    } else {
      hide Live;
      var n := |bs| - 1;
      LiveCount(bs[..n]);
      LiveSnoc(bs);
      OneMoreIn(bs);
    }
  }

  lemma OneMoreIn(bs: seq<Bpt>)
    requires bs != []
    ensures var n := |bs| - 1;
            |set k: nat | k < |bs| && bs[k].code == 0|
            == |set k: nat | k < n && bs[..n][k].code == 0| + if bs[n].code == 0 then 1 else 0
  {
    var n := |bs| - 1;
    var below := set k: nat | k < n && bs[..n][k].code == 0;
    var all := set k: nat | k < |bs| && bs[k].code == 0;
    forall k: nat ensures k in all <==> k in below || (k == n && bs[n].code == 0) {
      assert k < n ==> bs[..n][k] == bs[k];
    }
    assert all == below + if bs[n].code == 0 then {n} else {};
  }

  lemma {:induction false} LiveSnoc(bs: seq<Bpt>)
    requires bs != []
    ensures |Live(bs)| == |Live(bs[..|bs| - 1])| + if bs[|bs| - 1].code == 0 then 1 else 0
  {
    if 1 < |bs| {
      LiveSnoc(bs[1..]);
      assert bs[..|bs| - 1][1..] == bs[1..][..|bs| - 2];
    }
  }

  // ---------------------------------------------------------------- the reply

  /** Does the reply carry original bytes for this addition? */
  predicate CarriesBytes(b: Bpt) {
    b.code == BPT_OK && b.typ == BPT_SOFT
  }

  function AddReply(b: Bpt): Stream {
    [Db(b.code)] + if CarriesBytes(b) then [Db(|b.orgbytes| % 256)] + Bytes(b.orgbytes) else []
  }

  function AddReplies(bs: seq<Bpt>): Stream {
    if bs == [] then [] else AddReply(bs[0]) + AddReplies(bs[1..])
  }

  function DelReplies(bs: seq<Bpt>): Stream {
    if bs == [] then [] else [Db(bs[0].code)] + DelReplies(bs[1..])
  }

  /** What the debugger module answers: a code, a count, and its view of the entries. */
  datatype Answer = Answer(drc: int, nbpts: int, adds: seq<Bpt>, dels: seq<Bpt>)

  function EncodeReply(a: Answer): Stream {
    [Dd(a.drc), Dd(a.nbpts)] + (AddReplies(a.adds) + DelReplies(a.dels))
  }

  /** Reads the answer to one addition into its entry. */
  function ReadAddReply(b: Bpt, s: Stream): Option<Parsed<Bpt>> {
    if s == [] || !s[0].Db? then None
    else
      var b' := b.(code := s[0].db);
      if !CarriesBytes(b') then Some(Parsed(b', s[1..]))
      else if |s| < 2 || !s[1].Db? then None
      else
        match ReadBytes(s[2..], s[1].db)
        case None => None
        case Some(p) => Some(Parsed(b'.(orgbytes := p.value), p.rest))
  }

  function ScatterAdds(bs: seq<Bpt>, s: Stream): Option<Parsed<seq<Bpt>>>
    decreases |bs|
  {
    if bs == [] then Some(Parsed([], s))
    else if bs[0].code != BPT_OK then Cons(bs[0], ScatterAdds(bs[1..], s))
    else
      match ReadAddReply(bs[0], s)
      case None => None
      case Some(p) => Cons(p.value, ScatterAdds(bs[1..], p.rest))
  }

  function ScatterDels(bs: seq<Bpt>, s: Stream): Option<Parsed<seq<Bpt>>>
    decreases |bs|
  {
    if bs == [] then Some(Parsed([], s))
    else if s == [] || !s[0].Db? then None
    else Cons(bs[0].(code := s[0].db), ScatterDels(bs[1..], s[1..]))
  }

  /** The client's entries with the answers to those that were sent. */
  function Merged(bs: seq<Bpt>, answers: seq<Bpt>): seq<Bpt>
    requires |answers| == |Live(bs)|
    decreases |bs|
  {
    if bs == [] then []
    else if bs[0].code != BPT_OK then [bs[0]] + Merged(bs[1..], answers)
    else
      var a := answers[0];
      var b := bs[0].(code := a.code);
      [if CarriesBytes(b) then b.(orgbytes := a.orgbytes) else b] + Merged(bs[1..], answers[1..])
  }

  function MergedDels(bs: seq<Bpt>, answers: seq<Bpt>): seq<Bpt>
    requires |answers| == |bs|
  {
    if bs == [] then [] else [bs[0].(code := answers[0].code)] + MergedDels(bs[1..], answers[1..])
  }

  /** The answer is about the entries that were sent. */
  ghost predicate SameTypes(sent: seq<Bpt>, answers: seq<Bpt>) {
    |answers| == |sent| && forall k | 0 <= k < |sent| :: answers[k].typ == sent[k].typ
  }

  /** All original bytes that the reply carries fit the length byte. */
  ghost predicate ShortAnswers(answers: seq<Bpt>) {
    forall k | 0 <= k < |answers| :: CarriesBytes(answers[k]) ==> |answers[k].orgbytes| <= 255
  }

  /** The answer to one addition arrives as given, or breaks the reading off later. */
  lemma ReadAddReplyBack(b: Bpt, a: Bpt, rest: Stream)
    requires a.typ == b.typ && (CarriesBytes(a) ==> |a.orgbytes| <= 255)
    ensures ReadAddReply(b, AddReply(a) + rest) ==
            Some(Parsed(b.(code := a.code, orgbytes := if CarriesBytes(a) then a.orgbytes else b.orgbytes), rest))
  {
    hide ReadBytes, Bytes;
    var s := AddReply(a) + rest;
    if CarriesBytes(a) {
      assert s[2..] == Bytes(a.orgbytes) + rest;
      ReadBytesBack(a.orgbytes, |a.orgbytes|, rest);
      assert a.orgbytes[..|a.orgbytes|] == a.orgbytes && Bytes(a.orgbytes[|a.orgbytes|..]) + rest == rest;
    } else {
      assert s[1..] == rest;
    }
  }

  lemma {:induction false} ScatterAddsBack(bs: seq<Bpt>, answers: seq<Bpt>, rest: Stream)
    requires SameTypes(Live(bs), answers) && ShortAnswers(answers)
    ensures ScatterAdds(bs, AddReplies(answers) + rest) == Some(Parsed(Merged(bs, answers), rest))
    decreases |bs|
  {
    hide AddReply, ReadAddReply;
    if bs == [] {
      assert AddReplies(answers) + rest == rest;
    } else if bs[0].code != BPT_OK {
      assert Live(bs) == Live(bs[1..]);
      ScatterAddsBack(bs[1..], answers, rest);
    } else {
      SameTypesRest(bs, answers);
      LiveCons(bs);
      var tail := AddReplies(answers[1..]) + rest;
      assert AddReplies(answers) + rest == AddReply(answers[0]) + tail;
      ReadAddReplyBack(bs[0], answers[0], tail);
      ScatterAddsBack(bs[1..], answers[1..], rest);
    }
  }

  /** An answer that is too long gives its entry other original bytes. */
  lemma LongAnswer(b: Bpt, a: Bpt, rest: Stream)
    requires a.typ == b.typ && CarriesBytes(a) && 255 < |a.orgbytes|
    ensures var r := ReadAddReply(b, AddReply(a) + rest); r.Some? ==> |r.value.value.orgbytes| <= 255
  {
    hide ReadBytes, Bytes;
    var s := AddReply(a) + rest;
    assert s[0] == Db(a.code) && s[1] == Db(|a.orgbytes| % 256);
    ReadBytesCount(s[2..], |a.orgbytes| % 256);
  }

  lemma SameTypesRest(bs: seq<Bpt>, answers: seq<Bpt>)
    requires bs != [] && bs[0].code == BPT_OK && SameTypes(Live(bs), answers)
    ensures answers != [] && answers[0].typ == bs[0].typ && SameTypes(Live(bs[1..]), answers[1..])
  {
    LiveCons(bs);
    hide Live;
    var sent, rest := Live(bs), Live(bs[1..]);
    forall k | 0 <= k < |rest| ensures answers[1..][k].typ == rest[k].typ {
      assert rest[k] == sent[k + 1] && answers[k + 1].typ == sent[k + 1].typ;
    }
  }

  lemma LiveCons(bs: seq<Bpt>)
    requires bs != [] && bs[0].code == BPT_OK
    ensures Live(bs) == [bs[0]] + Live(bs[1..])
  {
  }

  lemma ShortAnswersRest(answers: seq<Bpt>)
    requires answers != []
    ensures ShortAnswers(answers) <==>
            (CarriesBytes(answers[0]) ==> |answers[0].orgbytes| <= 255) && ShortAnswers(answers[1..])
  {
    assert forall k | 0 < k < |answers| :: answers[k] == answers[1..][k - 1];
  }

  lemma {:induction false} ScatterAddsCount(bs: seq<Bpt>, s: Stream)
    ensures ScatterAdds(bs, s).Some? ==> |ScatterAdds(bs, s).value.value| == |bs|
    decreases |bs|
  {
    hide ReadAddReply;
    if bs != [] {
      if bs[0].code != BPT_OK {
        ScatterAddsCount(bs[1..], s);
      } else if ReadAddReply(bs[0], s).Some? {
        ScatterAddsCount(bs[1..], ReadAddReply(bs[0], s).value.rest);
      }
    }
  }

  /** An answer that is too long makes the client's entries differ from what the
      module has answered. */
  lemma {:induction false} LongAnswersSpoil(bs: seq<Bpt>, answers: seq<Bpt>, rest: Stream)
    requires SameTypes(Live(bs), answers) && !ShortAnswers(answers)
    ensures var r := ScatterAdds(bs, AddReplies(answers) + rest); r.Some? ==> r.value.value != Merged(bs, answers)
    decreases |bs|
  {
    hide AddReply, ReadAddReply, ShortAnswers, SameTypes;
    SameTypesCount(bs, answers);
    NoAnswersShort();
    if bs == [] {
    } else if bs[0].code != BPT_OK {
      assert Live(bs) == Live(bs[1..]);
      LongAnswersSpoil(bs[1..], answers, rest);
      var r := ScatterAdds(bs[1..], AddReplies(answers) + rest);
      if r.Some? {
        DifferBehind(bs[0], r.value.value, Merged(bs[1..], answers));
      }
    } else {
      SameTypesRest(bs, answers);
      ShortAnswersRest(answers);
      var tail := AddReplies(answers[1..]) + rest;
      assert AddReplies(answers) + rest == AddReply(answers[0]) + tail;
      if CarriesBytes(answers[0]) && 255 < |answers[0].orgbytes| {
        LongAnswer(bs[0], answers[0], tail);
        var r := ScatterAdds(bs, AddReply(answers[0]) + tail);
        assert r.Some? ==> |r.value.value[0].orgbytes| <= 255;
        assert Merged(bs, answers)[0].orgbytes == answers[0].orgbytes;
      } else {
        ReadAddReplyBack(bs[0], answers[0], tail);
        LongAnswersSpoil(bs[1..], answers[1..], rest);
        var r := ScatterAdds(bs[1..], tail);
        if r.Some? {
          DifferBehind(Merged(bs, answers)[0], r.value.value, Merged(bs[1..], answers[1..]));
        }
      }
    }
  }

  lemma DifferBehind(b: Bpt, x: seq<Bpt>, y: seq<Bpt>)
    requires x != y
    ensures [b] + x != [b] + y
  {
    assert ([b] + x)[1..] == x && ([b] + y)[1..] == y;
  }

  lemma SameTypesCount(bs: seq<Bpt>, answers: seq<Bpt>)
    requires SameTypes(Live(bs), answers)
    ensures |answers| == |Live(bs)|
  {
  }

  lemma NoAnswersShort()
    ensures ShortAnswers([])
  {
  }

  /** Main result for the reply: the answers land on the entries that were sent,
      and the reading stops right behind them, exactly when all original bytes
      fit the length byte. */
  lemma ScatterAddsExactly(bs: seq<Bpt>, answers: seq<Bpt>, rest: Stream)
    requires SameTypes(Live(bs), answers)
    ensures ScatterAdds(bs, AddReplies(answers) + rest) == Some(Parsed(Merged(bs, answers), rest))
            <==> ShortAnswers(answers)
  {
    hide ScatterAdds, AddReplies, Merged, ShortAnswers;
    if ShortAnswers(answers) {
      ScatterAddsBack(bs, answers, rest);
    } else {
      LongAnswersSpoil(bs, answers, rest);
    }
  }

  lemma {:induction false} ScatterDelsBack(bs: seq<Bpt>, answers: seq<Bpt>, rest: Stream)
    requires |answers| == |bs|
    ensures ScatterDels(bs, DelReplies(answers) + rest) == Some(Parsed(MergedDels(bs, answers), rest))
    decreases |bs|
  {
    if bs == [] {
      assert DelReplies(answers) + rest == rest;
    } else {
      assert (DelReplies(answers) + rest)[1..] == DelReplies(answers[1..]) + rest;
      ScatterDelsBack(bs[1..], answers[1..], rest);
    }
  }

  /** Skipped entries are left alone, and every entry keeps what identifies it. */
  lemma {:induction false} MergedKeeps(bs: seq<Bpt>, answers: seq<Bpt>)
    requires |answers| == |Live(bs)|
    ensures |Merged(bs, answers)| == |bs|
    ensures forall k | 0 <= k < |bs| ::
              var m := Merged(bs, answers)[k];
              && m == bs[k].(code := m.code, orgbytes := m.orgbytes)
              && (bs[k].code != BPT_OK ==> m == bs[k])
              && (!CarriesBytes(m) ==> m.orgbytes == bs[k].orgbytes)
    decreases |bs|
  {
    if bs != [] {
      MergedKeeps(bs[1..], if bs[0].code != BPT_OK then answers else answers[1..]);
    }
  }

  /** Entry by entry: the answer to an addition that was sent sets its code, and
      its original bytes exactly if the code is 0, so that it was set, and its
      type is 4, a software breakpoint. */
  lemma {:induction false} MergedEntry(bs: seq<Bpt>, answers: seq<Bpt>, k: nat)
    requires |answers| == |Live(bs)| && k < |bs|
    ensures |Merged(bs, answers)| == |bs|
    ensures bs[k].code == 0 ==> |Live(bs[..k])| < |answers|
    ensures Merged(bs, answers)[k] ==
            if bs[k].code != 0 then bs[k]
            else
              var a := answers[|Live(bs[..k])|];
              bs[k].(code := a.code, orgbytes := if a.code == 0 && bs[k].typ == 4 then a.orgbytes else bs[k].orgbytes)
    decreases |bs|
  {
    MergedKeeps(bs, answers);
    LiveTake(bs, k);
    hide Live;
    if 0 < k {
      MergedEntry(bs[1..], if bs[0].code != BPT_OK then answers else answers[1..], k - 1);
    }
  }

  lemma LiveTake(bs: seq<Bpt>, k: nat)
    requires k < |bs|
    ensures |Live(bs)| == |Live(bs[1..])| + if bs[0].code == BPT_OK then 1 else 0
    ensures |Live(bs[..k])| ==
            if k == 0 then 0 else |Live(bs[1..][..k - 1])| + if bs[0].code == BPT_OK then 1 else 0
  {
    if 0 < k {
      assert bs[..k][0] == bs[0] && bs[..k][1..] == bs[1..][..k - 1];
    }
  }

  /** The answer to a deletion sets its code and nothing else. */
  lemma {:induction false} MergedDelsEntry(bs: seq<Bpt>, answers: seq<Bpt>, k: nat)
    requires |answers| == |bs| && k < |bs|
    ensures |MergedDels(bs, answers)| == |bs| && MergedDels(bs, answers)[k] == bs[k].(code := answers[k].code)
    decreases |bs|
  {
    if 1 < |bs| {
      MergedDelsEntry(bs[1..], answers[1..], if 0 < k then k - 1 else 0);
    }
  }

  // ---------------------------------------------------- the code of both sides

  /** The debugger module: it answers for the entries it is given. */
  type Module = (seq<Bpt>, seq<Bpt>) -> Answer

  ghost predicate Faithful(module_: Module) {
    forall adds, dels ::
      SameTypes(adds, module_(adds, dels).adds) && |module_(adds, dels).dels| == |dels|
  }

  /** The client's first half: puts the request together, unless there is nothing to do. */
  method Gather(ubpts: array<Bpt>, nadd: nat, ndel: nat) returns (req: Option<Stream>)
    requires nadd + ndel == ubpts.Length
    ensures req == if Live(ubpts[..nadd]) == [] && ndel == 0 then None
                   else Some(EncodeRequest(ubpts[..nadd], ubpts[nadd..]))
  {
    hide EncodeAdds, EncodeDels, Live;
    var skipped := CountSkipped(ubpts, nadd);
    if skipped == nadd && ndel == 0 {
      return None;
    }
    var adds := PackAdds(ubpts, nadd);
    var dels := PackDels(ubpts, nadd);
    return Some([Dd(nadd - skipped), Dd(ndel)] + (adds + dels));
  }

  method CountSkipped(ubpts: array<Bpt>, nadd: nat) returns (skipped: nat)
    requires nadd <= ubpts.Length
    ensures skipped + |Live(ubpts[..nadd])| == nadd
  {
    ghost var adds := ubpts[..nadd];
    skipped := 0;
    assert adds[0..] == adds;
    for b := 0 to nadd
      invariant skipped <= b
      invariant |Live(adds)| == b - skipped + |Live(adds[b..])|
    {
      assert adds[b..][1..] == adds[b + 1..];
      if ubpts[b].code != BPT_OK {
        skipped := skipped + 1;
      }
    }
    assert adds[nadd..] == [];
  }

  method PackAdds(ubpts: array<Bpt>, nadd: nat) returns (packet: Stream)
    requires nadd <= ubpts.Length
    ensures packet == EncodeAdds(0, ubpts[..nadd])
  {
    hide EncodeAdds, AddTokens;
    ghost var adds := ubpts[..nadd];
    packet := [];
    var ea: Ea := 0;
    assert adds[0..] == adds;
    for b := 0 to nadd
      invariant EncodeAdds(0, adds) == packet + EncodeAdds(ea, adds[b..])
    {
      EncodeAddsStep(ea, adds[b..]);
      assert adds[b..][1..] == adds[b + 1..];
      if ubpts[b].code == BPT_OK {
        packet := packet + AddTokens(ea, ubpts[b]);
        ea := ubpts[b].ea;
      }
    }
    EncodeAddsStep(ea, adds[nadd..]);
  }

  method PackDels(ubpts: array<Bpt>, nadd: nat) returns (packet: Stream)
    requires nadd <= ubpts.Length
    ensures packet == EncodeDels(0, ubpts[nadd..])
  {
    hide EncodeDels, DelTokens;
    ghost var dels := ubpts[nadd..];
    packet := [];
    var ea: Ea := 0;
    assert dels[0..] == dels;
    for b := nadd to ubpts.Length
      invariant EncodeDels(0, dels) == packet + EncodeDels(ea, dels[b - nadd..])
    {
      EncodeDelsStep(ea, dels[b - nadd..]);
      assert dels[b - nadd..][1..] == dels[b + 1 - nadd..];
      packet := packet + DelTokens(ea, ubpts[b]);
      ea := ubpts[b].ea;
    }
    EncodeDelsStep(ea, dels[ubpts.Length - nadd..]);
  }

  lemma EncodeAddsStep(prev: Ea, bs: seq<Bpt>)
    ensures EncodeAdds(prev, bs) ==
            if bs == [] then []
            else if bs[0].code != BPT_OK then EncodeAdds(prev, bs[1..])
            else AddTokens(prev, bs[0]) + EncodeAdds(bs[0].ea, bs[1..])
  {
  }

  lemma EncodeDelsStep(prev: Ea, bs: seq<Bpt>)
    ensures EncodeDels(prev, bs) == if bs == [] then [] else DelTokens(prev, bs[0]) + EncodeDels(bs[0].ea, bs[1..])
  {
  }

  ghost function Prepend(front: seq<Bpt>, r: Option<Parsed<seq<Bpt>>>): Option<Parsed<seq<Bpt>>> {
    if r.Some? then Some(Parsed(front + r.value.value, r.value.rest)) else None
  }

  lemma PrependCons(front: seq<Bpt>, b: Bpt, r: Option<Parsed<seq<Bpt>>>)
    ensures Prepend(front, Cons(b, r)) == Prepend(front + [b], r)
  {
    if r.Some? {
      assert front + ([b] + r.value.value) == front + [b] + r.value.value;
    }
  }

  lemma PrependNothing(r: Option<Parsed<seq<Bpt>>>)
    ensures Prepend([], r) == r
  {
    if r.Some? {
      assert [] + r.value.value == r.value.value;
    }
  }

  /** The client's second half: writes the answers over its entries. */
  method Scatter(ubpts: array<Bpt>, nadd: nat, ndel: nat, reply: Stream) returns (ok: bool)
    requires nadd + ndel == ubpts.Length
    modifies ubpts
    ensures var r := ScatterAdds(old(ubpts[..nadd]), reply);
            ok <==> r.Some? && ScatterDels(old(ubpts[nadd..]), r.value.rest).Some?
    ensures ok ==> var r := ScatterAdds(old(ubpts[..nadd]), reply);
                   ubpts[..] == r.value.value + ScatterDels(old(ubpts[nadd..]), r.value.rest).value.value
  {
    var s := reply;
    ok, s := ScatterFirst(ubpts, nadd, s);
    if ok {
      ok, s := ScatterLast(ubpts, nadd, s);
    }
  }

  method ScatterFirst(ubpts: array<Bpt>, nadd: nat, reply: Stream) returns (ok: bool, s: Stream)
    requires nadd <= ubpts.Length
    modifies ubpts
    ensures ok <==> ScatterAdds(old(ubpts[..nadd]), reply).Some?
    ensures ok ==> ScatterAdds(old(ubpts[..nadd]), reply) == Some(Parsed(ubpts[..nadd], s))
    ensures ubpts[nadd..] == old(ubpts[nadd..])
  {
    hide ReadAddReply, ScatterAdds;
    s := reply;
    ghost var adds := ubpts[..nadd];
    assert adds[0..] == adds;
    PrependNothing(ScatterAdds(adds, reply));
    for b := 0 to nadd
      invariant forall k | b <= k < ubpts.Length :: ubpts[k] == old(ubpts[k])
      invariant ScatterAdds(adds, reply) == Prepend(ubpts[..b], ScatterAdds(adds[b..], s))
    {
      ScatterAddsStep(adds[b..], s);
      assert adds[b..][1..] == adds[b + 1..] && adds[b] == ubpts[b];
      ghost var done := ubpts[..b];
      if ubpts[b].code == BPT_OK {
        match ReadAddReply(ubpts[b], s) {
          case None =>
            return false, s;
          case Some(p) =>
            ubpts[b] := p.value;
            s := p.rest;
        }
      }
      assert ubpts[..b + 1] == done + [ubpts[b]];
      PrependCons(done, ubpts[b], ScatterAdds(adds[b + 1..], s));
    }
    ScatterAddsStep(adds[nadd..], s);
    assert ubpts[..nadd] + [] == ubpts[..nadd];
    return true, s;
  }

  lemma ScatterAddsStep(bs: seq<Bpt>, s: Stream)
    ensures ScatterAdds(bs, s) ==
            if bs == [] then Some(Parsed([], s))
            else if bs[0].code != BPT_OK then Cons(bs[0], ScatterAdds(bs[1..], s))
            else
              var r := ReadAddReply(bs[0], s);
              if r == None then None else Cons(r.value.value, ScatterAdds(bs[1..], r.value.rest))
  {
  }

  method ScatterLast(ubpts: array<Bpt>, nadd: nat, reply: Stream) returns (ok: bool, s: Stream)
    requires nadd <= ubpts.Length
    modifies ubpts
    ensures ok <==> ScatterDels(old(ubpts[nadd..]), reply).Some?
    ensures ok ==> ScatterDels(old(ubpts[nadd..]), reply) == Some(Parsed(ubpts[nadd..], s))
    ensures ubpts[..nadd] == old(ubpts[..nadd])
  {
    s := reply;
    ghost var dels := ubpts[nadd..];
    assert dels[0..] == dels;
    assert ubpts[nadd..nadd] == [];
    PrependNothing(ScatterDels(dels, reply));
    for b := nadd to ubpts.Length
      invariant forall k | 0 <= k < nadd || b <= k < ubpts.Length :: ubpts[k] == old(ubpts[k])
      invariant ScatterDels(dels, reply) == Prepend(ubpts[nadd..b], ScatterDels(dels[b - nadd..], s))
    {
      assert dels[b - nadd..][1..] == dels[b + 1 - nadd..] && dels[b - nadd] == ubpts[b];
      ghost var done := ubpts[nadd..b];
      if s == [] || !s[0].Db? {
        return false, s;
      }
      ubpts[b] := ubpts[b].(code := s[0].db);
      s := s[1..];
      assert ubpts[nadd..b + 1] == done + [ubpts[b]];
      PrependCons(done, ubpts[b], ScatterDels(dels[b + 1 - nadd..], s));
    }
    assert ubpts[nadd..ubpts.Length] == ubpts[nadd..] == ubpts[nadd..] + [];
    assert dels[ubpts.Length - nadd..] == [];
    return true, s;
  }

  /** Reads entries one after the other, each relative to the one before. */
  method UnpackEntries(read: (Ea, Stream) -> Option<Parsed<Bpt>>, n: nat, s: Stream)
    returns (r: Option<Parsed<seq<Bpt>>>)
    ensures r == ReadEntries(read, n, 0, s)
  {
    hide ReadEntries;
    var bpts: seq<Bpt> := [];
    var ea: Ea, rest := 0, s;
    PrependNothing(ReadEntries(read, n, 0, s));
    for b := 0 to n
      invariant ReadEntries(read, n, 0, s) == Prepend(bpts, ReadEntries(read, n - b, ea, rest))
    {
      ReadEntriesStep(read, n - b, ea, rest);
      match read(ea, rest) {
        case None =>
          return None;
        case Some(p) =>
          PrependCons(bpts, p.value, ReadEntries(read, n - b - 1, p.value.ea, p.rest));
          bpts := bpts + [p.value];
          ea := p.value.ea;
          rest := p.rest;
      }
    }
    ReadEntriesStep(read, 0, ea, rest);
    assert bpts + [] == bpts;
    return Some(Parsed(bpts, rest));
  }

  lemma ReadEntriesStep(read: (Ea, Stream) -> Option<Parsed<Bpt>>, n: nat, prev: Ea, s: Stream)
    ensures ReadEntries(read, n, prev, s) ==
            if n == 0 then Some(Parsed([], s))
            else
              var r := read(prev, s);
              if r == None then None else Cons(r.value.value, ReadEntries(read, n - 1, r.value.value.ea, r.value.rest))
  {
  }

  /** Packs the module's answers. */
  method PackReplies(a: Answer) returns (reply: Stream)
    ensures reply == EncodeReply(a)
  {
    hide AddReply;
    var adds: Stream := [];
    assert a.adds[0..] == a.adds && a.dels[0..] == a.dels;
    for b := 0 to |a.adds|
      invariant AddReplies(a.adds) == adds + AddReplies(a.adds[b..])
    {
      assert a.adds[b..][1..] == a.adds[b + 1..];
      adds := adds + AddReply(a.adds[b]);
    }
    var dels: Stream := [];
    for b := 0 to |a.dels|
      invariant DelReplies(a.dels) == dels + DelReplies(a.dels[b..])
    {
      assert a.dels[b..][1..] == a.dels[b + 1..];
      dels := dels + [Db(a.dels[b].code)];
    }
    return [Dd(a.drc), Dd(a.nbpts)] + (adds + dels);
  }

  /** The server's part: reads the request, asks the module, packs the reply. */
  method RpcUpdateBpts(req: Stream, module_: Module) returns (reply: Option<Stream>)
    ensures Incorrect(req) ==> reply == Some([Dd(0)])
    ensures !Incorrect(req) ==>
              reply ==
              match DecodeRequest(req)
              case None => None
              case Some(r) => Some(EncodeReply(module_(r.0, r.1)))
  {
    hide ReadEntries, EncodeReply;
    if |req| < 2 || !req[0].Dd? || !req[1].Dd? {
      return None;
    }
    var nadd, ndel := req[0].dd, req[1].dd;
    if nadd < 0 || ndel < 0 || INT_MAX - ndel < nadd {
      return Some([Dd(0)]);
    }
    var adds := UnpackEntries(ReadAdd, nadd, req[2..]);
    if adds == None {
      return None;
    }
    var dels := UnpackEntries(ReadDel, ndel, adds.value.rest);
    if dels == None {
      return None;
    }
    var packed := PackReplies(module_(adds.value.value, dels.value.value));
    return Some(packed);
  }

  /** The module's answers stand in the entries that were sent; entries out of
      order are as they were. */
  ghost predicate Landed(adds: seq<Bpt>, dels: seq<Bpt>, a: Answer, now: seq<Bpt>) {
    && |a.adds| == |Live(adds)| && |a.dels| == |dels|
    && now == Merged(adds, a.adds) + MergedDels(dels, a.dels)
  }

  /** The whole update. The module is asked about exactly the additions in order
      and all deletions, and its answers land on these entries, exactly when all
      original bytes, of the deletions and of the answers, fit the length byte. */
  method DbgUpdateBpts(ubpts: array<Bpt>, nadd: nat, ndel: nat, module_: Module) returns (ok: bool, nbpts: int)
    requires nadd + ndel == ubpts.Length <= INT_MAX && Faithful(module_)
    modifies ubpts
    ensures var adds, dels := old(ubpts[..nadd]), old(ubpts[nadd..]);
            var a := module_(SeenAdds(Live(adds)), SeenDels(dels));
            if Live(adds) == [] && dels == [] then ok && nbpts == 0 && ubpts[..] == old(ubpts[..])
            else ok && nbpts == a.nbpts && Landed(adds, dels, a, ubpts[..]) <==> Short(dels) && ShortAnswers(a.adds)
    ensures !Short(old(ubpts[nadd..])) ==> !ok
    ensures var adds, dels := old(ubpts[..nadd]), old(ubpts[nadd..]);
            var a := module_(SeenAdds(Live(adds)), SeenDels(dels));
            (Live(adds) != [] || dels != []) && Short(dels) && ShortAnswers(a.adds) ==>
              && (forall k | 0 <= k < nadd && adds[k].code != 0 :: ubpts[k] == adds[k])
              && (forall k | 0 <= k < nadd && adds[k].code == 0 ::
                    && |Live(adds[..k])| < |a.adds|
                    && var b := a.adds[|Live(adds[..k])|];
                       var orgbytes := if b.code == 0 && adds[k].typ == 4 then b.orgbytes else adds[k].orgbytes;
                       ubpts[k] == adds[k].(code := b.code, orgbytes := orgbytes))
              && |a.dels| == ndel
              && (forall k | 0 <= k < ndel :: ubpts[nadd + k] == dels[k].(code := a.dels[k].code))
  {
    hide EncodeRequest, DecodeRequest, AddReplies, DelReplies, Merged, MergedDels, SeenAdds, SeenDels, Live,
         ScatterAdds, ScatterDels, ShortAnswers, Short, SameTypes;
    ghost var adds, dels := ubpts[..nadd], ubpts[nadd..];
    var req := Gather(ubpts, nadd, ndel);
    if req == None {
      assert dels == [] && Short([]) by { NothingIsShort(); }
      return true, 0;
    }
    RequestTransparent(adds, dels);
    var reply := RpcUpdateBpts(req.value, module_);
    if reply == None {
      return false, 0;
    }
    ghost var a := module_(SeenAdds(Live(adds)), SeenDels(dels));
    assert reply.value == EncodeReply(a);
    nbpts := reply.value[1].dd;
    assert reply.value[2..] == AddReplies(a.adds) + DelReplies(a.dels);
    SeenSame(adds, dels);
    assert SameTypes(Live(adds), a.adds) && |a.dels| == |dels| by { AnswersFit(adds, dels, module_); }
    ok := Scatter(ubpts, nadd, ndel, reply.value[2..]);
    LandedExactly(adds, dels, a, ubpts[..], ok);
    if Short(dels) && ShortAnswers(a.adds) {
      LandedEntries(adds, dels, a, ubpts[..]);
    }
  }

  /** The same entry by entry. */
  lemma LandedEntries(adds: seq<Bpt>, dels: seq<Bpt>, a: Answer, now: seq<Bpt>)
    requires Landed(adds, dels, a, now)
    ensures |now| == |adds| + |dels|
    ensures forall k | 0 <= k < |adds| && adds[k].code != 0 :: now[k] == adds[k]
    ensures forall k | 0 <= k < |adds| && adds[k].code == 0 ::
              && |Live(adds[..k])| < |a.adds|
              && var b := a.adds[|Live(adds[..k])|];
                 var orgbytes := if b.code == 0 && adds[k].typ == 4 then b.orgbytes else adds[k].orgbytes;
                 now[k] == adds[k].(code := b.code, orgbytes := orgbytes)
    ensures forall k | 0 <= k < |dels| :: now[|adds| + k] == dels[k].(code := a.dels[k].code)
  {
    hide Merged, MergedDels, Live;
    MergedKeeps(adds, a.adds);
    forall k | 0 <= k < |adds|
      ensures adds[k].code != 0 ==> Merged(adds, a.adds)[k] == adds[k]
      ensures adds[k].code == 0 ==>
                && |Live(adds[..k])| < |a.adds|
                && var b := a.adds[|Live(adds[..k])|];
                   var orgbytes := if b.code == 0 && adds[k].typ == 4 then b.orgbytes else adds[k].orgbytes;
                   Merged(adds, a.adds)[k] == adds[k].(code := b.code, orgbytes := orgbytes)
    {
      MergedEntry(adds, a.adds, k);
    }
    forall k | 0 <= k < |dels|
      ensures |MergedDels(dels, a.dels)| == |dels| && MergedDels(dels, a.dels)[k] == dels[k].(code := a.dels[k].code)
    {
      MergedDelsEntry(dels, a.dels, k);
    }
    NoMergedDels(dels, a.dels);
  }

  lemma NoMergedDels(bs: seq<Bpt>, answers: seq<Bpt>)
    requires |answers| == |bs|
    ensures |MergedDels(bs, answers)| == |bs|
  {
    if bs != [] {
      MergedDelsEntry(bs, answers, 0);
    }
  }

  lemma NothingIsShort()
    ensures Short([])
  {
  }

  lemma AnswersFit(adds: seq<Bpt>, dels: seq<Bpt>, module_: Module)
    requires Faithful(module_)
    ensures var a := module_(SeenAdds(Live(adds)), SeenDels(dels)); SameTypes(Live(adds), a.adds) && |a.dels| == |dels|
  {
    hide SeenAdds, SeenDels, Live;
    SeenSame(adds, dels);
    var a := module_(SeenAdds(Live(adds)), SeenDels(dels));
    assert SameTypes(SeenAdds(Live(adds)), a.adds);
  }

  /** What the client's second half makes of the server's reply. */
  lemma LandedExactly(adds: seq<Bpt>, dels: seq<Bpt>, a: Answer, now: seq<Bpt>, ok: bool)
    requires SameTypes(Live(adds), a.adds) && |a.dels| == |dels|
    requires var r := ScatterAdds(adds, AddReplies(a.adds) + DelReplies(a.dels));
             && (ok <==> r.Some? && ScatterDels(dels, r.value.rest).Some?)
             && (ok ==> now == r.value.value + ScatterDels(dels, r.value.rest).value.value)
    ensures ok && Landed(adds, dels, a, now) <==> ShortAnswers(a.adds)
  {
    hide AddReplies, DelReplies, Merged, MergedDels, Live, ScatterAdds, ScatterDels, ShortAnswers;
    assert |a.adds| == |Live(adds)|;
    if ShortAnswers(a.adds) {
      ScatterAddsBack(adds, a.adds, DelReplies(a.dels));
      ScatterDelsBack(dels, a.dels, []);
      assert DelReplies(a.dels) + [] == DelReplies(a.dels);
    } else {
      LongAnswersSpoil(adds, a.adds, DelReplies(a.dels));
      ScatterAddsCount(adds, AddReplies(a.adds) + DelReplies(a.dels));
      MergedKeeps(adds, a.adds);
      var merged := Merged(adds, a.adds);
      assert (merged + MergedDels(dels, a.dels))[..|adds|] == merged;
      if ok {
        var r := ScatterAdds(adds, AddReplies(a.adds) + DelReplies(a.dels));
        assert now[..|adds|] == r.value.value;
      }
    }
  }

  lemma SeenSame(adds: seq<Bpt>, dels: seq<Bpt>)
    ensures |SeenAdds(Live(adds))| == |Live(adds)| && |SeenDels(dels)| == |dels|
    ensures forall k | 0 <= k < |Live(adds)| :: SeenAdds(Live(adds))[k].typ == Live(adds)[k].typ
  {
    SeenAddsAre(Live(adds));
    SeenDelsAre(dels);
  }

  /** One entry is seen for each one sent, and in the same order. */
  lemma {:induction false} SeenAddsAre(bs: seq<Bpt>)
    ensures |SeenAdds(bs)| == |bs| && forall k | 0 <= k < |bs| :: SeenAdds(bs)[k] == SeenAdd(bs[k])
  {
    if bs != [] {
      SeenAddsAre(bs[1..]);
    }
  }

  lemma {:induction false} SeenDelsAre(bs: seq<Bpt>)
    ensures |SeenDels(bs)| == |bs| && forall k | 0 <= k < |bs| :: SeenDels(bs)[k] == SeenDel(bs[k])
  {
    if bs != [] {
      SeenDelsAre(bs[1..]);
    }
  }
}
