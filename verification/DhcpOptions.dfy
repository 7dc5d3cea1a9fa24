// apps/dhcps/dhcps.c, the type-length-value options: the cursor-advancing
// writers, the walker, and what a walk means.
module DhcpOptions {
  import opened Bytes

  type Ip = s: seq<byte> | |s| == 4 witness [0, 0, 0, 0]

  const OPT_PAD: byte := 0
  const OPT_NETMASK: byte := 1
  const OPT_REQ_IP: byte := 50
  const OPT_LEASE_TIME: byte := 51
  const OPT_MSGTYPE: byte := 53
  const OPT_SERVERID: byte := 54
  const OPT_RENEW_TIME: byte := 58
  const OPT_REBIND_TIME: byte := 59
  const OPT_END: byte := 255

  const ZERO_IP: Ip := [0, 0, 0, 0]

  datatype Record = Record(code: byte, data: seq<byte>)

  // ---- the walker's view of an option area ----

  function NextOption(area: seq<byte>, at: nat): (next: nat)
    requires at + 1 < |area|
    ensures next >= at + 2
  {
    at + area[at + 1] + 2
  }

  // From `at` on the walk meets END before it leaves the area.
  predicate Walkable(area: seq<byte>, at: nat)
    decreases |area| - at
  {
    && at < |area|
    && (area[at] == OPT_END || (at + 1 < |area| && Walkable(area, NextOption(area, at))))
  }

  function RecordAt(area: seq<byte>, at: nat): Record
    requires at + 1 < |area| && NextOption(area, at) <= |area|
  {
    Record(area[at], area[at + 2..NextOption(area, at)])
  }

  lemma WalkableNext(area: seq<byte>, at: nat)
    requires Walkable(area, at) && area[at] != OPT_END
    ensures at + 1 < |area| && NextOption(area, at) < |area| && Walkable(area, NextOption(area, at))
  {
  }

  function Records(area: seq<byte>, at: nat): seq<Record>
    requires Walkable(area, at)
    decreases |area| - at
  {
    if area[at] == OPT_END then []
    else WalkableNext(area, at); [RecordAt(area, at)] + Records(area, NextOption(area, at))
  }

  // Where the walk finds END.
  function EndOf(area: seq<byte>, at: nat): (end: nat)
    requires Walkable(area, at)
    ensures at <= end < |area| && area[end] == OPT_END
    decreases |area| - at
  {
    if area[at] == OPT_END then at else EndOf(area, NextOption(area, at))
  }

  predicate NamesAddress(r: Record) { r.code == OPT_REQ_IP && |r.data| == 4 }

  // The last four-byte option 50, or else zero.
  function Requested(records: seq<Record>): Ip {
    if records == [] then ZERO_IP
    else if NamesAddress(records[|records| - 1]) then records[|records| - 1].data
    else Requested(records[..|records| - 1])
  }

  lemma {:induction false} RequestedIsLast(records: seq<Record>)
    ensures (forall i :: 0 <= i < |records| ==> !NamesAddress(records[i])) ==> Requested(records) == ZERO_IP
    ensures forall i ::
              (0 <= i < |records| && NamesAddress(records[i]) && (forall j :: i < j < |records| ==> !NamesAddress(records[j])))
              ==> Requested(records) == records[i].data
  {
    if records != [] && !NamesAddress(records[|records| - 1]) {
      RequestedIsLast(records[..|records| - 1]);
    }
  }

  // ---- RFC 2132's view of an option area (sections 2, 3.1 and 3.2) ----

  // A pad is a single byte there.
  predicate RfcWalkable(area: seq<byte>, at: nat)
    decreases |area| - at
  {
    && at < |area|
    && if area[at] == OPT_END then true
       else if area[at] == OPT_PAD then RfcWalkable(area, at + 1)
       else at + 1 < |area| && RfcWalkable(area, NextOption(area, at))
  }

  function RfcRecords(area: seq<byte>, at: nat): seq<Record>
    requires RfcWalkable(area, at)
    decreases |area| - at
  {
    if area[at] == OPT_END then []
    else if area[at] == OPT_PAD then RfcRecords(area, at + 1)
    else RfcWalkableNext(area, at); [RecordAt(area, at)] + RfcRecords(area, NextOption(area, at))
  }

  lemma RfcWalkableNext(area: seq<byte>, at: nat)
    requires RfcWalkable(area, at) && area[at] != OPT_END && area[at] != OPT_PAD
    ensures at + 1 < |area| && NextOption(area, at) < |area| && RfcWalkable(area, NextOption(area, at))
  {
  }

  predicate PadFree(area: seq<byte>, at: nat)
    requires RfcWalkable(area, at)
    decreases |area| - at
  {
    if area[at] == OPT_END then true
    else if area[at] == OPT_PAD then false
    else RfcWalkableNext(area, at); PadFree(area, NextOption(area, at))
  }

  lemma {:induction false} PadFreeWalkable(area: seq<byte>, at: nat)
    requires RfcWalkable(area, at) && PadFree(area, at)
    ensures Walkable(area, at)
    decreases |area| - at
  {
    if area[at] != OPT_END {
      RfcWalkableNext(area, at);
      PadFreeWalkable(area, NextOption(area, at));
    }
  }

  lemma {:induction false} RfcRecordsHaveNoPad(area: seq<byte>, at: nat)
    requires RfcWalkable(area, at)
    ensures forall i :: 0 <= i < |RfcRecords(area, at)| ==> RfcRecords(area, at)[i].code != OPT_PAD
    decreases |area| - at
  {
    if area[at] == OPT_END {
    } else if area[at] == OPT_PAD {
      RfcRecordsHaveNoPad(area, at + 1);
    } else {
      RfcWalkableNext(area, at);
      RfcRecordsHaveNoPad(area, NextOption(area, at));
    }
  }

  // Where both walks stay in the area, they read the same exactly when no pad
  // comes before END.
  lemma {:induction false} WalksAgreeExactlyWhenPadFree(area: seq<byte>, at: nat)
    requires Walkable(area, at) && RfcWalkable(area, at)
    ensures Records(area, at) == RfcRecords(area, at) <==> PadFree(area, at)
    decreases |area| - at
  {
    if area[at] == OPT_END {
    } else if area[at] == OPT_PAD {
      RfcRecordsHaveNoPad(area, at);
      assert Records(area, at)[0].code == OPT_PAD;
    } else {
      RfcWalkableNext(area, at);
      var next := NextOption(area, at);
      WalksAgreeExactlyWhenPadFree(area, next);
      assert Records(area, at)[1..] == Records(area, next);
      assert RfcRecords(area, at)[1..] == RfcRecords(area, next);
    }
  }

  // On any area well-formed by the standard, the walker stays inside it and
  // reads the options the standard means exactly when no pad comes before END.
  lemma WalkIsRfcWalkExactlyWhenPadFree(area: seq<byte>, at: nat)
    requires RfcWalkable(area, at)
    ensures Walkable(area, at) && Records(area, at) == RfcRecords(area, at) <==> PadFree(area, at)
  {
    if PadFree(area, at) {
      PadFreeWalkable(area, at);
    }
    if Walkable(area, at) {
      WalksAgreeExactlyWhenPadFree(area, at);
    }
  }

  // With a pad just before END, the walker takes END for a length and leaves
  // the area.
  lemma PadOverruns()
    ensures var area := [53, 1, 3, 0, 255];
            RfcWalkable(area, 0) && RfcRecords(area, 0) == [Record(OPT_MSGTYPE, [3])] && !Walkable(area, 0)
  {
    var area := [53, 1, 3, 0, 255];
    assert RfcWalkable(area, 4) && RfcWalkable(area, 3) && RfcRecords(area, 3) == [];
    assert RecordAt(area, 0) == Record(OPT_MSGTYPE, [3]);
    assert !Walkable(area, 3);
  }

  // With a pad in front, a netmask option hides the requested address: the
  // walker takes the netmask's code for a length and stops at its first byte.
  function Hiding(): seq<byte> { [53, 1, 3, 0, 1, 4, 255, 255, 255, 0, 50, 4, 10, 0, 0, 20, 255] }

  lemma PadHidesRequest()
    ensures Walkable(Hiding(), 0) && Requested(Records(Hiding(), 0)) == ZERO_IP
    ensures RfcWalkable(Hiding(), 0) && Requested(RfcRecords(Hiding(), 0)) == [10, 0, 0, 20]
  {
    HiddenFromWalker(Hiding());
    SeenByStandard(Hiding());
  }

  lemma HiddenFromWalker(area: seq<byte>)
    requires area == Hiding()
    ensures Walkable(area, 0) && Requested(Records(area, 0)) == ZERO_IP
  {
    assert Walkable(area, 6) && Records(area, 6) == [];
    assert Walkable(area, 3) && Records(area, 3) == [RecordAt(area, 3)];
    assert Records(area, 0) == [RecordAt(area, 0), RecordAt(area, 3)];
    RequestedIsLast(Records(area, 0));
  }

  lemma SeenByStandard(area: seq<byte>)
    requires area == Hiding()
    ensures RfcWalkable(area, 0) && Requested(RfcRecords(area, 0)) == [10, 0, 0, 20]
  {
    assert RfcWalkable(area, 16) && RfcRecords(area, 16) == [];
    assert RfcWalkable(area, 10) && RfcRecords(area, 10) == [RecordAt(area, 10)];
    assert RfcWalkable(area, 4) && RfcRecords(area, 4) == [RecordAt(area, 4)] + RfcRecords(area, 10);
    assert RfcWalkable(area, 3) && RfcRecords(area, 3) == RfcRecords(area, 4);
    var rfc := RfcRecords(area, 0);
    assert rfc == [RecordAt(area, 0)] + RfcRecords(area, 3);
    RequestedNext(rfc[..2], RecordAt(area, 10));
    assert rfc == rfc[..2] + [RecordAt(area, 10)];
  }

  // ---- the writers ----

  // Most significant byte first.
  function FromBigEndian(bytes: seq<byte>): nat {
    if bytes == [] then 0 else 256 * FromBigEndian(bytes[..|bytes| - 1]) + bytes[|bytes| - 1]
  }

  function TimeBytes(t: nat): (bytes: seq<byte>)
    requires t < U32
    ensures |bytes| == 4
  {
    [t / 0x100_0000, t / 0x1_0000 % 256, t / 256 % 256, t % 256]
  }

  // The time encoding loses nothing, for every 32-bit value.
  lemma TimeRoundTrip(t: nat)
    requires t < U32
    ensures FromBigEndian(TimeBytes(t)) == t
  {
    var b := TimeBytes(t);
    var b0: int, b1: int, b2: int, b3: int := b[0], b[1], b[2], b[3];
    assert b[..3][..2][..1] == [b[0]] && b[..3][..2] == [b[0], b[1]] && b[..3] == [b[0], b[1], b[2]];
    assert FromBigEndian([b[0]]) == b0;
    assert FromBigEndian([b[0], b[1]]) == 256 * b0 + b1;
    assert FromBigEndian(b[..3]) == 256 * (256 * b0 + b1) + b2;
    TimeDigits(t);
  }

  // Dividing the remainders, as the writer does, gives the same four bytes.
  lemma TimeDigits(t: nat)
    requires t < U32
    ensures var t1 := t % 0x100_0000; var t2 := t1 % 0x1_0000;
            TimeBytes(t) == [t / 0x100_0000, t1 / 0x1_0000, t2 / 256, t2 % 256]
    ensures t == 0x100_0000 * (t / 0x100_0000) + 0x1_0000 * (t / 0x1_0000 % 256) + 256 * (t / 256 % 256) + t % 256
  {
    var b3, q := t % 256, t / 256;
    var b2, p := q % 256, q / 256;
    var b1, b0 := p % 256, p / 256;
    TwoBytes(t, p, 256 * b2 + b3);
    ThreeBytes(t, b0, 0x1_0000 * b1 + 256 * b2 + b3);
    TwoBytes(t % 0x100_0000, b1, 256 * b2 + b3);
  }

  lemma TwoBytes(t: nat, q: nat, r: nat)
    requires t == 0x1_0000 * q + r && r < 0x1_0000
    ensures t / 0x1_0000 == q && t % 0x1_0000 == r
  {
  }

  lemma ThreeBytes(t: nat, q: nat, r: nat)
    requires t == 0x100_0000 * q + r && r < 0x100_0000
    ensures t / 0x100_0000 == q && t % 0x100_0000 == r
  {
  }

  // One call of a writer, what it puts in the area, and what it says.
  datatype Call =
    | AddByte(code: byte, val: byte)
    | AddIP(code: byte, ip: Ip)
    | AddTime(code: byte, t: nat)
  {
    predicate InRange() { AddTime? ==> t < U32 }

    predicate Valid() { code != OPT_END && InRange() }

    function Bytes(): (bytes: seq<byte>)
      requires InRange()
      ensures |bytes| >= 2
    {
      match this
      case AddByte(code, val) => [code, 1, val]
      case AddIP(code, ip) => [code, 4] + ip
      case AddTime(code, t) => [code, 4] + TimeBytes(t)
    }

    function Meaning(): Record
      requires InRange()
    {
      match this
      case AddByte(code, val) => Record(code, [val])
      case AddIP(code, ip) => Record(code, ip)
      case AddTime(code, t) => Record(code, TimeBytes(t))
    }
  }

  predicate AllValid(calls: seq<Call>) {
    forall i :: 0 <= i < |calls| ==> calls[i].Valid()
  }

  function Emitted(calls: seq<Call>): seq<byte>
    requires AllValid(calls)
  {
    if calls == [] then [] else calls[0].Bytes() + Emitted(calls[1..])
  }

  function Meanings(calls: seq<Call>): seq<Record>
    requires AllValid(calls)
  {
    if calls == [] then [] else [calls[0].Meaning()] + Meanings(calls[1..])
  }

  // Whatever a sequence of writer calls followed by END put into an area, the
  // walker reads back, in order and to the END just written.
  lemma {:induction false} WrittenThenRead(before: seq<byte>, calls: seq<Call>, after: seq<byte>)
    requires AllValid(calls)
    ensures var area := before + Emitted(calls) + [OPT_END] + after;
            && Walkable(area, |before|)
            && Records(area, |before|) == Meanings(calls)
            && EndOf(area, |before|) == |before| + |Emitted(calls)|
    decreases |calls|
  {
    var area := before + Emitted(calls) + [OPT_END] + after;
    if calls == [] {
      assert area[|before|] == OPT_END;
    } else {
      var head, rest := calls[0].Bytes(), Emitted(calls[1..]) + [OPT_END] + after;
      WrittenThenRead(before + head, calls[1..], after);
      HeadRead(before, calls[0], rest);
      Reassociate(before, head, Emitted(calls[1..]), [OPT_END], after);
    }
  }

  lemma Reassociate<T>(a: seq<T>, b: seq<T>, c: seq<T>, d: seq<T>, e: seq<T>)
    ensures (a + b) + c + d + e == a + b + (c + d + e) == a + (b + c) + d + e
  {
  }

  lemma HeadRead(before: seq<byte>, call: Call, after: seq<byte>)
    requires call.Valid()
    ensures var area := before + call.Bytes() + after;
            && area[|before|] == call.code != OPT_END
            && NextOption(area, |before|) == |before| + |call.Bytes()|
            && RecordAt(area, |before|) == call.Meaning()
  {
    var area := before + call.Bytes() + after;
    var at, n := |before|, |call.Bytes()|;
    assert area[at] == call.Bytes()[0] && area[at + 1] == call.Bytes()[1];
    assert area[at + 2..at + n] == call.Bytes()[2..];
    assert call.Bytes()[2..] == call.Meaning().data;
  }

  method AddOptionTime(area: array<byte>, optPtr: nat, opt: byte, time: nat) returns (next: nat)
    requires time < U32 && optPtr + 6 <= area.Length
    modifies area
    ensures next == optPtr + 6
    ensures area[..] == Patched(old(area[..]), optPtr, AddTime(opt, time).Bytes())
  {
    TimeDigits(time);
    var t := time;
    area[optPtr] := opt;
    area[optPtr + 1] := 4;
    area[optPtr + 2] := t / (256 * 256 * 256);
    t := t % (256 * 256 * 256);
    area[optPtr + 3] := t / (256 * 256);
    t := t % (256 * 256);
    area[optPtr + 4] := t / 256;
    t := t % 256;
    area[optPtr + 5] := t;
    next := optPtr + 6;
  }

  method AddOptionIP(area: array<byte>, optPtr: nat, opt: byte, ip: Ip) returns (next: nat)
    requires optPtr + 6 <= area.Length
    modifies area
    ensures next == optPtr + 6
    ensures area[..] == Patched(old(area[..]), optPtr, AddIP(opt, ip).Bytes())
  {
    area[optPtr] := opt;
    area[optPtr + 1] := 4;
    Memcpy(area, optPtr + 2, ip);
    next := optPtr + 6;
  }

  method AddOptionByte(area: array<byte>, optPtr: nat, opt: byte, val: byte) returns (next: nat)
    requires optPtr + 3 <= area.Length
    modifies area
    ensures next == optPtr + 3
    ensures area[..] == Patched(old(area[..]), optPtr, AddByte(opt, val).Bytes())
  {
    area[optPtr] := opt;
    area[optPtr + 1] := 1;
    area[optPtr + 2] := val;
    next := optPtr + 3;
  }

  // ---- the message type (RFC 2132 section 9.6) ----

  predicate NamesType(r: Record) { r.code == OPT_MSGTYPE && |r.data| == 1 }

  // The value of the one-byte option 53, wherever it stands.
  function MessageType(records: seq<Record>): Option<byte> {
    if records == [] then None
    else if NamesType(records[0]) then Some(records[0].data[0])
    else MessageType(records[1..])
  }

  // The shape of an option area: codes and lengths, without the values.
  datatype Tag = Pad | Tag(code: byte, len: byte)

  const TYPE_TAG := Tag(OPT_MSGTYPE, 1)

  function Tags(area: seq<byte>, at: nat): seq<Tag>
    requires RfcWalkable(area, at)
    decreases |area| - at
  {
    if area[at] == OPT_END then []
    else if area[at] == OPT_PAD then [Pad] + Tags(area, at + 1)
    else RfcWalkableNext(area, at); [Tag(area[at], area[at + 1])] + Tags(area, NextOption(area, at))
  }

  predicate WellFormed(tags: seq<Tag>) {
    forall i :: 0 <= i < |tags| && tags[i].Tag? ==> tags[i].code != OPT_PAD && tags[i].code != OPT_END
  }

  // An area of a shape, with `v` for message type and zeros elsewhere.
  function Item(tag: Tag, v: byte): (bytes: seq<byte>)
    ensures bytes != []
  {
    match tag
    case Pad => [OPT_PAD]
    case Tag(code, len) => [code, len] + if tag == TYPE_TAG then [v] else seq(len, _ => 0)
  }

  function Items(tags: seq<Tag>, v: byte): seq<byte> {
    if tags == [] then [] else Item(tags[0], v) + Items(tags[1..], v)
  }

  // The standard reads the area as this shape, with `v` for the type.
  ghost predicate ReadsAs(area: seq<byte>, at: nat, tags: seq<Tag>, v: byte) {
    && RfcWalkable(area, at) && Tags(area, at) == tags
    && MessageType(RfcRecords(area, at)) == if TYPE_TAG in tags then Some(v) else None
  }

  lemma {:induction false} ItemsRead(before: seq<byte>, tags: seq<Tag>, v: byte, after: seq<byte>)
    requires WellFormed(tags)
    ensures ReadsAs(before + Items(tags, v) + [OPT_END] + after, |before|, tags, v)
    decreases |tags|
  {
    var area := before + Items(tags, v) + [OPT_END] + after;
    if tags == [] {
      assert area[|before|] == OPT_END;
    } else {
      var item := Item(tags[0], v);
      ItemsRead(before + item, tags[1..], v, after);
      Reassociate(before, item, Items(tags[1..], v), [OPT_END], after);
      ItemRead(before, tags[0], v, Items(tags[1..], v) + [OPT_END] + after);
      ItemStep(area, |before|, tags, v);
    }
  }

  // An item starts here.
  predicate ItemAt(area: seq<byte>, at: nat, tag: Tag, v: byte) {
    && at + |Item(tag, v)| <= |area|
    && if tag.Pad? then area[at] == OPT_PAD
       else
         && area[at] == tag.code && area[at + 1] == tag.len && NextOption(area, at) == at + |Item(tag, v)|
         && RecordAt(area, at).data == Item(tag, v)[2..]
  }

  lemma ItemRead(before: seq<byte>, tag: Tag, v: byte, after: seq<byte>)
    ensures ItemAt(before + Item(tag, v) + after, |before|, tag, v)
  {
    var area, item, at := before + Item(tag, v) + after, Item(tag, v), |before|;
    assert area[at] == item[0];
    if tag.Tag? {
      assert area[at + 1] == item[1];
      assert area[at + 2..at + |item|] == item[2..];
    }
  }

  lemma ItemStep(area: seq<byte>, at: nat, tags: seq<Tag>, v: byte)
    requires WellFormed(tags) && tags != []
    requires ItemAt(area, at, tags[0], v) && ReadsAs(area, at + |Item(tags[0], v)|, tags[1..], v)
    ensures ReadsAs(area, at, tags, v)
  {
    assert tags == [tags[0]] + tags[1..];
    if tags[0].Tag? {
      var next := NextOption(area, at);
      assert RfcRecords(area, at) == [RecordAt(area, at)] + RfcRecords(area, next);
      assert RfcRecords(area, at)[1..] == RfcRecords(area, next);
    }
  }

  // The request's loop over its options.
  method FindRequested(area: array<byte>, start: nat) returns (reqAddr: Ip)
    requires Walkable(area[..], start)
    ensures reqAddr == Requested(Records(area[..], start))
  {
    reqAddr := ZERO_IP;
    var optPtr := start;
    ghost var bytes := area[..];
    ghost var seen: seq<Record> := [];
    while area[optPtr] != OPT_END
      invariant Walkable(bytes, optPtr)
      invariant seen + Records(bytes, optPtr) == Records(bytes, start)
      invariant reqAddr == Requested(seen)
      decreases area.Length - optPtr
    {
      WalkStep(bytes, optPtr, seen);
      var len: int := area[optPtr + 1];
      if area[optPtr] == OPT_REQ_IP {
        if len == 4 {
          reqAddr := area[optPtr + 2..optPtr + 6];
        }
      }
      seen := seen + [RecordAt(bytes, optPtr)];
      optPtr := optPtr + len + 2;
    }
    assert seen == Records(bytes, start);
  }

  lemma WalkStep(area: seq<byte>, at: nat, seen: seq<Record>)
    requires Walkable(area, at) && area[at] != OPT_END
    ensures at + 1 < |area| && NextOption(area, at) < |area| && Walkable(area, NextOption(area, at))
    ensures seen + Records(area, at) == seen + [RecordAt(area, at)] + Records(area, NextOption(area, at))
    ensures Requested(seen + [RecordAt(area, at)]) ==
            if area[at] == OPT_REQ_IP && area[at + 1] == 4 then area[at + 2..at + 6] else Requested(seen)
  {
    WalkableNext(area, at);
    var record, rest := RecordAt(area, at), Records(area, NextOption(area, at));
    RequestedNext(seen, record);
    Shift(seen, record, rest);
  }

  lemma RequestedNext(seen: seq<Record>, record: Record)
    ensures Requested(seen + [record]) == if NamesAddress(record) then record.data else Requested(seen)
  {
    assert (seen + [record])[..|seen|] == seen;
  }

  lemma Shift<T>(a: seq<T>, x: T, b: seq<T>)
    ensures a + ([x] + b) == a + [x] + b
  {
  }
}
