// The DHCP message (RFC 2131 section 2) and the replies apps/dhcps/dhcps.c
// builds by copying and patching the request.
module DhcpMessage {
  import opened Bytes
  import opened DhcpOptions

  type Mac = s: seq<byte> | |s| == 6 witness [0, 0, 0, 0, 0, 0]

  const FREE_MAC: Mac := [0, 0, 0, 0, 0, 0]

  // struct dhcp_msg
  const YIADDR := 16
  const CHADDR := 28
  const COOKIE := 236
  const OPTIONS := 240
  const OPTIONS_LEN := 68
  const MSG_LEN := 308

  const MAGIC: seq<byte> := [99, 130, 83, 99]

  const DHCPDISCOVER: byte := 1
  const DHCPOFFER: byte := 2
  const DHCPREQUEST: byte := 3
  const DHCPACK: byte := 5
  const DHCPNAK: byte := 6

  // Up to and including options[2].
  predicate HasType(payload: seq<byte>) { |payload| > OPTIONS + 2 }

  function TypeOf(payload: seq<byte>): byte
    requires HasType(payload)
  {
    payload[OPTIONS + 2]
  }

  function MacOf(payload: seq<byte>): Mac
    requires HasType(payload)
  {
    payload[CHADDR..CHADDR + 6]
  }

  function YiAddr(payload: seq<byte>): Ip
    requires HasType(payload)
  {
    payload[YIADDR..YIADDR + 4]
  }

  // ---- the message type ----

  // The byte the server takes for the type is the message type, for every
  // content of the options ...
  ghost predicate TypeReadRight(tags: seq<Tag>) {
    forall payload ::
      HasType(payload) && RfcWalkable(payload, OPTIONS) && Tags(payload, OPTIONS) == tags ==>
        MessageType(RfcRecords(payload, OPTIONS)) == Some(TypeOf(payload))
  }

  // ... exactly when the area begins with option 53: not a pad, not another
  // option.
  lemma TypeReadRightExactlyWhenFirst(tags: seq<Tag>)
    requires WellFormed(tags)
    ensures TypeReadRight(tags) <==> tags != [] && tags[0] == TYPE_TAG
  {
    if tags != [] && tags[0] == TYPE_TAG {
      forall payload | HasType(payload) && RfcWalkable(payload, OPTIONS) && Tags(payload, OPTIONS) == tags
        ensures MessageType(RfcRecords(payload, OPTIONS)) == Some(TypeOf(payload))
      {
        TypeIsFirst(payload, tags);
      }
    } else {
      var zero, one := Shaped(tags, 0), Shaped(tags, 1);
      assert HasType(zero) && HasType(one);
      SameTypeByte(tags);
      assert TypeOf(zero) == TypeOf(one);
    }
  }

  lemma TypeIsFirst(payload: seq<byte>, tags: seq<Tag>)
    requires HasType(payload) && RfcWalkable(payload, OPTIONS) && Tags(payload, OPTIONS) == tags
    requires tags != [] && tags[0] == TYPE_TAG
    ensures MessageType(RfcRecords(payload, OPTIONS)) == Some(TypeOf(payload))
  {
    assert payload[OPTIONS] != OPT_END && payload[OPTIONS] != OPT_PAD;
    RfcWalkableNext(payload, OPTIONS);
    assert Tag(payload[OPTIONS], payload[OPTIONS + 1]) == tags[0];
    assert RfcRecords(payload, OPTIONS)[0] == RecordAt(payload, OPTIONS);
  }

  // A message of this shape with `v` for its type.
  function Shaped(tags: seq<Tag>, v: byte): (payload: seq<byte>)
    requires WellFormed(tags)
    ensures HasType(payload) && RfcWalkable(payload, OPTIONS) && Tags(payload, OPTIONS) == tags
    ensures MessageType(RfcRecords(payload, OPTIONS)) == if TYPE_TAG in tags then Some(v) else None
  {
    var before := seq(OPTIONS, _ => 0);
    ItemsRead(before, tags, v, [0, 0]);
    before + Items(tags, v) + [OPT_END] + [0, 0]
  }

  function Area(tags: seq<Tag>, v: byte): seq<byte> { Items(tags, v) + [OPT_END] + [0, 0] }

  // Unless it stands first, the value of option 53 is not where the server
  // looks.
  lemma SameTypeByte(tags: seq<Tag>)
    requires WellFormed(tags) && (tags == [] || tags[0] != TYPE_TAG)
    ensures Shaped(tags, 0)[OPTIONS + 2] == Shaped(tags, 1)[OPTIONS + 2]
  {
    AreaByte(tags, 0);
    AreaByte(tags, 1);
    assert forall v: byte :: Shaped(tags, v)[OPTIONS + 2] == Area(tags, v)[2];
  }

  lemma AreaByte(tags: seq<Tag>, v: byte)
    requires tags == [] || tags[0] != TYPE_TAG
    ensures Area(tags, v)[2] == ThirdByte(tags)
  {
    if tags != [] {
      AreaNext(tags, v);
      AreaStart(tags[1..], v);
    }
  }

  lemma AreaStart(tags: seq<Tag>, v: byte)
    ensures Area(tags, v)[0] == FirstByte(tags) && Area(tags, v)[1] == SecondByte(tags)
  {
    if tags != [] {
      AreaNext(tags, v);
      if tags[1..] != [] {
        AreaNext(tags[1..], v);
      }
    }
  }

  lemma AreaNext(tags: seq<Tag>, v: byte)
    requires tags != []
    ensures Area(tags, v) == Item(tags[0], v) + Area(tags[1..], v)
  {
  }

  function FirstByte(tags: seq<Tag>): byte {
    if tags == [] then OPT_END else if tags[0].Pad? then OPT_PAD else tags[0].code
  }

  function SecondByte(tags: seq<Tag>): byte {
    if tags == [] then 0 else if tags[0].Pad? then FirstByte(tags[1..]) else tags[0].len
  }

  function ThirdByte(tags: seq<Tag>): byte {
    if tags == [] then 0
    else if tags[0].Pad? then SecondByte(tags[1..])
    else if tags[0].len == 0 then FirstByte(tags[1..])
    else 0
  }

  // ---- the replies ----

  // The server's address and netmask, as the interface has them.
  datatype Interface = Interface(addr: Ip, netmask: Ip)

  // newResp: the request copied into the reply buffer, options cleared, op and
  // cookie set.
  function ReplyBase(payload: seq<byte>, room: seq<byte>): (reply: seq<byte>)
    requires |room| >= MSG_LEN
    ensures |reply| == |room|
  {
    var copied := Patched(room, 0, payload[..Min(|payload|, |room|)]);
    var cleared := Patched(copied, OPTIONS, Cleared());
    Patched(cleared[0 := 2], COOKIE, MAGIC)
  }

  function Cleared(): (zeros: seq<byte>)
    ensures |zeros| == OPTIONS_LEN
  {
    seq(OPTIONS_LEN, _ => 0)
  }

  function OfferCalls(netif: Interface): seq<Call> {
    [AddByte(OPT_MSGTYPE, DHCPOFFER), AddIP(OPT_NETMASK, netif.netmask), AddIP(OPT_SERVERID, netif.addr)]
  }

  function AckCalls(netif: Interface): seq<Call> {
    [AddByte(OPT_MSGTYPE, DHCPACK), AddTime(OPT_RENEW_TIME, 30 * 60), AddTime(OPT_REBIND_TIME, 50 * 60),
     AddTime(OPT_LEASE_TIME, 60 * 60), AddIP(OPT_NETMASK, netif.netmask), AddIP(OPT_SERVERID, netif.addr)]
  }

  function NakCalls(netif: Interface): seq<Call> {
    [AddByte(OPT_MSGTYPE, DHCPNAK), AddIP(OPT_SERVERID, netif.addr)]
  }

  // The lists the server sends fit the option area.
  predicate Fits(calls: seq<Call>) {
    AllValid(calls) && |Emitted(calls)| < OPTIONS_LEN
  }

  lemma OfferFits(netif: Interface)
    ensures Fits(OfferCalls(netif)) && |Emitted(OfferCalls(netif))| == 15
  {
    ByteThenSixes(OfferCalls(netif));
  }

  lemma AckFits(netif: Interface)
    ensures Fits(AckCalls(netif)) && |Emitted(AckCalls(netif))| == 33
  {
    ByteThenSixes(AckCalls(netif));
  }

  lemma NakFits(netif: Interface)
    ensures Fits(NakCalls(netif)) && |Emitted(NakCalls(netif))| == 9
  {
    ByteThenSixes(NakCalls(netif));
  }

  // A one-byte option takes three bytes, every other one six.
  lemma ByteThenSixes(calls: seq<Call>)
    requires AllValid(calls) && calls != [] && calls[0].AddByte?
    requires forall i :: 1 <= i < |calls| ==> !calls[i].AddByte?
    ensures |Emitted(calls)| == 3 + 6 * (|calls| - 1)
  {
    Sixes(calls[1..]);
  }

  lemma {:induction false} Sixes(calls: seq<Call>)
    requires AllValid(calls) && forall i :: 0 <= i < |calls| ==> !calls[i].AddByte?
    ensures |Emitted(calls)| == 6 * |calls|
  {
    if calls != [] {
      Sixes(calls[1..]);
    }
  }

  function WithOptions(bytes: seq<byte>, calls: seq<Call>): (reply: seq<byte>)
    requires |bytes| >= MSG_LEN && Fits(calls)
    ensures |reply| == |bytes|
  {
    Patched(bytes, OPTIONS, Emitted(calls) + [OPT_END])
  }

  // ip4_addr_copy to yiaddr, where the reply names an address.
  function Named(base: seq<byte>, yiaddr: Option<Ip>): (reply: seq<byte>)
    requires |base| >= MSG_LEN
    ensures |reply| == |base|
  {
    if yiaddr.Some? then Patched(base, YIADDR, yiaddr.value) else base
  }

  function OfferReply(payload: seq<byte>, room: seq<byte>, ip: Ip, netif: Interface): (reply: seq<byte>)
    requires |room| >= MSG_LEN
    ensures |reply| == |room|
  {
    OfferFits(netif);
    WithOptions(Named(ReplyBase(payload, room), Some(ip)), OfferCalls(netif))
  }

  function AckReply(payload: seq<byte>, room: seq<byte>, ip: Ip, netif: Interface): (reply: seq<byte>)
    requires |room| >= MSG_LEN
    ensures |reply| == |room|
  {
    AckFits(netif);
    WithOptions(Named(ReplyBase(payload, room), Some(ip)), AckCalls(netif))
  }

  function NakReply(payload: seq<byte>, room: seq<byte>, netif: Interface): (reply: seq<byte>)
    requires |room| >= MSG_LEN
    ensures |reply| == |room|
  {
    NakFits(netif);
    WithOptions(Named(ReplyBase(payload, room), None), NakCalls(netif))
  }

  // ---- what a reply is ----

  predicate InField(i: int, at: nat, n: nat) { at <= i < at + n }

  // What is copied of a request: everything but op, yiaddr, the cookie and the
  // options.
  predicate Copied(i: int) { 0 < i && !(16 <= i < 20) && !(236 <= i < 308) }

  // In the standard's own places (RFC 2131 section 2): the reply is the request
  // but for op, cookie, options and, when the server names an address, yiaddr;
  // its options are these, end inside the option area and are followed by zeros
  // only.
  ghost predicate RepliesTo(reply: seq<byte>, payload: seq<byte>, yiaddr: Option<Ip>, records: seq<Record>)
    requires HasType(payload)
  {
    && |reply| >= 308
    && reply[0] == 2
    && reply[236..240] == [99, 130, 83, 99]
    && reply[16..20] == (if yiaddr.Some? then yiaddr.value else payload[16..20])
    && (forall i :: 0 <= i < Min(|payload|, |reply|) && Copied(i) ==> reply[i] == payload[i])
    && Walkable(reply, 240) && Records(reply, 240) == records
    && EndOf(reply, 240) < 308
    && (forall i :: EndOf(reply, 240) < i < 308 ==> reply[i] == 0)
  }

  lemma PatchedAt(was: seq<byte>, at: nat, bytes: seq<byte>, i: nat)
    requires at + |bytes| <= |was| && i < |was|
    ensures Patched(was, at, bytes)[i] == if at <= i < at + |bytes| then bytes[i - at] else was[i]
  {
  }

  lemma BaseAt(payload: seq<byte>, room: seq<byte>, i: nat)
    requires |room| >= MSG_LEN && |payload| > OPTIONS && i < |room|
    ensures ReplyBase(payload, room)[i] ==
            if i == 0 then 2
            else if COOKIE <= i < COOKIE + 4 then MAGIC[i - COOKIE]
            else if OPTIONS <= i < MSG_LEN then 0
            else if i < |payload| then payload[i]
            else room[i]
  {
    var copied := Patched(room, 0, payload[..Min(|payload|, |room|)]);
    var cleared := Patched(copied, OPTIONS, Cleared());
    PatchedAt(room, 0, payload[..Min(|payload|, |room|)], i);
    PatchedAt(copied, OPTIONS, Cleared(), i);
    PatchedAt(cleared[0 := 2], COOKIE, MAGIC, i);
  }

  // A reply byte by byte.
  lemma ReplyAt(payload: seq<byte>, room: seq<byte>, yiaddr: Option<Ip>, calls: seq<Call>, i: nat)
    requires |room| >= MSG_LEN && |payload| > OPTIONS && Fits(calls) && i < |room|
    ensures WithOptions(Named(ReplyBase(payload, room), yiaddr), calls)[i] ==
            if i == 0 then 2
            else if yiaddr.Some? && InField(i, YIADDR, 4) then yiaddr.value[i - YIADDR]
            else if InField(i, COOKIE, 4) then MAGIC[i - COOKIE]
            else if InField(i, OPTIONS, |Emitted(calls)| + 1) then (Emitted(calls) + [OPT_END])[i - OPTIONS]
            else if InField(i, OPTIONS, OPTIONS_LEN) then 0
            else if i < |payload| then payload[i]
            else room[i]
  {
    BaseAt(payload, room, i);
    NamedAt(ReplyBase(payload, room), yiaddr, i);
    WithOptionsAt(Named(ReplyBase(payload, room), yiaddr), calls, i);
  }

  lemma NamedAt(base: seq<byte>, yiaddr: Option<Ip>, i: nat)
    requires |base| >= MSG_LEN && i < |base|
    ensures Named(base, yiaddr)[i] == if yiaddr.Some? && InField(i, YIADDR, 4) then yiaddr.value[i - YIADDR] else base[i]
  {
    if yiaddr.Some? {
      PatchedAt(base, YIADDR, yiaddr.value, i);
    }
  }

  lemma WithOptionsAt(named: seq<byte>, calls: seq<Call>, i: nat)
    requires |named| >= MSG_LEN && Fits(calls) && i < |named|
    ensures WithOptions(named, calls)[i] ==
            if InField(i, OPTIONS, |Emitted(calls)| + 1) then (Emitted(calls) + [OPT_END])[i - OPTIONS] else named[i]
  {
    PatchedAt(named, OPTIONS, Emitted(calls) + [OPT_END], i);
  }

  lemma ReplyOptions(named: seq<byte>, calls: seq<Call>)
    requires |named| >= MSG_LEN && Fits(calls)
    ensures var reply := WithOptions(named, calls);
            && Walkable(reply, OPTIONS) && Records(reply, OPTIONS) == Meanings(calls)
            && EndOf(reply, OPTIONS) == OPTIONS + |Emitted(calls)|
  {
    WithOptionsParts(named, calls);
    WrittenThenRead(named[..OPTIONS], calls, named[OPTIONS + |Emitted(calls)| + 1..]);
  }

  lemma WithOptionsParts(named: seq<byte>, calls: seq<Call>)
    requires |named| >= MSG_LEN && Fits(calls)
    ensures WithOptions(named, calls) ==
            named[..OPTIONS] + Emitted(calls) + [OPT_END] + named[OPTIONS + |Emitted(calls)| + 1..]
  {
    Associate(named[..OPTIONS], Emitted(calls), [OPT_END]);
  }

  lemma ReplyMeans(payload: seq<byte>, room: seq<byte>, yiaddr: Option<Ip>, calls: seq<Call>)
    requires |room| >= MSG_LEN && HasType(payload) && Fits(calls)
    ensures RepliesTo(WithOptions(Named(ReplyBase(payload, room), yiaddr), calls), payload, yiaddr, Meanings(calls))
  {
    var reply := WithOptions(Named(ReplyBase(payload, room), yiaddr), calls);
    ReplyOptions(Named(ReplyBase(payload, room), yiaddr), calls);
    ReplyAt(payload, room, yiaddr, calls, 0);
    ReplyFields(payload, room, yiaddr, calls);
    forall i: nat | i < Min(|payload|, |reply|) && Copied(i)
      ensures reply[i] == payload[i]
    {
      ReplyAt(payload, room, yiaddr, calls, i);
    }
    forall i: nat | EndOf(reply, OPTIONS) < i < OPTIONS + OPTIONS_LEN
      ensures reply[i] == 0
    {
      ReplyAt(payload, room, yiaddr, calls, i);
    }
  }

  lemma ReplyFields(payload: seq<byte>, room: seq<byte>, yiaddr: Option<Ip>, calls: seq<Call>)
    requires |room| >= MSG_LEN && HasType(payload) && Fits(calls)
    ensures var reply := WithOptions(Named(ReplyBase(payload, room), yiaddr), calls);
            && reply[236..240] == [99, 130, 83, 99]
            && reply[16..20] == (if yiaddr.Some? then yiaddr.value else payload[16..20])
  {
    var reply := WithOptions(Named(ReplyBase(payload, room), yiaddr), calls);
    forall i: nat | 236 <= i < 240
      ensures reply[i] == [99, 130, 83, 99][i - 236]
    {
      ReplyAt(payload, room, yiaddr, calls, i);
    }
    forall i: nat | 16 <= i < 20
      ensures reply[i] == if yiaddr.Some? then yiaddr.value[i - 16] else payload[i]
    {
      ReplyAt(payload, room, yiaddr, calls, i);
    }
  }

  // A reply's message type and client are where the client looks for them.
  lemma ReplyType(reply: seq<byte>, payload: seq<byte>, yiaddr: Option<Ip>, records: seq<Record>, t: byte)
    requires HasType(payload) && RepliesTo(reply, payload, yiaddr, records)
    requires records != [] && records[0] == Record(OPT_MSGTYPE, [t])
    ensures HasType(reply) && TypeOf(reply) == t && MacOf(reply) == MacOf(payload)
  {
    assert reply[OPTIONS] != OPT_END;
    WalkableNext(reply, OPTIONS);
    assert Records(reply, OPTIONS)[0] == RecordAt(reply, OPTIONS) == Record(OPT_MSGTYPE, [t]);
    assert reply[OPTIONS + 2] == RecordAt(reply, OPTIONS).data[0];
    assert forall i :: CHADDR <= i < CHADDR + 6 ==> Copied(i);
  }

  // What the options of the three replies say, in the standard's own codes:
  // message type, netmask and server identifier ...
  lemma OfferSays(netif: Interface)
    ensures AllValid(OfferCalls(netif))
    ensures Meanings(OfferCalls(netif)) == [Record(53, [2]), Record(1, netif.netmask), Record(54, netif.addr)]
  {
    MeaningsAt(OfferCalls(netif));
  }

  // ... the times of renewal, rebinding and expiry in seconds (1800, 3000, 3600)
  // in an ACK ...
  lemma AckSays(netif: Interface)
    ensures AllValid(AckCalls(netif))
    ensures Meanings(AckCalls(netif)) ==
            [Record(53, [5]), Record(58, [0, 0, 7, 8]), Record(59, [0, 0, 11, 184]), Record(51, [0, 0, 14, 16]),
             Record(1, netif.netmask), Record(54, netif.addr)]
  {
    var calls := AckCalls(netif);
    MeaningsAt(calls);
    assert forall i :: 0 <= i < 6 ==> Meanings(calls)[i] == calls[i].Meaning();
  }

  // ... and no netmask in a NAK.
  lemma NakSays(netif: Interface)
    ensures AllValid(NakCalls(netif))
    ensures Meanings(NakCalls(netif)) == [Record(53, [6]), Record(54, netif.addr)]
  {
    MeaningsAt(NakCalls(netif));
  }

  lemma {:induction false} MeaningsAt(calls: seq<Call>)
    requires AllValid(calls)
    ensures |Meanings(calls)| == |calls| && forall i :: 0 <= i < |calls| ==> Meanings(calls)[i] == calls[i].Meaning()
  {
    if calls != [] {
      MeaningsAt(calls[1..]);
    }
  }

  lemma RepliesMean(payload: seq<byte>, room: seq<byte>, ip: Ip, netif: Interface)
    requires |room| >= MSG_LEN && HasType(payload)
    ensures RepliesTo(OfferReply(payload, room, ip, netif), payload, Some(ip),
              [Record(53, [2]), Record(1, netif.netmask), Record(54, netif.addr)])
    ensures RepliesTo(AckReply(payload, room, ip, netif), payload, Some(ip),
              [Record(53, [5]), Record(58, [0, 0, 7, 8]), Record(59, [0, 0, 11, 184]), Record(51, [0, 0, 14, 16]),
               Record(1, netif.netmask), Record(54, netif.addr)])
    ensures RepliesTo(NakReply(payload, room, netif), payload, None, [Record(53, [6]), Record(54, netif.addr)])
  {
    OfferFits(netif);
    AckFits(netif);
    NakFits(netif);
    OfferSays(netif);
    AckSays(netif);
    NakSays(netif);
    ReplyMeans(payload, room, Some(ip), OfferCalls(netif));
    ReplyMeans(payload, room, Some(ip), AckCalls(netif));
    ReplyMeans(payload, room, None, NakCalls(netif));
  }

  // The parts of it a client goes by.
  lemma RepliesName(payload: seq<byte>, room: seq<byte>, ip: Ip, netif: Interface)
    requires |room| >= MSG_LEN && HasType(payload)
    ensures Names(OfferReply(payload, room, ip, netif), DHCPOFFER, MacOf(payload), Some(ip))
    ensures Names(AckReply(payload, room, ip, netif), DHCPACK, MacOf(payload), Some(ip))
    ensures Names(NakReply(payload, room, netif), DHCPNAK, MacOf(payload), None)
  {
    RepliesMean(payload, room, ip, netif);
    ReplyNames(OfferReply(payload, room, ip, netif), payload, Some(ip),
      [Record(53, [2]), Record(1, netif.netmask), Record(54, netif.addr)], DHCPOFFER);
    ReplyNames(AckReply(payload, room, ip, netif), payload, Some(ip),
      [Record(53, [5]), Record(58, [0, 0, 7, 8]), Record(59, [0, 0, 11, 184]), Record(51, [0, 0, 14, 16]),
       Record(1, netif.netmask), Record(54, netif.addr)], DHCPACK);
    ReplyNames(NakReply(payload, room, netif), payload, None, [Record(53, [6]), Record(54, netif.addr)], DHCPNAK);
  }

  predicate Names(reply: seq<byte>, t: byte, mac: Mac, ip: Option<Ip>) {
    && HasType(reply) && TypeOf(reply) == t && MacOf(reply) == mac
    && (ip.Some? ==> YiAddr(reply) == ip.value)
  }

  lemma ReplyNames(reply: seq<byte>, payload: seq<byte>, yiaddr: Option<Ip>, records: seq<Record>, t: byte)
    requires HasType(payload) && RepliesTo(reply, payload, yiaddr, records)
    requires records != [] && records[0] == Record(OPT_MSGTYPE, [t])
    ensures Names(reply, t, MacOf(payload), yiaddr)
  {
    ReplyType(reply, payload, yiaddr, records, t);
  }
}
