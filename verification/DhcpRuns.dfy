// Theorems about every run of the DHCP server.
module DhcpRuns {
  import opened Bytes
  import opened DhcpOptions
  import opened DhcpMessage
  import opened DhcpLeases
  import opened DhcpProtocol

  // ---- runs grow ----

  lemma {:induction false} RunGrows(cfg: Config, before: seq<Msg>, more: seq<Msg>)
    requires AllReceivable(before + more) && AllReceivable(before)
    ensures Run(cfg, before).0.holders <= Run(cfg, before + more).0.holders
    ensures Run(cfg, before).1 <= Run(cfg, before + more).1
  {
    if more == [] {
      assert before + more == before;
    } else {
      var n := |more| - 1;
      var shorter := before + more[..n];
      assert before + more == shorter + [more[n]];
      assert forall i :: 0 <= i < |shorter| ==> shorter[i] == (before + more)[i];
      assert more[n] == (before + more)[|before| + n];
      RunGrows(cfg, before, more[..n]);
      RunNext(cfg, shorter, more[n]);
    }
  }

  // ---- leases are permanent ----

  // A client that holds a lease is answered from it after any further messages.
  lemma HolderResolves(cfg: Config, before: seq<Msg>, more: seq<Msg>, mac: Mac)
    requires AllReceivable(before + more) && AllReceivable(before)
    requires mac in Run(cfg, before).0.holders
    ensures var was, now := Run(cfg, before).0.holders, Run(cfg, before + more).0.holders;
            && mac in now
            && Resolve(cfg.netif.addr, cfg.n, now, mac) == Some(Addr(cfg.netif.addr, IndexOf(was, mac)))
  {
    RunGrows(cfg, before, more);
    HolderKeeps(cfg.netif.addr, cfg.n, Run(cfg, before).0.holders, Run(cfg, before + more).0.holders, mac);
  }

  // Once a non-zero client has been offered an address, then, whatever anyone
  // sends in between, a DISCOVER of its is offered that address again, a
  // REQUEST of its naming that address is ACKed with it, and a REQUEST naming
  // any other address is NAKed.
  lemma OfferIsStable(cfg: Config, before: seq<Msg>, m: Msg, between: seq<Msg>, later: Msg, a: Ip)
    requires AllReceivable(before) && AllReceivable(before + [m] + between) && Receivable(m) && Receivable(later)
    requires AnswerTo(cfg, Run(cfg, before).0, m) == Offer(a)
    requires MacOf(m.payload) == MacOf(later.payload) != FREE_MAC
    requires Asks(later) && Roomy(later)
    ensures AnswerTo(cfg, Run(cfg, before + [m] + between).0, later) ==
            if TypeOf(later.payload) == DHCPDISCOVER then Offer(a)
            else if Requested(Records(later.payload, OPTIONS)) == a then Ack(a)
            else Nak
  {
    RunNext(cfg, before, m);
    HolderResolves(cfg, before + [m], between, MacOf(m.payload));
  }

  // The leased clients only grow in number, never past n; once n lease, nobody
  // joins them ...
  lemma FullStaysFull(cfg: Config, before: seq<Msg>, between: seq<Msg>)
    requires AllReceivable(before) && AllReceivable(before + between)
    requires |Run(cfg, before).0.holders| == cfg.n
    ensures Run(cfg, before + between).0.holders == Run(cfg, before).0.holders
  {
    RunGrows(cfg, before, between);
  }

  lemma FullRefuses(cfg: Config, st: State, m: Msg)
    requires Sane(cfg, st) && Receivable(m) && |st.holders| == cfg.n
    requires MacOf(m.payload) != FREE_MAC && MacOf(m.payload) !in st.holders
    ensures Step(cfg, st, m) == (st, [Arrive, FreeRequest])
  {
    assert Resolve(cfg.netif.addr, cfg.n, st.holders, MacOf(m.payload)) == None;
    assert AnswerTo(cfg, st, m) == Silent && ArpAfter(cfg, st, m) == st.arp;
    assert Asks(m) ==> Handled(cfg, st, m) == [];
    var none: seq<Effect> := [];
    assert [Arrive] + none + [FreeRequest] == [Arrive, FreeRequest];
  }

  // ... and every other non-zero client is refused for good.
  lemma FullIsForever(cfg: Config, before: seq<Msg>, between: seq<Msg>, m: Msg)
    requires AllReceivable(before) && AllReceivable(before + between) && Receivable(m)
    requires |Run(cfg, before).0.holders| == cfg.n
    requires MacOf(m.payload) != FREE_MAC && MacOf(m.payload) !in Run(cfg, before).0.holders
    ensures var st := Run(cfg, before + between).0; Step(cfg, st, m) == (st, [Arrive, FreeRequest])
  {
    FullStaysFull(cfg, before, between);
    FullRefuses(cfg, Run(cfg, before + between).0, m);
  }

  // An all-zero client never changes the table.
  lemma ZeroMacReservesNothing(cfg: Config, before: seq<Msg>, m: Msg)
    requires AllReceivable(before) && Receivable(m) && MacOf(m.payload) == FREE_MAC
    ensures AllReceivable(before + [m])
    ensures Run(cfg, before + [m]).0.holders == Run(cfg, before).0.holders
  {
    RunNext(cfg, before, m);
  }

  // ---- exclusivity ----

  // A reply that names an address for a client.
  predicate Grants(e: Effect) {
    e.Send? && HasType(e.bytes) && (TypeOf(e.bytes) == DHCPOFFER || TypeOf(e.bytes) == DHCPACK)
  }

  // What one message is answered, told from the bytes sent.
  lemma SaidMeans(cfg: Config, m: Msg, answer: Answer, e: Effect)
    requires Receivable(m) && (!answer.Silent? ==> Roomy(m)) && e in Said(cfg, m, answer) && Grants(e)
    ensures answer.Offer? || answer.Ack?
    ensures YiAddr(e.bytes) == answer.ip && MacOf(e.bytes) == MacOf(m.payload)
  {
    var ip := if answer.Offer? || answer.Ack? then answer.ip else ZERO_IP;
    RepliesName(m.payload, m.room.value, ip, cfg.netif);
  }

  lemma StepGrants(cfg: Config, st: State, m: Msg, e: Effect)
    requires Sane(cfg, st) && Receivable(m) && e in Step(cfg, st, m).1 && Grants(e)
    ensures Asks(m) && MacOf(e.bytes) == MacOf(m.payload)
    ensures Resolve(cfg.netif.addr, cfg.n, st.holders, MacOf(m.payload)) == Some(YiAddr(e.bytes))
  {
    assert e in Said(cfg, m, AnswerTo(cfg, st, m));
    SaidMeans(cfg, m, AnswerTo(cfg, st, m), e);
  }

  // Every address ever offered or ACKed to a non-zero client is that of the
  // slot the client holds.
  lemma {:induction false} GrantsAreLeases(cfg: Config, msgs: seq<Msg>, e: Effect)
    requires AllReceivable(msgs) && e in Run(cfg, msgs).1 && Grants(e) && MacOf(e.bytes) != FREE_MAC
    ensures var holders := Run(cfg, msgs).0.holders;
            MacOf(e.bytes) in holders && YiAddr(e.bytes) == Addr(cfg.netif.addr, IndexOf(holders, MacOf(e.bytes)))
  {
    var rest, m := msgs[..|msgs| - 1], msgs[|msgs| - 1];
    assert msgs == rest + [m];
    RunNext(cfg, rest, m);
    var st := Run(cfg, rest).0;
    if e in Run(cfg, rest).1 {
      GrantsAreLeases(cfg, rest, e);
      HolderResolves(cfg, rest, [m], MacOf(e.bytes));
      HolderKeeps(cfg.netif.addr, cfg.n, st.holders, Run(cfg, msgs).0.holders, MacOf(e.bytes));
    } else {
      StepGrants(cfg, st, m, e);
    }
  }

  // Over any run, two addresses named for non-zero clients are the same exactly
  // when the clients are.
  lemma Exclusive(cfg: Config, msgs: seq<Msg>, e: Effect, f: Effect)
    requires AllReceivable(msgs) && cfg.n <= 256
    requires e in Run(cfg, msgs).1 && Grants(e) && MacOf(e.bytes) != FREE_MAC
    requires f in Run(cfg, msgs).1 && Grants(f) && MacOf(f.bytes) != FREE_MAC
    ensures YiAddr(e.bytes) == YiAddr(f.bytes) <==> MacOf(e.bytes) == MacOf(f.bytes)
  {
    var holders := Run(cfg, msgs).0.holders;
    GrantsAreLeases(cfg, msgs, e);
    GrantsAreLeases(cfg, msgs, f);
    AddressNamesSlot(cfg.netif.addr, IndexOf(holders, MacOf(e.bytes)), IndexOf(holders, MacOf(f.bytes)));
  }

  // With more slots than an octet can tell apart it takes 257 new clients to
  // break this: the condition on n is exact.
  function MacNo(i: nat): Mac
    requires i < 0x1_0000
  {
    [1, 0, 0, 0, i / 256, i % 256]
  }

  lemma DiscoverIs(mac: Mac)
    ensures Receivable(DiscoverFrom(mac)) && Roomy(DiscoverFrom(mac))
    ensures TypeOf(DiscoverFrom(mac).payload) == DHCPDISCOVER && MacOf(DiscoverFrom(mac).payload) == mac
  {
  }

  lemma MacNoInjective(i: nat, k: nat)
    requires i < 0x1_0000 && k < 0x1_0000
    ensures MacNo(i) == MacNo(k) <==> i == k
    ensures MacNo(k) != FREE_MAC
  {
    assert MacNo(i)[4] == i / 256 && MacNo(i)[5] == i % 256;
    assert MacNo(k)[4] == k / 256 && MacNo(k)[5] == k % 256;
    assert MacNo(k)[0] != FREE_MAC[0];
  }

  predicate Numbered(holders: seq<Mac>)
    requires |holders| < 0x1_0000
  {
    forall i :: 0 <= i < |holders| ==> holders[i] == MacNo(i)
  }

  lemma NewMac(holders: seq<Mac>)
    requires |holders| < 0x1_0000 && Numbered(holders)
    ensures MacNo(|holders|) !in holders && MacNo(|holders|) != FREE_MAC
  {
    MacNoInjective(0, |holders|);
    forall i | 0 <= i < |holders|
      ensures holders[i] != MacNo(|holders|)
    {
      MacNoInjective(i, |holders|);
    }
  }

  predicate Discovers(m: Msg, mac: Mac) {
    Receivable(m) && Roomy(m) && TypeOf(m.payload) == DHCPDISCOVER && MacOf(m.payload) == mac
  }

  // A new client, with room left, is offered the next slot's address.
  lemma NewIsOffered(cfg: Config, st: State, m: Msg, mac: Mac) returns (e: Effect)
    requires Sane(cfg, st) && |st.holders| < cfg.n && mac !in st.holders && mac != FREE_MAC
    requires Discovers(m, mac)
    ensures Step(cfg, st, m).0.holders == st.holders + [mac]
    ensures e in Step(cfg, st, m).1 && Grants(e)
    ensures MacOf(e.bytes) == mac && YiAddr(e.bytes) == Addr(cfg.netif.addr, |st.holders|)
  {
    IndexOfLast(st.holders, mac);
    var a := Addr(cfg.netif.addr, |st.holders|);
    e := Send(Broadcast, OfferReply(m.payload, m.room.value, a, cfg.netif));
    OfferIsSaid(cfg, st, m, a);
    RepliesName(m.payload, m.room.value, a, cfg.netif);
  }

  lemma OfferIsSaid(cfg: Config, st: State, m: Msg, a: Ip)
    requires Sane(cfg, st) && Receivable(m) && Roomy(m) && AnswerTo(cfg, st, m) == Offer(a)
    ensures Send(Broadcast, OfferReply(m.payload, m.room.value, a, cfg.netif)) in Step(cfg, st, m).1
  {
    assert Said(cfg, m, Offer(a))[0] in Step(cfg, st, m).1;
  }

  // One new client after the other.
  ghost predicate Crowd(msgs: seq<Msg>) {
    |msgs| < 0x1_0000 && forall i :: 0 <= i < |msgs| ==> Discovers(msgs[i], MacNo(i))
  }

  lemma CrowdExists(k: nat) returns (msgs: seq<Msg>)
    requires k < 0x1_0000
    ensures Crowd(msgs) && |msgs| == k
  {
    msgs := seq(k, i requires 0 <= i < k => DiscoverFrom(MacNo(i)));
    forall i | 0 <= i < k
      ensures Discovers(msgs[i], MacNo(i))
    {
      DiscoverIs(MacNo(i));
    }
  }

  lemma {:induction false} CrowdHolds(cfg: Config, msgs: seq<Msg>)
    requires Crowd(msgs) && |msgs| <= cfg.n
    ensures AllReceivable(msgs)
    ensures |Run(cfg, msgs).0.holders| == |msgs| && Numbered(Run(cfg, msgs).0.holders)
  {
    if msgs != [] {
      var rest, m := msgs[..|msgs| - 1], msgs[|msgs| - 1];
      CrowdHolds(cfg, rest);
      var st := Run(cfg, rest).0;
      NewMac(st.holders);
      var e := NewIsOffered(cfg, st, m, MacNo(|rest|));
      assert msgs == rest + [m];
      RunNext(cfg, rest, m);
      NextNumber(st.holders, Run(cfg, msgs).0.holders);
    }
  }

  lemma NextNumber(holders: seq<Mac>, now: seq<Mac>)
    requires |holders| + 1 < 0x1_0000 && Numbered(holders) && now == holders + [MacNo(|holders|)]
    ensures Numbered(now)
  {
  }

  lemma CrowdPrefix(msgs: seq<Msg>, k: nat)
    requires Crowd(msgs) && k < |msgs|
    ensures Crowd(msgs[..k]) && Discovers(msgs[k], MacNo(k)) && AllReceivable(msgs)
  {
    assert forall i :: 0 <= i < |msgs| ==> Discovers(msgs[i], MacNo(i));
  }

  // The k-th of the crowd is offered the address of slot k.
  lemma CrowdIsOffered(cfg: Config, k: nat, msgs: seq<Msg>) returns (e: Effect)
    requires Crowd(msgs) && k < |msgs| <= cfg.n
    ensures AllReceivable(msgs) && e in Run(cfg, msgs).1 && Grants(e)
    ensures MacOf(e.bytes) == MacNo(k) != FREE_MAC && YiAddr(e.bytes) == Addr(cfg.netif.addr, k)
  {
    CrowdPrefix(msgs, k);
    CrowdHolds(cfg, msgs[..k]);
    var st := Run(cfg, msgs[..k]).0;
    NewMac(st.holders);
    e := NewIsOffered(cfg, st, msgs[k], MacNo(k));
    EffectsStay(cfg, msgs, k, e);
  }

  // What the k-th message led to is in the trace of the run.
  lemma EffectsStay(cfg: Config, msgs: seq<Msg>, k: nat, e: Effect)
    requires AllReceivable(msgs) && k < |msgs| && AllReceivable(msgs[..k])
    requires e in Step(cfg, Run(cfg, msgs[..k]).0, msgs[k]).1
    ensures e in Run(cfg, msgs).1
  {
    assert msgs == msgs[..k] + [msgs[k]] + msgs[k + 1..];
    EffectsStayBetween(cfg, msgs[..k], msgs[k], msgs[k + 1..], e);
  }

  lemma EffectsStayBetween(cfg: Config, head: seq<Msg>, m: Msg, more: seq<Msg>, e: Effect)
    requires AllReceivable(head) && Receivable(m) && AllReceivable(head + [m] + more)
    requires e in Step(cfg, Run(cfg, head).0, m).1
    ensures e in Run(cfg, head + [m] + more).1
  {
    RunNext(cfg, head, m);
    RunGrows(cfg, head + [m], more);
    InLater(Run(cfg, head).1, Step(cfg, Run(cfg, head).0, m).1, Run(cfg, head + [m] + more).1, e);
  }

  lemma InLater(a: seq<Effect>, b: seq<Effect>, all: seq<Effect>, e: Effect)
    requires a + b <= all && e in b
    ensures e in all
  {
    var i :| 0 <= i < |b| && b[i] == e;
    assert all[|a| + i] == (a + b)[|a| + i] == e;
  }

  predicate Kept(e: Effect, f: Effect)
    requires Grants(e) && Grants(f)
  {
    YiAddr(e.bytes) == YiAddr(f.bytes) <==> MacOf(e.bytes) == MacOf(f.bytes)
  }

  predicate GrantsNonZero(e: Effect) { Grants(e) && MacOf(e.bytes) != FREE_MAC }

  ghost predicate AlwaysExclusive(cfg: Config) {
    forall msgs, e, f ::
      AllReceivable(msgs) && e in Run(cfg, msgs).1 && f in Run(cfg, msgs).1 && GrantsNonZero(e) && GrantsNonZero(f) ==>
        Kept(e, f)
  }

  lemma ExclusiveExactlyUpTo256(cfg: Config)
    ensures AlwaysExclusive(cfg) <==> cfg.n <= 256
  {
    if cfg.n <= 256 {
      forall msgs, e, f |
        AllReceivable(msgs) && e in Run(cfg, msgs).1 && f in Run(cfg, msgs).1 && GrantsNonZero(e) && GrantsNonZero(f)
        ensures Kept(e, f)
      {
        Exclusive(cfg, msgs, e, f);
      }
    } else {
      var msgs, e, f := Crowded(cfg);
      assert !Kept(e, f);
    }
  }

  lemma Crowded(cfg: Config) returns (msgs: seq<Msg>, e: Effect, f: Effect)
    requires cfg.n > 256
    ensures AllReceivable(msgs) && e in Run(cfg, msgs).1 && f in Run(cfg, msgs).1
    ensures GrantsNonZero(e) && GrantsNonZero(f) && !Kept(e, f)
  {
    msgs := CrowdExists(257);
    e := CrowdIsOffered(cfg, 0, msgs);
    f := CrowdIsOffered(cfg, 256, msgs);
    AddrIs(cfg.netif.addr, 0, 256);
    MacNoInjective(0, 256);
  }

  // ... but not for the all-zero client: it is offered the address the next new
  // client gets.
  lemma ZeroMacShares(cfg: Config, before: seq<Msg>, zero: Msg, m: Msg)
    requires AllReceivable(before) && Receivable(zero) && Receivable(m) && Roomy(zero) && Roomy(m)
    requires TypeOf(zero.payload) == TypeOf(m.payload) == DHCPDISCOVER && MacOf(zero.payload) == FREE_MAC
    requires MacOf(m.payload) != FREE_MAC && MacOf(m.payload) !in Run(cfg, before).0.holders
    requires |Run(cfg, before).0.holders| < cfg.n
    ensures AllReceivable(before + [zero])
    ensures var a := Addr(cfg.netif.addr, |Run(cfg, before).0.holders|);
            && AnswerTo(cfg, Run(cfg, before).0, zero) == Offer(a)
            && AnswerTo(cfg, Run(cfg, before + [zero]).0, m) == Offer(a)
  {
    RunNext(cfg, before, zero);
    IndexOfLast(Run(cfg, before).0.holders, MacOf(m.payload));
  }

  function DiscoverFrom(mac: Mac): Msg {
    Msg(seq(CHADDR, _ => 0) + mac + seq(OPTIONS - CHADDR - 6, _ => 0) + [OPT_MSGTYPE, 1, DHCPDISCOVER, OPT_END],
        Some(seq(MSG_LEN, _ => 0)))
  }

  lemma ZeroMacSharesAtOnce(cfg: Config)
    requires cfg.n > 0
    ensures var zero, m := DiscoverFrom(FREE_MAC), DiscoverFrom([0, 0, 0, 0, 0, 1]);
            && AllReceivable([zero])
            && Receivable(m) && AnswerTo(cfg, START, zero) == AnswerTo(cfg, Run(cfg, [zero]).0, m) == Offer(Addr(cfg.netif.addr, 0))
  {
    var zero, m := DiscoverFrom(FREE_MAC), DiscoverFrom([0, 0, 0, 0, 0, 1]);
    assert MacOf(zero.payload) == FREE_MAC;
    assert MacOf(m.payload) == [0, 0, 0, 0, 0, 1];
    assert MacOf(m.payload)[5] != FREE_MAC[5];
    ZeroMacShares(cfg, [], zero, m);
    assert [] + [zero] == [zero];
  }

  // Which clients are safe from each other: over no run is an address put in
  // replies to both, exactly when neither is the all-zero one.
  ghost predicate NeverShare(cfg: Config, x: Mac, y: Mac) {
    forall msgs, e, f ::
      AllReceivable(msgs) && e in Run(cfg, msgs).1 && f in Run(cfg, msgs).1 && GrantsTo(e, x) && GrantsTo(f, y) ==>
        YiAddr(e.bytes) != YiAddr(f.bytes)
  }

  predicate GrantsTo(e: Effect, mac: Mac) { Grants(e) && MacOf(e.bytes) == mac }

  lemma ExclusiveExactlyForNonZero(cfg: Config, x: Mac, y: Mac)
    requires 1 <= cfg.n <= 256 && x != y
    ensures NeverShare(cfg, x, y) <==> x != FREE_MAC && y != FREE_MAC
  {
    if x != FREE_MAC && y != FREE_MAC {
      forall msgs, e, f |
        AllReceivable(msgs) && e in Run(cfg, msgs).1 && f in Run(cfg, msgs).1 && GrantsTo(e, x) && GrantsTo(f, y)
        ensures YiAddr(e.bytes) != YiAddr(f.bytes)
      {
        Exclusive(cfg, msgs, e, f);
      }
    } else {
      var mac := if x == FREE_MAC then y else x;
      DiscoverIs(FREE_MAC);
      DiscoverIs(mac);
      var msgs, e, f := ZeroMacIsGranted(cfg, DiscoverFrom(FREE_MAC), DiscoverFrom(mac), mac);
      if x == FREE_MAC {
        assert GrantsTo(e, x) && GrantsTo(f, y);
      } else {
        assert GrantsTo(f, x) && GrantsTo(e, y);
      }
    }
  }

  // The all-zero client and any other one, offered the same address.
  lemma ZeroMacIsGranted(cfg: Config, zero: Msg, m: Msg, mac: Mac) returns (msgs: seq<Msg>, e: Effect, f: Effect)
    requires cfg.n > 0 && mac != FREE_MAC && Discovers(zero, FREE_MAC) && Discovers(m, mac)
    ensures AllReceivable(msgs) && e in Run(cfg, msgs).1 && f in Run(cfg, msgs).1
    ensures GrantsTo(e, FREE_MAC) && GrantsTo(f, mac) && YiAddr(e.bytes) == YiAddr(f.bytes)
  {
    ZeroMacShares(cfg, [], zero, m);
    msgs := [zero, m];
    assert [] + [zero] == [zero] == msgs[..1] && msgs[..0] == [];
    var a := Addr(cfg.netif.addr, 0);
    e := OfferSent(cfg, msgs, 0, a);
    f := OfferSent(cfg, msgs, 1, a);
  }

  lemma OfferSent(cfg: Config, msgs: seq<Msg>, k: nat, a: Ip) returns (e: Effect)
    requires AllReceivable(msgs) && k < |msgs| && AllReceivable(msgs[..k]) && Roomy(msgs[k])
    requires AnswerTo(cfg, Run(cfg, msgs[..k]).0, msgs[k]) == Offer(a)
    ensures e in Run(cfg, msgs).1 && GrantsTo(e, MacOf(msgs[k].payload)) && YiAddr(e.bytes) == a
  {
    var m := msgs[k];
    e := Send(Broadcast, OfferReply(m.payload, m.room.value, a, cfg.netif));
    OfferIsSaid(cfg, Run(cfg, msgs[..k]).0, m, a);
    RepliesName(m.payload, m.room.value, a, cfg.netif);
    EffectsStay(cfg, msgs, k, e);
  }

  // ---- a misread message ----

  // A DISCOVER whose first option is a host name of one letter, code 3.
  function NamedDiscover(mac: Mac): Msg {
    Msg(seq(CHADDR, _ => 0) + mac + seq(OPTIONS - CHADDR - 6, _ => 0) +
        ([OPT_HOSTNAME, 1, DHCPREQUEST] + [OPT_MSGTYPE, 1, DHCPDISCOVER] + [OPT_END]),
        Some(seq(MSG_LEN, _ => 0)))
  }

  const OPT_HOSTNAME: byte := 12

  // The standard has it a DISCOVER; the server takes it for a REQUEST that
  // names no address and refuses its own lease to the client.
  lemma NamedDiscoverIsNaked(cfg: Config, mac: Mac)
    requires cfg.n > 0 && mac != FREE_MAC && Addr(cfg.netif.addr, 0) != ZERO_IP
    ensures var m := NamedDiscover(mac);
            && Receivable(m) && RfcWalkable(m.payload, OPTIONS) && MacOf(m.payload) == mac
            && MessageType(RfcRecords(m.payload, OPTIONS)) == Some(DHCPDISCOVER)
            && AnswerTo(cfg, START, m) == Nak
  {
    var m := NamedDiscover(mac);
    NamedDiscoverReads(mac);
    assert MacOf(m.payload) == mac;
    IndexOfLast([], mac);
    RequestedIsLast(Records(m.payload, OPTIONS));
  }

  lemma NamedDiscoverReads(mac: Mac)
    ensures var p := NamedDiscover(mac).payload;
            && |p| == OPTIONS + 7 && TypeOf(p) == DHCPREQUEST
            && RfcWalkable(p, OPTIONS) && Walkable(p, OPTIONS)
            && RfcRecords(p, OPTIONS) == Records(p, OPTIONS) ==
               [Record(OPT_HOSTNAME, [DHCPREQUEST]), Record(OPT_MSGTYPE, [DHCPDISCOVER])]
  {
    var p := NamedDiscover(mac).payload;
    assert p[OPTIONS..] == [OPT_HOSTNAME, 1, DHCPREQUEST, OPT_MSGTYPE, 1, DHCPDISCOVER, OPT_END];
    assert p[240] == OPT_HOSTNAME && p[241] == 1 && p[242] == DHCPREQUEST;
    assert p[243] == OPT_MSGTYPE && p[244] == 1 && p[245] == DHCPDISCOVER && p[246] == OPT_END;
    assert RfcWalkable(p, 246) && Walkable(p, 246) && RfcRecords(p, 246) == Records(p, 246) == [];
    assert RecordAt(p, 243) == Record(OPT_MSGTYPE, [DHCPDISCOVER]);
    assert RfcRecords(p, 243) == Records(p, 243) == [RecordAt(p, 243)];
    assert RecordAt(p, 240) == Record(OPT_HOSTNAME, [DHCPREQUEST]);
  }

  // ---- ARP ----

  // The static entries are those the trace says were added, the last one for an
  // address standing.
  function Added(trace: seq<Effect>): map<Ip, Mac> {
    if trace == [] then map[]
    else
      var before, e := Added(trace[..|trace| - 1]), trace[|trace| - 1];
      if e.ArpAdd? then before[e.ip := e.mac] else before
  }

  lemma {:induction false} AddedConcat(a: seq<Effect>, b: seq<Effect>)
    requires forall e :: e in b ==> !e.ArpAdd?
    ensures Added(a + b) == Added(a)
  {
    if b == [] {
      assert a + b == a;
    } else {
      AddedConcat(a, b[..|b| - 1]);
      assert (a + b)[..|a + b| - 1] == a + b[..|b| - 1];
    }
  }

  lemma AddedOne(a: seq<Effect>, ip: Ip, mac: Mac)
    ensures Added(a + [ArpAdd(ip, mac)]) == Added(a)[ip := mac]
  {
    assert (a + [ArpAdd(ip, mac)])[..|a|] == a;
  }

  lemma AddedAround(before: seq<Effect>, ip: Ip, mac: Mac, send: Effect)
    requires send.Send?
    ensures Added(before + ([Arrive, AllocReply] + [ArpAdd(ip, mac), send] + [FreeReply, FreeRequest])) == Added(before)[ip := mac]
  {
    var head, tail := before + [Arrive, AllocReply], [send, FreeReply, FreeRequest];
    AddedConcat(before, [Arrive, AllocReply]);
    AddedOne(head, ip, mac);
    AddedConcat(head + [ArpAdd(ip, mac)], tail);
    assert head + [ArpAdd(ip, mac)] + tail ==
           before + ([Arrive, AllocReply] + [ArpAdd(ip, mac), send] + [FreeReply, FreeRequest]);
  }

  lemma AddedByStep(cfg: Config, st: State, m: Msg, before: seq<Effect>)
    requires Sane(cfg, st) && Receivable(m) && Added(before) == st.arp
    ensures Added(before + Step(cfg, st, m).1) == Step(cfg, st, m).0.arp
  {
    var answer := AnswerTo(cfg, st, m);
    if answer.Ack? {
      SaidInStep(cfg, st, m);
      AddedAround(before, answer.ip, MacOf(m.payload), Said(cfg, m, answer)[1]);
    } else {
      AddedConcat(before, Step(cfg, st, m).1);
    }
  }

  lemma {:induction false} ArpIsWhatWasAdded(cfg: Config, msgs: seq<Msg>)
    requires AllReceivable(msgs)
    ensures Run(cfg, msgs).0.arp == Added(Run(cfg, msgs).1)
  {
    if msgs != [] {
      var rest, m := msgs[..|msgs| - 1], msgs[|msgs| - 1];
      ArpIsWhatWasAdded(cfg, rest);
      assert msgs == rest + [m];
      RunNext(cfg, rest, m);
      AddedByStep(cfg, Run(cfg, rest).0, m, Run(cfg, rest).1);
    }
  }

  // The entries for non-zero clients are among the leases, one for each client
  // at most.
  lemma {:induction false} ArpIsAmongLeases(cfg: Config, msgs: seq<Msg>)
    requires AllReceivable(msgs)
    ensures var st := Run(cfg, msgs).0;
            forall ip :: ip in st.arp && st.arp[ip] != FREE_MAC ==> Leased(cfg, st, ip)
  {
    if msgs != [] {
      var rest, m := msgs[..|msgs| - 1], msgs[|msgs| - 1];
      assert msgs == rest + [m];
      RunNext(cfg, rest, m);
      ArpIsAmongLeases(cfg, rest);
      forall ip | ip in Run(cfg, msgs).0.arp && Run(cfg, msgs).0.arp[ip] != FREE_MAC
        ensures Leased(cfg, Run(cfg, msgs).0, ip)
      {
        ArpStep(cfg, Run(cfg, rest).0, m, ip);
      }
    }
  }

  predicate Leased(cfg: Config, st: State, ip: Ip)
    requires ip in st.arp
  {
    st.arp[ip] in st.holders && ip == Addr(cfg.netif.addr, IndexOf(st.holders, st.arp[ip]))
  }

  lemma ArpStep(cfg: Config, was: State, m: Msg, ip: Ip)
    requires Sane(cfg, was) && Receivable(m)
    requires ip in was.arp && was.arp[ip] != FREE_MAC ==> Leased(cfg, was, ip)
    requires var now := Step(cfg, was, m).0; ip in now.arp && now.arp[ip] != FREE_MAC
    ensures Leased(cfg, Step(cfg, was, m).0, ip)
  {
    var now := Step(cfg, was, m).0;
    if ip in was.arp && was.arp[ip] == now.arp[ip] {
      HolderKeeps(cfg.netif.addr, cfg.n, was.holders, now.holders, now.arp[ip]);
    } else {
      assert AnswerTo(cfg, was, m) == Ack(ip) && now.arp[ip] == MacOf(m.payload);
    }
  }

  lemma ArpIsInjective(cfg: Config, msgs: seq<Msg>, ip: Ip, ip': Ip)
    requires AllReceivable(msgs)
    requires var arp := Run(cfg, msgs).0.arp; ip in arp && ip' in arp && arp[ip] == arp[ip'] != FREE_MAC
    ensures ip == ip'
  {
    ArpIsAmongLeases(cfg, msgs);
  }

  // What is sent to an address is an ACK, and every ACK is sent to an address,
  // the one it names, right after the entry for the same client and address
  // went in.
  predicate AckRouted(trace: seq<Effect>, i: nat)
    requires i < |trace|
  {
    trace[i].Send? ==>
      && HasType(trace[i].bytes) && (trace[i].dest.Unicast? <==> TypeOf(trace[i].bytes) == DHCPACK)
      && (trace[i].dest.Unicast? ==>
            && YiAddr(trace[i].bytes) == trace[i].dest.ip
            && i > 0 && trace[i - 1] == ArpAdd(trace[i].dest.ip, MacOf(trace[i].bytes)))
  }

  lemma SaidRouted(cfg: Config, m: Msg, answer: Answer)
    requires Receivable(m) && (!answer.Silent? ==> Roomy(m))
    ensures forall i :: 0 <= i < |Said(cfg, m, answer)| ==> AckRouted(Said(cfg, m, answer), i)
  {
    if !answer.Silent? {
      RepliesName(m.payload, m.room.value, if answer.Nak? then ZERO_IP else answer.ip, cfg.netif);
    }
  }

  lemma StepRouted(cfg: Config, st: State, m: Msg, i: nat)
    requires Sane(cfg, st) && Receivable(m) && i < |Step(cfg, st, m).1|
    ensures AckRouted(Step(cfg, st, m).1, i)
  {
    if Asks(m) && Handled(cfg, st, m) != [] {
      var said := Said(cfg, m, AnswerTo(cfg, st, m));
      SaidRouted(cfg, m, AnswerTo(cfg, st, m));
      Wrapped(said);
      WrappedRouted(said, i);
    }
  }

  lemma WrappedRouted(said: seq<Effect>, i: nat)
    requires forall k :: 0 <= k < |said| ==> AckRouted(said, k)
    requires i < |said| + 4
    ensures AckRouted([Arrive, AllocReply] + said + [FreeReply, FreeRequest], i)
  {
    var all := [Arrive, AllocReply] + said + [FreeReply, FreeRequest];
    if 2 <= i < 2 + |said| {
      assert all[i] == said[i - 2] && AckRouted(said, i - 2);
    }
  }

  lemma {:induction false} AckIsUnicastAfterItsArpEntry(cfg: Config, msgs: seq<Msg>, i: nat)
    requires AllReceivable(msgs) && i < |Run(cfg, msgs).1|
    ensures AckRouted(Run(cfg, msgs).1, i)
  {
    var rest, m := msgs[..|msgs| - 1], msgs[|msgs| - 1];
    assert msgs == rest + [m];
    RunNext(cfg, rest, m);
    var before := Run(cfg, rest).1;
    if i < |before| {
      AckIsUnicastAfterItsArpEntry(cfg, rest, i);
    } else {
      StepRouted(cfg, Run(cfg, rest).0, m, i - |before|);
    }
  }

  // ---- what an answer is on the wire ----

  // Each answer is one message, to the right place, which says what it should;
  // chaddr is where the standard has it.
  ghost predicate OnTheWire(cfg: Config, m: Msg, answer: Answer, effects: seq<Effect>)
    requires Receivable(m)
  {
    var server := Record(54, cfg.netif.addr);
    var mask := Record(1, cfg.netif.netmask);
    match answer
    case Silent => forall e :: e in effects ==> !e.Send? && !e.ArpAdd?
    case Offer(a) => exists reply ::
      && RepliesTo(reply, m.payload, Some(a), [Record(53, [2]), mask, server])
      && effects == [Arrive, AllocReply, Send(Broadcast, reply), FreeReply, FreeRequest]
    case Ack(a) => exists reply ::
      && RepliesTo(reply, m.payload, Some(a),
           [Record(53, [5]), Record(58, [0, 0, 7, 8]), Record(59, [0, 0, 11, 184]), Record(51, [0, 0, 14, 16]), mask, server])
      && effects == [Arrive, AllocReply, ArpAdd(a, m.payload[28..34]), Send(Unicast(a), reply), FreeReply, FreeRequest]
    case Nak => exists reply ::
      && RepliesTo(reply, m.payload, None, [Record(53, [6]), server])
      && effects == [Arrive, AllocReply, Send(Broadcast, reply), FreeReply, FreeRequest]
  }

  lemma AnswerOnTheWire(cfg: Config, st: State, m: Msg)
    requires Sane(cfg, st) && Receivable(m)
    ensures OnTheWire(cfg, m, AnswerTo(cfg, st, m), Step(cfg, st, m).1)
  {
    if !AnswerTo(cfg, st, m).Silent? {
      SaidOnTheWire(cfg, m, AnswerTo(cfg, st, m));
      SaidInStep(cfg, st, m);
    }
  }

  // Which messages are answered, and with what kind of answer: a DISCOVER (1) or
  // REQUEST (3) whose reply buffer holds a message, from a client that leases or
  // finds a slot free.  Any other type is dropped.
  lemma AnsweredExactlyWhen(cfg: Config, st: State, m: Msg)
    requires Sane(cfg, st) && Receivable(m)
    ensures var t, mac := m.payload[242], m.payload[28..34];
            var served := m.room.Some? && |m.room.value| >= 308 && (mac in st.holders || |st.holders| < cfg.n);
            && (AnswerTo(cfg, st, m).Offer? <==> t == 1 && served)
            && (AnswerTo(cfg, st, m).Ack? || AnswerTo(cfg, st, m).Nak? <==> t == 3 && served)
            && (t != 1 && t != 3 ==> Step(cfg, st, m) == (st, [Arrive, FreeRequest]))
  {
  }

  lemma SaidInStep(cfg: Config, st: State, m: Msg)
    requires Sane(cfg, st) && Receivable(m) && !AnswerTo(cfg, st, m).Silent?
    ensures Step(cfg, st, m).1 == [Arrive, AllocReply] + Said(cfg, m, AnswerTo(cfg, st, m)) + [FreeReply, FreeRequest]
  {
    assert Handled(cfg, st, m) == [AllocReply] + Said(cfg, m, AnswerTo(cfg, st, m)) + [FreeReply];
    Wrapped(Said(cfg, m, AnswerTo(cfg, st, m)));
  }

  lemma Wrapped(said: seq<Effect>)
    ensures [Arrive] + ([AllocReply] + said + [FreeReply]) + [FreeRequest] ==
            [Arrive, AllocReply] + said + [FreeReply, FreeRequest]
  {
  }

  lemma SaidOnTheWire(cfg: Config, m: Msg, answer: Answer)
    requires Receivable(m) && Roomy(m) && !answer.Silent?
    ensures OnTheWire(cfg, m, answer, [Arrive, AllocReply] + Said(cfg, m, answer) + [FreeReply, FreeRequest])
  {
    var ip := if answer.Nak? then ZERO_IP else answer.ip;
    RepliesMean(m.payload, m.room.value, ip, cfg.netif);
    var said := Said(cfg, m, answer);
    if answer.Ack? {
      Around2([Arrive, AllocReply], said[0], said[1], [FreeReply, FreeRequest]);
    } else {
      Around1([Arrive, AllocReply], said[0], [FreeReply, FreeRequest]);
    }
  }

  lemma Around1(a: seq<Effect>, x: Effect, b: seq<Effect>)
    requires |a| == 2 && |b| == 2
    ensures a + [x] + b == [a[0], a[1], x, b[0], b[1]]
  {
  }

  lemma Around2(a: seq<Effect>, x: Effect, y: Effect, b: seq<Effect>)
    requires |a| == 2 && |b| == 2
    ensures a + [x, y] + b == [a[0], a[1], x, y, b[0], b[1]]
  {
  }

  // ---- what a REQUEST has to name ----

  // On a well-formed option area without pads, a REQUEST is ACKed exactly when
  // the last four-byte option 50 in it, read as the standard has it, is the
  // sender's lease.
  lemma AckedExactlyWhenLeaseIsNamed(cfg: Config, st: State, m: Msg)
    requires Sane(cfg, st) && Receivable(m) && Roomy(m) && TypeOf(m.payload) == DHCPREQUEST
    requires RfcWalkable(m.payload, OPTIONS) && PadFree(m.payload, OPTIONS)
    ensures AnswerTo(cfg, st, m).Ack? <==>
            Resolve(cfg.netif.addr, cfg.n, st.holders, MacOf(m.payload)) == Some(Requested(RfcRecords(m.payload, OPTIONS)))
  {
    WalkIsRfcWalkExactlyWhenPadFree(m.payload, OPTIONS);
    RequestAnswer(cfg, st, m, Records(m.payload, OPTIONS));
  }

  lemma RequestAnswer(cfg: Config, st: State, m: Msg, records: seq<Record>)
    requires Sane(cfg, st) && Receivable(m) && Roomy(m) && TypeOf(m.payload) == DHCPREQUEST
    requires records == Records(m.payload, OPTIONS)
    ensures AnswerTo(cfg, st, m).Ack? <==>
            Resolve(cfg.netif.addr, cfg.n, st.holders, MacOf(m.payload)) == Some(Requested(records))
  {
  }

  // ---- buffers ----

  // Which buffers are held between two effects.
  datatype Held = Held(request: bool, reply: bool)

  // The books after one more effect; None when it frees, fills or sends what is
  // not held, or takes what is.
  function Book(h: Held, e: Effect): Option<Held> {
    match e
    case Arrive => if !h.request && !h.reply then Some(Held(true, false)) else None
    case AllocReply => if h.request && !h.reply then Some(Held(true, true)) else None
    case ArpAdd(_, _) => Some(h)
    case Send(_, _) => if h.request && h.reply then Some(h) else None
    case FreeReply => if h.request && h.reply then Some(Held(true, false)) else None
    case FreeRequest => if h.request && !h.reply then Some(Held(false, false)) else None
  }

  function Books(h: Held, trace: seq<Effect>): Option<Held> {
    if trace == [] then Some(h)
    else
      match Books(h, trace[..|trace| - 1])
      case None => None
      case Some(now) => Book(now, trace[|trace| - 1])
  }

  lemma {:induction false} BooksConcat(h: Held, a: seq<Effect>, b: seq<Effect>)
    requires Books(h, a).Some?
    ensures Books(h, a + b) == Books(Books(h, a).value, b)
  {
    if b == [] {
      assert a + b == a;
    } else {
      BooksConcat(h, a, b[..|b| - 1]);
      assert (a + b)[..|a + b| - 1] == a + b[..|b| - 1];
    }
  }

  lemma BooksOne(h: Held, e: Effect)
    ensures Books(h, [e]) == Book(h, e)
  {
    assert [e][..0] == [];
  }

  lemma BooksTwo(h: Held, e: Effect, f: Effect)
    requires Book(h, e).Some?
    ensures Books(h, [e, f]) == Book(Book(h, e).value, f)
  {
    BooksOne(h, e);
    BooksOne(Book(h, e).value, f);
    BooksConcat(h, [e], [f]);
    assert [e] + [f] == [e, f];
  }

  lemma SaidKeepsBooks(cfg: Config, m: Msg, answer: Answer)
    requires Receivable(m) && (!answer.Silent? ==> Roomy(m))
    ensures Books(Held(true, true), Said(cfg, m, answer)) == Some(Held(true, true))
  {
    var said := Said(cfg, m, answer);
    if |said| == 1 {
      BooksOne(Held(true, true), said[0]);
    } else if |said| == 2 {
      BooksTwo(Held(true, true), said[0], said[1]);
    }
  }

  // One message: whatever happens to it, both buffers are given back.
  lemma StepKeepsBooks(cfg: Config, st: State, m: Msg)
    requires Sane(cfg, st) && Receivable(m)
    ensures Books(Held(false, false), Step(cfg, st, m).1) == Some(Held(false, false))
  {
    if Asks(m) && Handled(cfg, st, m) != [] {
      var said := Said(cfg, m, AnswerTo(cfg, st, m));
      SaidKeepsBooks(cfg, m, AnswerTo(cfg, st, m));
      AroundKeepsBooks(said);
      Wrapped(said);
    } else {
      BooksTwo(Held(false, false), Arrive, FreeRequest);
      assert Step(cfg, st, m).1 == [Arrive, FreeRequest];
    }
  }

  lemma AroundKeepsBooks(said: seq<Effect>)
    requires Books(Held(true, true), said) == Some(Held(true, true))
    ensures Books(Held(false, false), [Arrive, AllocReply] + said + [FreeReply, FreeRequest]) == Some(Held(false, false))
  {
    var none, both := Held(false, false), Held(true, true);
    BooksTwo(none, Arrive, AllocReply);
    BooksConcat(none, [Arrive, AllocReply], said);
    BooksTwo(both, FreeReply, FreeRequest);
    BooksConcat(none, [Arrive, AllocReply] + said, [FreeReply, FreeRequest]);
  }

  // Over any run every buffer that came in or was allocated is freed, once,
  // and nothing is sent from a buffer that is not held.
  lemma {:induction false} BuffersAreConserved(cfg: Config, msgs: seq<Msg>)
    requires AllReceivable(msgs)
    ensures Books(Held(false, false), Run(cfg, msgs).1) == Some(Held(false, false))
  {
    if msgs != [] {
      var rest, m := msgs[..|msgs| - 1], msgs[|msgs| - 1];
      BuffersAreConserved(cfg, rest);
      assert msgs == rest + [m];
      RunNext(cfg, rest, m);
      StepKeepsBooks(cfg, Run(cfg, rest).0, m);
      BooksConcat(Held(false, false), Run(cfg, rest).1, Step(cfg, Run(cfg, rest).0, m).1);
    }
  }
}
