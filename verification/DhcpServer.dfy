// apps/dhcps/dhcps.c, the server with its static lease array and buffers
// patched in place.
module DhcpServer {
  import opened Bytes
  import opened DhcpOptions
  import opened DhcpMessage
  import opened DhcpLeases
  import opened DhcpProtocol

  // memcpy, memset and the header fields of newResp.
  method FillReply(p: array<byte>, rp: array<byte>)
    requires p != rp && rp.Length >= MSG_LEN
    modifies rp
    ensures rp[..] == ReplyBase(p[..], old(rp[..]))
  {
    var len := p.Length;
    if rp.Length < len {
      len := rp.Length;
    }
    Memcpy(rp, 0, p[..len]);
    Memcpy(rp, OPTIONS, Cleared());
    rp[0] := 2;
    Memcpy(rp, COOKIE, MAGIC);
  }

  lemma PatchTwice(was: seq<byte>, at: nat, a: seq<byte>, b: seq<byte>)
    requires at + |a| + |b| <= |was|
    ensures Patched(Patched(was, at, a), at + |a|, b) == Patched(was, at, a + b)
  {
  }

  lemma {:induction false} EmittedNext(calls: seq<Call>, c: Call)
    requires AllValid(calls) && c.Valid()
    ensures Emitted(calls + [c]) == Emitted(calls) + c.Bytes()
  {
    if calls == [] {
      assert calls + [c] == [c];
      assert Emitted([c]) == c.Bytes() + Emitted([]);
    } else {
      EmittedNext(calls[1..], c);
      assert (calls + [c])[1..] == calls[1..] + [c];
      Associate(calls[0].Bytes(), Emitted(calls[1..]), c.Bytes());
    }
  }

  // One more writer call on top of those already made on the option area of
  // `was`.
  method Put(rp: array<byte>, optionPtr: nat, call: Call, ghost was: seq<byte>, ghost done: seq<Call>)
    returns (next: nat, ghost now: seq<Call>)
    requires AllValid(done) && call.Valid()
    requires rp.Length == |was| >= MSG_LEN && |done| < 8 && |Emitted(done)| <= 6 * |done|
    requires optionPtr == OPTIONS + |Emitted(done)| && rp[..] == Patched(was, OPTIONS, Emitted(done))
    modifies rp
    ensures now == done + [call] && AllValid(now) && |Emitted(now)| <= 6 * |now|
    ensures next == OPTIONS + |Emitted(now)| && rp[..] == Patched(was, OPTIONS, Emitted(now))
  {
    now := done + [call];
    EmittedNext(done, call);
    PatchTwice(was, OPTIONS, Emitted(done), call.Bytes());
    match call
    case AddByte(code, val) => next := AddOptionByte(rp, optionPtr, code, val);
    case AddIP(code, ip) => next := AddOptionIP(rp, optionPtr, code, ip);
    case AddTime(code, t) => next := AddOptionTime(rp, optionPtr, code, t);
  }

  // END behind the last of them.
  method PutEnd(rp: array<byte>, optionPtr: nat, ghost was: seq<byte>, ghost done: seq<Call>)
    requires Fits(done) && rp.Length == |was| >= MSG_LEN
    requires optionPtr == OPTIONS + |Emitted(done)| && rp[..] == Patched(was, OPTIONS, Emitted(done))
    modifies rp
    ensures rp[..] == WithOptions(was, done)
  {
    rp[optionPtr] := OPT_END;
    PatchTwice(was, OPTIONS, Emitted(done), [OPT_END]);
  }

  method WriteOffer(rp: array<byte>, netif: Interface)
    requires rp.Length >= MSG_LEN
    modifies rp
    ensures Fits(OfferCalls(netif)) && rp[..] == WithOptions(old(rp[..]), OfferCalls(netif))
  {
    ghost var was := rp[..];
    OfferFits(netif);
    assert was[..OPTIONS] + Emitted([]) + was[OPTIONS..] == was;
    var optionPtr, done := Put(rp, OPTIONS, AddByte(OPT_MSGTYPE, DHCPOFFER), was, []);
    optionPtr, done := Put(rp, optionPtr, AddIP(OPT_NETMASK, netif.netmask), was, done);
    optionPtr, done := Put(rp, optionPtr, AddIP(OPT_SERVERID, netif.addr), was, done);
    assert done == OfferCalls(netif);
    PutEnd(rp, optionPtr, was, done);
  }

  method WriteAck(rp: array<byte>, netif: Interface)
    requires rp.Length >= MSG_LEN
    modifies rp
    ensures Fits(AckCalls(netif)) && rp[..] == WithOptions(old(rp[..]), AckCalls(netif))
  {
    ghost var was := rp[..];
    AckFits(netif);
    assert was[..OPTIONS] + Emitted([]) + was[OPTIONS..] == was;
    var optionPtr, done := Put(rp, OPTIONS, AddByte(OPT_MSGTYPE, DHCPACK), was, []);
    optionPtr, done := PutTimes(rp, optionPtr, was, done);
    optionPtr, done := Put(rp, optionPtr, AddIP(OPT_NETMASK, netif.netmask), was, done);
    optionPtr, done := Put(rp, optionPtr, AddIP(OPT_SERVERID, netif.addr), was, done);
    assert done == AckCalls(netif);
    PutEnd(rp, optionPtr, was, done);
  }

  // Renewal after 30 minutes, rebinding after 50, a lease of an hour.
  method PutTimes(rp: array<byte>, optionPtr: nat, ghost was: seq<byte>, ghost done: seq<Call>)
    returns (next: nat, ghost now: seq<Call>)
    requires AllValid(done) && rp.Length == |was| >= MSG_LEN && |done| < 6 && |Emitted(done)| <= 6 * |done|
    requires optionPtr == OPTIONS + |Emitted(done)| && rp[..] == Patched(was, OPTIONS, Emitted(done))
    modifies rp
    ensures now == done + [AddTime(OPT_RENEW_TIME, 30 * 60), AddTime(OPT_REBIND_TIME, 50 * 60), AddTime(OPT_LEASE_TIME, 60 * 60)]
    ensures AllValid(now) && |Emitted(now)| <= 6 * |now|
    ensures next == OPTIONS + |Emitted(now)| && rp[..] == Patched(was, OPTIONS, Emitted(now))
  {
    ghost var d1, d2;
    var p1, p2;
    p1, d1 := Put(rp, optionPtr, AddTime(OPT_RENEW_TIME, 30 * 60), was, done);
    p2, d2 := Put(rp, p1, AddTime(OPT_REBIND_TIME, 50 * 60), was, d1);
    next, now := Put(rp, p2, AddTime(OPT_LEASE_TIME, 60 * 60), was, d2);
    ThreeMore(done, AddTime(OPT_RENEW_TIME, 30 * 60), AddTime(OPT_REBIND_TIME, 50 * 60), AddTime(OPT_LEASE_TIME, 60 * 60));
  }

  lemma ThreeMore<T>(a: seq<T>, x: T, y: T, z: T)
    ensures a + [x] + [y] + [z] == a + [x, y, z]
  {
  }

  method WriteNak(rp: array<byte>, netif: Interface)
    requires rp.Length >= MSG_LEN
    modifies rp
    ensures Fits(NakCalls(netif)) && rp[..] == WithOptions(old(rp[..]), NakCalls(netif))
  {
    ghost var was := rp[..];
    NakFits(netif);
    assert was[..OPTIONS] + Emitted([]) + was[OPTIONS..] == was;
    var optionPtr, done := Put(rp, OPTIONS, AddByte(OPT_MSGTYPE, DHCPNAK), was, []);
    optionPtr, done := Put(rp, optionPtr, AddIP(OPT_SERVERID, netif.addr), was, done);
    assert done == NakCalls(netif);
    PutEnd(rp, optionPtr, was, done);
  }

  class Server {
    const cfg: Config
    const leases: array<Lease>
    var arp: map<Ip, Mac>
    ghost var history: seq<Msg>   // the messages received since the start
    ghost var trace: seq<Effect>  // what was done about them

    ghost predicate Valid()
      reads this, leases
    {
      && AllReceivable(history)
      && Shows(Run(cfg, history).0)
      && trace == Run(cfg, history).1
    }

    // The table holds the leases of `st`, and the ARP table its entries.
    ghost predicate Shows(st: State)
      reads this, leases
    {
      && leases.Length == cfg.n && Sane(cfg, st)
      && leases[..] == Table(cfg.netif.addr, cfg.n, st.holders)
      && arp == st.arp
    }

    // dhcpServerStartRaw
    constructor (cfg: Config)
      ensures Valid() && this.cfg == cfg && history == [] && trace == []
      ensures fresh(leases)
    {
      this.cfg := cfg;
      leases := new Lease[cfg.n];
      arp := map[];
      history, trace := [], [];
      new;
      DhcpLeases.Start(leases, cfg.netif.addr);
    }

    // newResp: `rp` is what pbuf_alloc gave.
    method NewResp(p: array<byte>, rp: array?<byte>) returns (resp: array?<byte>)
      requires p != rp
      modifies this`trace, rp
      ensures resp != null <==> rp != null && rp.Length >= MSG_LEN
      ensures resp != null ==> resp == rp && rp[..] == ReplyBase(p[..], old(rp[..]))
      ensures trace == old(trace) + if rp == null then [] else if resp == null then [AllocReply, FreeReply] else [AllocReply]
    {
      if rp == null {
        return null;
      }
      trace := trace + [AllocReply];
      if rp.Length < MSG_LEN {
        trace := trace + [FreeReply];
        return null;
      }
      FillReply(p, rp);
      resp := rp;
    }

    // The array holds exactly the first n different non-zero clients that asked
    // since the start, in that order, each in the slot and with the address that
    // order gives it; free slots come last.
    lemma LeasesAreFirstCome()
      requires Valid()
      ensures leases[..] == Table(cfg.netif.addr, cfg.n, Holders(cfg.n, history))
    {
      RunHolders(cfg, history);
    }

    // handleDiscover
    method HandleDiscover(p: array<byte>, rp: array?<byte>, ghost st: State, ghost m: Msg)
      requires Shows(st) && p != rp
      requires m == Msg(p[..], if rp == null then None else Some(rp[..]))
      requires Receivable(m) && TypeOf(m.payload) == DHCPDISCOVER
      modifies leases, rp, this`trace
      ensures Shows(Step(cfg, st, m).0) && trace == old(trace) + Handled(cfg, st, m)
    {
      var addr := AllocateAddr(leases, p[CHADDR..CHADDR + 6], cfg.netif.addr, st.holders);
      if addr.Some? {
        var resp := NewResp(p, rp);
        if resp == null {
          return;
        }
        Memcpy(resp, YIADDR, addr.value);
        WriteOffer(resp, cfg.netif);
        trace := trace + [Send(Broadcast, resp[..])];
        trace := trace + [FreeReply];
        Grouped(old(trace), AllocReply, Said(cfg, m, AnswerTo(cfg, st, m)), FreeReply);
      }
    }

    lemma Grouped(before: seq<Effect>, a: Effect, said: seq<Effect>, z: Effect)
      ensures before + [a] + said + [z] == before + ([a] + said + [z])
    {
    }

    // The ARP entry goes in before the reply goes out.
    method SendAck(resp: array<byte>, reqAddr: Ip, ghost m: Msg)
      requires Receivable(m) && Roomy(m) && resp[..] == ReplyBase(m.payload, m.room.value)
      modifies resp, this`trace, this`arp
      ensures arp == old(arp)[reqAddr := MacOf(m.payload)]
      ensures trace == old(trace) + Said(cfg, m, Ack(reqAddr)) + [FreeReply]
    {
      Memcpy(resp, YIADDR, reqAddr);
      WriteAck(resp, cfg.netif);
      assert resp[..] == AckReply(m.payload, m.room.value, reqAddr, cfg.netif);
      RepliesName(m.payload, m.room.value, reqAddr, cfg.netif);
      SendUnicast(resp);
    }

    // etharp_add_static_entry and udp_sendto_if, both told by the reply.
    method SendUnicast(resp: array<byte>)
      requires HasType(resp[..])
      modifies this`trace, this`arp
      ensures arp == old(arp)[YiAddr(resp[..]) := MacOf(resp[..])]
      ensures trace == old(trace) + [ArpAdd(YiAddr(resp[..]), MacOf(resp[..])), Send(Unicast(YiAddr(resp[..])), resp[..])] + [FreeReply]
    {
      var dest, chaddr := resp[YIADDR..YIADDR + 4], resp[CHADDR..CHADDR + 6];
      assert dest == YiAddr(resp[..]) && chaddr == MacOf(resp[..]);
      arp := arp[dest := chaddr];
      trace := trace + [ArpAdd(dest, chaddr), Send(Unicast(dest), resp[..])];
      trace := trace + [FreeReply];
    }

    method SendNak(resp: array<byte>, ghost m: Msg)
      requires Receivable(m) && Roomy(m) && resp[..] == ReplyBase(m.payload, m.room.value)
      modifies resp, this`trace
      ensures trace == old(trace) + Said(cfg, m, Nak) + [FreeReply]
    {
      WriteNak(resp, cfg.netif);
      assert resp[..] == NakReply(m.payload, m.room.value, cfg.netif);
      trace := trace + [Send(Broadcast, resp[..])];
      trace := trace + [FreeReply];
    }

    // handleRequest
    method HandleRequest(p: array<byte>, rp: array?<byte>, ghost st: State, ghost m: Msg)
      requires Shows(st) && p != rp
      requires m == Msg(p[..], if rp == null then None else Some(rp[..]))
      requires Receivable(m) && TypeOf(m.payload) == DHCPREQUEST
      modifies leases, rp, this`trace, this`arp
      ensures Shows(Step(cfg, st, m).0) && trace == old(trace) + Handled(cfg, st, m)
    {
      var newAddr := AllocateAddr(leases, p[CHADDR..CHADDR + 6], cfg.netif.addr, st.holders);
      if newAddr.Some? {
        var resp := NewResp(p, rp);
        if resp == null {
          return;
        }
        var reqAddr := FindRequested(p, OPTIONS);
        if reqAddr == newAddr.value {
          SendAck(resp, reqAddr, m);
        } else {
          SendNak(resp, m);
        }
        Grouped(old(trace), AllocReply, Said(cfg, m, AnswerTo(cfg, st, m)), FreeReply);
      }
    }

    // dhcpRecv: the server refines the run of all messages since its start.
    method Recv(p: array<byte>, rp: array?<byte>)
      requires Valid() && p != rp
      requires Receivable(Msg(p[..], if rp == null then None else Some(rp[..])))
      modifies this, leases, rp
      ensures Valid()
      ensures history == old(history) + [old(Msg(p[..], if rp == null then None else Some(rp[..])))]
    {
      ghost var m := Msg(p[..], if rp == null then None else Some(rp[..]));
      ghost var st := Run(cfg, history).0;
      trace := trace + [Arrive];
      Switch(p, rp, st, m);
      trace := trace + [FreeRequest];
      RunTrace(cfg, history, m, trace);
      history := history + [m];
    }

    // The switch on options[2].
    method Switch(p: array<byte>, rp: array?<byte>, ghost st: State, ghost m: Msg)
      requires Shows(st) && p != rp && Receivable(m)
      requires m == Msg(p[..], if rp == null then None else Some(rp[..]))
      modifies leases, rp, this`trace, this`arp
      ensures Shows(Step(cfg, st, m).0)
      ensures trace == old(trace) + if Asks(m) then Handled(cfg, st, m) else []
    {
      if p[OPTIONS + 2] == DHCPDISCOVER {
        HandleDiscover(p, rp, st, m);
      } else if p[OPTIONS + 2] == DHCPREQUEST {
        HandleRequest(p, rp, st, m);
      }
    }
  }
}
