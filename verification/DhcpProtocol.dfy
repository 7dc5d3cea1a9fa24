// apps/dhcps/dhcps.c, what the server does with one message and with a whole
// run of them, as values.
module DhcpProtocol {
  import opened Bytes
  import opened DhcpOptions
  import opened DhcpMessage
  import opened DhcpLeases

  // `n` is MAX_LEASES; addresses are taken from the interface's own.
  datatype Config = Config(netif: Interface, n: nat)

  datatype State = State(holders: seq<Mac>, arp: map<Ip, Mac>)

  // A received message, and what pbuf_alloc gives for the reply to it: nothing,
  // or a buffer of some size with some contents.
  datatype Msg = Msg(payload: seq<byte>, room: Option<seq<byte>>)

  datatype Dest = Broadcast | Unicast(ip: Ip)

  datatype Effect =
    | Arrive
    | AllocReply
    | ArpAdd(ip: Ip, mac: Mac)
    | Send(dest: Dest, bytes: seq<byte>)
    | FreeReply
    | FreeRequest

  // What the server may be given: a message long enough to hold its type, with
  // an option area that ends if the type is DHCPREQUEST.
  predicate Receivable(m: Msg) {
    HasType(m.payload) && (TypeOf(m.payload) == DHCPREQUEST ==> Walkable(m.payload, OPTIONS))
  }

  predicate Asks(m: Msg)
    requires Receivable(m)
  {
    TypeOf(m.payload) == DHCPDISCOVER || TypeOf(m.payload) == DHCPREQUEST
  }

  predicate Roomy(m: Msg) { m.room.Some? && |m.room.value| >= MSG_LEN }

  predicate Sane(cfg: Config, st: State) { |st.holders| <= cfg.n && Proper(st.holders) }

  datatype Answer = Silent | Offer(ip: Ip) | Ack(ip: Ip) | Nak

  // What the server says to a message.
  function AnswerTo(cfg: Config, st: State, m: Msg): Answer
    requires Sane(cfg, st) && Receivable(m)
  {
    if !Asks(m) || !Roomy(m) then Silent
    else
      match Resolve(cfg.netif.addr, cfg.n, st.holders, MacOf(m.payload))
      case None => Silent
      case Some(ip) =>
        if TypeOf(m.payload) == DHCPDISCOVER then Offer(ip)
        else if Requested(Records(m.payload, OPTIONS)) == ip then Ack(ip)
        else Nak
  }

  // How it says so.
  function Said(cfg: Config, m: Msg, answer: Answer): seq<Effect>
    requires Receivable(m) && (!answer.Silent? ==> Roomy(m))
  {
    match answer
    case Silent => []
    case Offer(ip) => [Send(Broadcast, OfferReply(m.payload, m.room.value, ip, cfg.netif))]
    case Ack(ip) => [ArpAdd(ip, MacOf(m.payload)), Send(Unicast(ip), AckReply(m.payload, m.room.value, ip, cfg.netif))]
    case Nak => [Send(Broadcast, NakReply(m.payload, m.room.value, cfg.netif))]
  }

  // What is done between a message's arrival and the release of its buffer.
  // The lease is taken first; a reply buffer that is too small is given back.
  function Handled(cfg: Config, st: State, m: Msg): seq<Effect>
    requires Sane(cfg, st) && Receivable(m) && Asks(m)
  {
    if Resolve(cfg.netif.addr, cfg.n, st.holders, MacOf(m.payload)).None? || m.room.None? then []
    else [AllocReply] + Said(cfg, m, AnswerTo(cfg, st, m)) + [FreeReply]
  }

  function ArpAfter(cfg: Config, st: State, m: Msg): map<Ip, Mac>
    requires Sane(cfg, st) && Receivable(m)
  {
    match AnswerTo(cfg, st, m)
    case Ack(ip) => st.arp[ip := MacOf(m.payload)]
    case _ => st.arp
  }

  function Step(cfg: Config, st: State, m: Msg): (r: (State, seq<Effect>))
    requires Sane(cfg, st) && Receivable(m)
    ensures Sane(cfg, r.0) && st.holders <= r.0.holders
  {
    if !Asks(m) then (st, [Arrive, FreeRequest])
    else (State(Admit(cfg.n, st.holders, MacOf(m.payload)), ArpAfter(cfg, st, m)),
          [Arrive] + Handled(cfg, st, m) + [FreeRequest])
  }

  predicate AllReceivable(msgs: seq<Msg>) {
    forall i :: 0 <= i < |msgs| ==> Receivable(msgs[i])
  }

  const START := State([], map[])

  // Everything since the server was started.
  function Run(cfg: Config, msgs: seq<Msg>): (r: (State, seq<Effect>))
    requires AllReceivable(msgs)
    ensures Sane(cfg, r.0)
  {
    if msgs == [] then (START, [])
    else
      var (st, effects) := Run(cfg, msgs[..|msgs| - 1]);
      var (now, more) := Step(cfg, st, msgs[|msgs| - 1]);
      (now, effects + more)
  }

  // The same, effect by effect.
  lemma RunTrace(cfg: Config, msgs: seq<Msg>, m: Msg, trace: seq<Effect>)
    requires AllReceivable(msgs) && Receivable(m)
    requires var (st, before) := Run(cfg, msgs);
             trace == before + [Arrive] + (if Asks(m) then Handled(cfg, st, m) else []) + [FreeRequest]
    ensures AllReceivable(msgs + [m])
    ensures Run(cfg, msgs + [m]) == (Step(cfg, Run(cfg, msgs).0, m).0, trace)
  {
    RunNext(cfg, msgs, m);
    var (st, before) := Run(cfg, msgs);
    if Asks(m) {
      Associate(before, [Arrive], Handled(cfg, st, m));
      Associate(before, [Arrive] + Handled(cfg, st, m), [FreeRequest]);
    } else {
      assert trace == before + [Arrive, FreeRequest];
    }
  }

  lemma RunNext(cfg: Config, msgs: seq<Msg>, m: Msg)
    requires AllReceivable(msgs) && Receivable(m)
    ensures AllReceivable(msgs + [m])
    ensures var (st, effects) := Run(cfg, msgs);
            Run(cfg, msgs + [m]) == (Step(cfg, st, m).0, effects + Step(cfg, st, m).1)
  {
    assert (msgs + [m])[..|msgs|] == msgs;
  }

  // ---- who holds a lease, told from the messages alone ----

  // The non-zero clients (chaddr) that sent a DISCOVER (1) or a REQUEST (3), in
  // the order they did.
  function Claims(msgs: seq<Msg>): seq<Mac>
    requires AllReceivable(msgs)
  {
    if msgs == [] then []
    else
      var before, payload := Claims(msgs[..|msgs| - 1]), msgs[|msgs| - 1].payload;
      var t, mac := payload[242], payload[28..34];
      if (t == 1 || t == 3) && mac != [0, 0, 0, 0, 0, 0] then before + [mac] else before
  }

  // The first n different ones of them.
  function Holders(n: nat, msgs: seq<Msg>): (holders: seq<Mac>)
    requires AllReceivable(msgs)
    ensures |holders| <= n
  {
    Take(n, Distinct(Claims(msgs)))
  }

  lemma {:induction false} ClaimsAreNonZero(msgs: seq<Msg>)
    requires AllReceivable(msgs)
    ensures FREE_MAC !in Claims(msgs)
  {
    if msgs != [] {
      ClaimsAreNonZero(msgs[..|msgs| - 1]);
    }
  }

  lemma {:induction false} DistinctIsDistinct(macs: seq<Mac>)
    ensures forall i, j :: 0 <= i < j < |Distinct(macs)| ==> Distinct(macs)[i] != Distinct(macs)[j]
  {
    if macs != [] {
      DistinctIsDistinct(macs[..|macs| - 1]);
    }
  }

  lemma HoldersAreProper(n: nat, msgs: seq<Msg>)
    requires AllReceivable(msgs)
    ensures Proper(Holders(n, msgs))
  {
    ClaimsAreNonZero(msgs);
    DistinctIsFirstAppearance(Claims(msgs));
    DistinctIsDistinct(Claims(msgs));
  }

  lemma HoldersNext(n: nat, msgs: seq<Msg>, m: Msg)
    requires AllReceivable(msgs + [m]) && AllReceivable(msgs) && Receivable(m)
    ensures Proper(Holders(n, msgs))
    ensures Holders(n, msgs + [m]) ==
            if Asks(m) then Admit(n, Holders(n, msgs), MacOf(m.payload)) else Holders(n, msgs)
  {
    HoldersAreProper(n, msgs);
    assert (msgs + [m])[..|msgs|] == msgs;
    if Asks(m) && MacOf(m.payload) != FREE_MAC {
      AdmitNext(n, Claims(msgs), MacOf(m.payload));
    }
  }

  // Whatever was refused, NAKed or lost for want of a buffer: the leases are
  // those of the first n different non-zero clients that asked.
  lemma {:induction false} RunHolders(cfg: Config, msgs: seq<Msg>)
    requires AllReceivable(msgs)
    ensures Run(cfg, msgs).0.holders == Holders(cfg.n, msgs)
  {
    if msgs != [] {
      var rest, m := msgs[..|msgs| - 1], msgs[|msgs| - 1];
      RunHolders(cfg, rest);
      assert msgs == rest + [m];
      HoldersNext(cfg.n, rest, m);
    }
  }
}
