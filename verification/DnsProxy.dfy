/** Forwarding DNS requests and relaying the replies (dns_proxy.c:20-266). */
module DnsProxy {
  import opened Bytes
  import opened DnsHeader
  import DnsMessage

  const TRIES := 1000
  const EXPIRE_REQ := 10.0
  const EXPIRE_POLL := 1.0

  type Message = seq<byte>

  datatype Addr = Addr(ip: nat, port: nat)

  /** dns_proxy_req_t without the host name kept for debugging. */
  datatype Req = Req(id: int, origId: int, origAddr: Addr, origSock: int, expire: real)

  type Table = map<int, Req>

  datatype Datagram = Datagram(sock: int, addr: Addr, data: Message)

  // ---------------------------------------------------------------------------------------------
  // What each handler does to the table of pending requests
  // ---------------------------------------------------------------------------------------------

  /** The first draw, from i on, that is not the id of a pending request; TRIES when all are. */
  function FreeDraw(reqs: Table, draws: seq<int>, i: nat): (k: nat)
    requires i <= |draws|
    ensures i <= k <= |draws|
    ensures k < |draws| ==> draws[k] !in reqs
    decreases |draws| - i
  {
    if i == |draws| || draws[i] !in reqs then i else FreeDraw(reqs, draws, i + 1)
  }

  lemma {:induction false} FreeDrawFirst(reqs: Table, draws: seq<int>, i: nat, j: nat)
    requires i <= j < |draws| && j < FreeDraw(reqs, draws, i)
    ensures draws[j] in reqs
    decreases |draws| - i
  {
    if i < j { FreeDrawFirst(reqs, draws, i + 1, j); }
  }

  /** Sixteen-bit ids, one thousand of them. */
  predicate DrawsOk(draws: seq<int>) {
    |draws| == 1000 && forall i :: 0 <= i < 1000 ==> 0 <= draws[i] < 0x10000
  }

  /** A request that is long enough and finds a free id gets one; otherwise none. */
  function IdFor(reqs: Table, msg: Message, draws: seq<int>): Option<int> {
    if |msg| < DNS_HDR_LEN then None
    else
      var k := FreeDraw(reqs, draws, 0);
      if k < |draws| then Some(draws[k]) else None
  }

  /** The table after dns_proxy_forward. When every draw is taken, the request that holds the last one is dropped. */
  function AfterForward(reqs: Table, msg: Message, sock: int, addr: Addr, now: real, draws: seq<int>): Table
    requires |draws| == TRIES
  {
    if |msg| < DNS_HDR_LEN then reqs
    else
      match IdFor(reqs, msg, draws)
      case Some(id) => reqs[id := Req(id, MsgId(msg), addr, sock, now + EXPIRE_REQ)]
      case None => reqs - {draws[TRIES - 1]}
  }

  /** The reply dns_proxy_select_recv passes on, if any. */
  function Relayed(reqs: Table, msg: Message): Option<Datagram> {
    if |msg| < DNS_HDR_LEN || MsgId(msg) !in reqs then None
    else
      var req := reqs[MsgId(msg)];
      Some(Datagram(req.origSock, req.origAddr, WithId(msg, req.origId)))
  }

  function AfterReply(reqs: Table, msg: Message): Table {
    if |msg| < DNS_HDR_LEN then reqs else reqs - {MsgId(msg)}
  }

  /** The table without the requests whose time is over. */
  function Unexpired(reqs: Table, now: real): Table {
    map k | k in reqs && !(now > reqs[k].expire) :: reqs[k]
  }

  class Proxy {
    const sock: int
    const forwardAddrs: seq<Addr>
    var reqs: Table
    var expire: real
    var mstime: real

    constructor (sock: int, addrs: seq<Addr>)
      ensures reqs == map[] && expire == mstime == 0.0 && this.sock == sock && forwardAddrs == addrs
    {
      this.sock, forwardAddrs := sock, addrs;
      reqs, expire, mstime := map[], 0.0, 0.0;
    }

    /** The loop that looks for a new id; node tells whether the last draw is taken. */
    method NewId(draws: seq<int>) returns (i: nat, id: int, node: bool)
      requires DrawsOk(draws)
      ensures i == FreeDraw(reqs, draws, 0)
      ensures i < TRIES ==> id == draws[i] && !node
      ensures i == TRIES ==> id == draws[TRIES - 1] && node
    {
      i, id, node := 0, 0, false;
      while i < TRIES
        invariant 0 <= i <= TRIES && FreeDraw(reqs, draws, i) == FreeDraw(reqs, draws, 0)
        invariant i > 0 ==> id == draws[i - 1] && node
      {
        id := draws[i];
        node := id in reqs;
        if !node { return; }
        i := i + 1;
      }
    }

    /** The message went to the servers from the last to the first, up to the first that did not take all of it. */
    ghost predicate InTurn(sent: seq<Datagram>, data: Message, taken: seq<nat>)
      requires |taken| == |forwardAddrs|
    {
      && |sent| <= |forwardAddrs|
      && (forall j :: 0 <= j < |sent| ==> sent[j] == Datagram(sock, forwardAddrs[|forwardAddrs| - 1 - j], data))
      && (forall a :: |forwardAddrs| - |sent| < a < |taken| ==> taken[a] == |data|)
      && (|sent| < |forwardAddrs| ==> sent != [] && taken[|forwardAddrs| - |sent|] != |data|)
    }

    /** sendto every server, the last one first, until one of them takes less than the whole message. */
    method SendAll(data: Message, taken: seq<nat>) returns (sent: seq<Datagram>)
      requires |taken| == |forwardAddrs|
      ensures InTurn(sent, data, taken)
    {
      sent := [];
      var i := |forwardAddrs| - 1;
      while i >= 0
        invariant -1 <= i < |forwardAddrs| && |sent| == |forwardAddrs| - 1 - i
        invariant forall j :: 0 <= j < |sent| ==> sent[j] == Datagram(sock, forwardAddrs[|forwardAddrs| - 1 - j], data)
        invariant forall a :: i < a < |taken| ==> taken[a] == |data|
      {
        sent := sent + [Datagram(sock, forwardAddrs[i], data)];
        if taken[i] != |data| { return; }
        i := i - 1;
      }
    }

    /** dns_proxy_forward on a message that fills buf; the thousand possible random numbers are given. */
    method Forward(buf: array<byte>, origSock: int, origAddr: Addr, now: real, draws: seq<int>, taken: seq<nat>)
      returns (err: int, sent: seq<Datagram>)
      requires DrawsOk(draws) && |taken| == |forwardAddrs|
      modifies `reqs, buf
      ensures reqs == AfterForward(old(reqs), old(buf[..]), origSock, origAddr, now, draws)
      ensures var id := IdFor(old(reqs), old(buf[..]), draws);
        && err == (if id.Some? then 0 else -1)
        && buf[..] == (if id.Some? then WithId(old(buf[..]), id.value) else old(buf[..]))
        && (id == None ==> sent == [])
        && (id.Some? ==> InTurn(sent, WithId(old(buf[..]), id.value), taken))
    {
      hide Decode, Encode, FreeDraw, DrawsOk, WithId, InTurn;
      err, sent := -1, [];
      if buf.Length < DNS_HDR_LEN { return; }
      ghost var msg := buf[..];
      var dns := new DnsMessage.Dns(buf);
      var _ := dns.UnpackHeader();
      var req := Req(0, dns.id, origAddr, origSock, now + EXPIRE_REQ);
      DrawsLength(draws);
      var i, id, node := NewId(draws);
      if i >= TRIES {
        if node { reqs := reqs - {id}; }
        return;
      }
      req := req.(id := id);
      dns.id := id;
      reqs := reqs[id := req];
      var _ := dns.PackHeader();
      RewriteId(msg, id);
      sent := SendAll(buf[..], taken);
      err := 0;
    }

    /** dns_proxy_select_recv on a datagram that fills buf. */
    method SelectRecv(buf: array<byte>) returns (sent: Option<Datagram>)
      modifies `reqs, buf
      ensures sent == Relayed(old(reqs), old(buf[..]))
      ensures reqs == AfterReply(old(reqs), old(buf[..]))
    {
      hide Decode, Encode, WithId;
      sent := None;
      if buf.Length < DNS_HDR_LEN { return; }
      ghost var msg := buf[..];
      var dns := new DnsMessage.Dns(buf);
      var _ := dns.UnpackHeader();
      var id := dns.id;
      if id !in reqs {
        assert reqs - {id} == reqs;
        return;
      }
      var req := reqs[id];
      dns.id := req.origId;
      var _ := dns.PackHeader();
      RewriteId(msg, req.origId);
      sent := Some(Datagram(req.origSock, req.origAddr, buf[..]));
      reqs := reqs - {id};
    }

    /** dns_proxy_foreach_expire. */
    method ForeachExpire(k: int)
      requires k in reqs
      modifies `reqs
      ensures reqs == if mstime > old(reqs)[k].expire then old(reqs) - {k} else old(reqs)
    {
      if mstime > reqs[k].expire { reqs := reqs - {k}; }
    }

    /** dns_proxy_poll: at most once a second, every request is visited and the old ones are dropped. */
    method Poll(now: real, order: seq<int>)
      requires Visits(order, reqs)
      modifies `reqs, `expire, `mstime
      ensures mstime == now
      ensures now < old(expire) ==> reqs == old(reqs) && expire == old(expire)
      ensures now >= old(expire) ==> reqs == Unexpired(old(reqs), now) && expire == now + EXPIRE_POLL
    {
      mstime := now;
      if mstime < expire { return; }
      expire := mstime + EXPIRE_POLL;
      ghost var before := reqs;
      for i := 0 to |order|
        invariant mstime == now && expire == now + EXPIRE_POLL && reqs.Keys <= before.Keys
        invariant forall k :: k in reqs ==> reqs[k] == before[k]
        invariant forall j :: i <= j < |order| ==> order[j] in reqs
        invariant forall j :: 0 <= j < i ==> (order[j] in reqs <==> !(now > before[order[j]].expire))
      {
        ForeachExpire(order[i]);
      }
      assert forall k :: k in before ==> exists j :: 0 <= j < |order| && order[j] == k;
    }
  }

  /** The order in which hash_foreach comes by: every key of the table once. */
  predicate Visits(order: seq<int>, reqs: Table) {
    && (forall i :: 0 <= i < |order| ==> order[i] in reqs)
    && (forall i, j :: 0 <= i < j < |order| ==> order[i] != order[j])
    && (forall k :: k in reqs ==> k in order)
  }

  lemma DrawsLength(draws: seq<int>)
    requires DrawsOk(draws)
    ensures |draws| == TRIES
  {}
}
