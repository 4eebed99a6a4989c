/** Whole runs of the DNS proxy: which request every relayed reply answers (dns_proxy.c:96-266). */
module DnsProxyRuns {
  import opened Bytes
  import opened DnsHeader
  import opened DnsProxy

  datatype Event =
    | Request(msg: Message, sock: int, addr: Addr, now: real, draws: seq<int>)
    | Reply(msg: Message)
    | Tick(now: real)

  /** One relayed datagram: which request of the run it answers and which reply it carries. */
  datatype Relay = Relay(request: nat, reply: nat, out: Datagram)

  /** The proxy with a record of who owns each pending id and what was relayed. */
  datatype State = State(reqs: Table, expire: real, owner: map<int, nat>, log: seq<Relay>)

  predicate EventsOk(es: seq<Event>) {
    forall i :: 0 <= i < |es| && es[i].Request? ==> DrawsOk(es[i].draws)
  }

  /** Ids that stay pending keep their owner, a new one belongs to event n. */
  function Owners(s: State, after: Table, n: nat): map<int, nat> {
    map k | k in after :: if k in s.reqs && k in s.owner then s.owner[k] else n
  }

  function Step(s: State, e: Event, n: nat): State
    requires e.Request? ==> |e.draws| == TRIES
  {
    match e
    case Request(msg, sock, addr, now, draws) =>
      var after := AfterForward(s.reqs, msg, sock, addr, now, draws);
      s.(reqs := after, owner := Owners(s, after, n))
    case Reply(msg) =>
      var after := AfterReply(s.reqs, msg);
      var out := Relayed(s.reqs, msg);
      s.(reqs := after, owner := Owners(s, after, n),
         log := if out.Some? && MsgId(msg) in s.owner then s.log + [Relay(s.owner[MsgId(msg)], n, out.value)]
           else s.log)
    case Tick(now) =>
      var after := Unexpired(s.reqs, now);
      if now < s.expire then s else s.(reqs := after, expire := now + EXPIRE_POLL, owner := Owners(s, after, n))
  }

  function Run(es: seq<Event>): State
    requires EventsOk(es)
  {
    if es == [] then State(map[], 0.0, map[], [])
    else
      var n := |es| - 1;
      assert es[n] == es[|es| - 1];
      Step(Run(es[..n]), es[n], n)
  }

  /** Event i of the run is a request that was forwarded under this id. */
  ghost predicate ForwardedAs(es: seq<Event>, i: nat, id: int)
    requires EventsOk(es)
  {
    i < |es| && es[i].Request? && IdFor(Run(es[..i]).reqs, es[i].msg, es[i].draws) == Some(id)
  }

  /** The pending entry of id is the one request i of the run left. */
  ghost predicate Pending(es: seq<Event>, s: State, id: int)
    requires EventsOk(es)
  {
    && id in s.reqs && id in s.owner && ForwardedAs(es, s.owner[id], id)
    && |es[s.owner[id]].msg| >= DNS_HDR_LEN
    && var e := es[s.owner[id]];
       s.reqs[id] == Req(id, MsgId(e.msg), e.addr, e.sock, e.now + EXPIRE_REQ)
  }

  /**
   * A relay goes to the socket and address its request came from, and is the reply that arrived under the
   * id the request was forwarded with, its first two octets replaced by those of the request.
   */
  ghost predicate Faithful(es: seq<Event>, r: Relay)
    requires EventsOk(es)
  {
    && r.request < r.reply < |es| && es[r.request].Request? && es[r.reply].Reply?
    && |es[r.request].msg| >= DNS_HDR_LEN && |es[r.reply].msg| >= DNS_HDR_LEN
    && ForwardedAs(es, r.request, MsgId(es[r.reply].msg))
    && r.out == Datagram(es[r.request].sock, es[r.request].addr, es[r.request].msg[..2] + es[r.reply].msg[2..])
  }

  /** Every pending id is a distinct request still without a reply. */
  ghost predicate TableOk(es: seq<Event>, s: State)
    requires EventsOk(es)
  {
    && s.owner.Keys == s.reqs.Keys
    && (forall k :: k in s.reqs ==> Pending(es, s, k))
    && (forall j, k :: j in s.owner && k in s.owner && j != k ==> s.owner[j] != s.owner[k])
  }

  ghost predicate LogOk(es: seq<Event>, s: State)
    requires EventsOk(es)
  {
    && (forall i :: 0 <= i < |s.log| ==> Faithful(es, s.log[i]))
    && (forall i, k :: 0 <= i < |s.log| && k in s.owner ==> s.log[i].request != s.owner[k])
    && (forall i, j :: 0 <= i < j < |s.log| ==> s.log[i].request != s.log[j].request && s.log[i].reply < s.log[j].reply)
  }

  lemma OkPrefix(es: seq<Event>, n: nat)
    requires EventsOk(es) && n <= |es|
    ensures EventsOk(es[..n])
  {}

  lemma PrefixOfPrefix(es: seq<Event>, n: nat, i: nat)
    requires i <= n <= |es|
    ensures es[..n][..i] == es[..i]
  {}

  lemma ForwardedLater(es: seq<Event>, n: nat, i: nat, id: int)
    requires EventsOk(es) && n <= |es| && EventsOk(es[..n]) && ForwardedAs(es[..n], i, id)
    ensures ForwardedAs(es, i, id) && es[i] == es[..n][i]
  {
    PrefixOfPrefix(es, n, i);
  }

  lemma PendingLater(es: seq<Event>, n: nat, s: State, id: int)
    requires EventsOk(es) && n <= |es| && EventsOk(es[..n]) && Pending(es[..n], s, id)
    ensures Pending(es, s, id) && s.owner[id] < n
  {
    ForwardedLater(es, n, s.owner[id], id);
  }

  lemma FaithfulLater(es: seq<Event>, n: nat, r: Relay)
    requires EventsOk(es) && n <= |es| && EventsOk(es[..n]) && Faithful(es[..n], r)
    ensures Faithful(es, r) && r.reply < n
  {
    ForwardedLater(es, n, r.request, MsgId(es[r.reply].msg));
  }

  /** Everything known after n events, stated about a run that goes on. */
  ghost predicate Sound(es: seq<Event>, s: State, n: nat)
    requires EventsOk(es)
  {
    && TableOk(es, s) && LogOk(es, s)
    && (forall k :: k in s.owner ==> s.owner[k] < n)
    && (forall i :: 0 <= i < |s.log| ==> s.log[i].reply < n)
  }

  lemma SoundLater(es: seq<Event>, n: nat, s: State)
    requires EventsOk(es) && n <= |es| && EventsOk(es[..n]) && Sound(es[..n], s, n)
    ensures Sound(es, s, n)
  {
    hide Pending, Faithful;
    forall k | k in s.reqs ensures Pending(es, s, k) { PendingLater(es, n, s, k); }
    forall i | 0 <= i < |s.log| ensures Faithful(es, s.log[i]) { FaithfulLater(es, n, s.log[i]); }
  }

  ghost predicate Shrunk(before: Table, after: Table) {
    forall k :: k in after ==> k in before && after[k] == before[k]
  }

  lemma OwnersKept(s: State, after: Table, n: nat, k: int)
    requires k in after
    ensures k in Owners(s, after, n)
    ensures Owners(s, after, n)[k] == if k in s.reqs && k in s.owner then s.owner[k] else n
  {}

  lemma PendingSame(es: seq<Event>, s: State, t: State, k: int)
    requires EventsOk(es) && Pending(es, s, k)
    requires k in t.reqs && t.reqs[k] == s.reqs[k] && k in t.owner && t.owner[k] == s.owner[k]
    ensures Pending(es, t, k)
  {}

  /** Requests that leave the table take nothing with them. */
  lemma Forgetting(es: seq<Event>, s: State, n: nat, after: Table)
    requires EventsOk(es) && Sound(es, s, n) && Shrunk(s.reqs, after)
    ensures Sound(es, s.(reqs := after, owner := Owners(s, after, n)), n)
  {
    hide Pending, Faithful;
    var t := s.(reqs := after, owner := Owners(s, after, n));
    forall k | k in t.reqs ensures Pending(es, t, k) {
      OwnersKept(s, after, n, k);
      PendingSame(es, s, t, k);
    }
  }

  lemma SoundNext(es: seq<Event>, s: State, n: nat)
    requires EventsOk(es) && Sound(es, s, n)
    ensures Sound(es, s, n + 1)
  {
    hide TableOk, LogOk;
  }

  lemma NewRequest(es: seq<Event>, s: State, n: nat, id: int)
    requires EventsOk(es) && n < |es| && es[n].Request? && EventsOk(es[..n]) && s == Run(es[..n])
    requires Sound(es, s, n) && IdFor(s.reqs, es[n].msg, es[n].draws) == Some(id)
    ensures Sound(es, Step(s, es[n], n), n + 1)
  {
    hide Faithful, Run, FreeDraw, Decode;
    var t := Step(s, es[n], n);
    var after := t.reqs;
    assert id !in s.reqs;
    forall k | k in after
      ensures Pending(es, t, k) && t.owner[k] == if k == id then n else s.owner[k]
    {
      OwnersKept(s, after, n, k);
      if k != id { PendingSame(es, s, t, k); }
    }
    assert t.owner.Keys == after.Keys;
    NewOwner(es, s, t, n, id);
  }

  lemma NewOwner(es: seq<Event>, s: State, t: State, n: nat, id: int)
    requires EventsOk(es) && Sound(es, s, n) && id !in s.reqs && t.log == s.log
    requires t.reqs.Keys == s.reqs.Keys + {id} == t.owner.Keys
    requires forall k :: k in t.reqs ==> Pending(es, t, k) && t.owner[k] == if k == id then n else s.owner[k]
    ensures Sound(es, t, n + 1)
  {
    hide Pending, Faithful;
    assert forall i :: 0 <= i < |s.log| ==> s.log[i].reply < n;
    forall i | 0 <= i < |t.log| ensures t.log[i].request < n { FaithfulOrder(es, s.log[i]); }
  }

  lemma FaithfulOrder(es: seq<Event>, r: Relay)
    requires EventsOk(es) && Faithful(es, r)
    ensures r.request < r.reply
  {}

  lemma NewReply(es: seq<Event>, s: State, n: nat)
    requires EventsOk(es) && n < |es| && es[n].Reply? && Sound(es, s, n)
    requires Relayed(s.reqs, es[n].msg).Some?
    ensures Sound(es, Step(s, es[n], n), n + 1)
  {
    hide Run, Decode, Pending, Faithful;
    var msg := es[n].msg;
    var id := MsgId(msg);
    var t := Step(s, es[n], n);
    Forgetting(es, s, n, t.reqs);
    var r := Relay(s.owner[id], n, Relayed(s.reqs, msg).value);
    assert t.log == s.log + [r];
    RelayFaithful(es, s, n, r);
    forall k | k in t.owner ensures t.owner[k] != r.request { OwnersKept(s, t.reqs, n, k); }
    LogGrows(es, s.(reqs := t.reqs, owner := t.owner), t, r, n, s.owner);
  }

  lemma RelayFaithful(es: seq<Event>, s: State, n: nat, r: Relay)
    requires EventsOk(es) && n < |es| && es[n].Reply? && |es[n].msg| >= DNS_HDR_LEN && MsgId(es[n].msg) in s.reqs
    requires Pending(es, s, MsgId(es[n].msg)) && s.owner[MsgId(es[n].msg)] < n
    requires r == Relay(s.owner[MsgId(es[n].msg)], n, Relayed(s.reqs, es[n].msg).value)
    ensures Faithful(es, r)
  {
    hide Run, IdFor, U16;
    var req := es[r.request].msg;
    OctetsOfU16(req, 0);
    assert MsgId(req) == U16(req, 0);
    assert req[..2] == req[0..2];
  }

  lemma LogGrows(es: seq<Event>, s: State, t: State, r: Relay, n: nat, owner: map<int, nat>)
    requires EventsOk(es) && Sound(es, s, n) && t == s.(log := s.log + [r])
    requires Faithful(es, r) && r.reply == n
    requires forall k :: k in s.owner ==> s.owner[k] != r.request
    requires forall i :: 0 <= i < |s.log| ==> s.log[i].request != r.request
    ensures Sound(es, t, n + 1)
  {
    hide Pending, Faithful;
    forall k | k in t.reqs ensures Pending(es, t, k) { PendingSame2(es, s, t, k); }
  }

  lemma PendingSame2(es: seq<Event>, s: State, t: State, k: int)
    requires EventsOk(es) && Pending(es, s, k) && t.reqs == s.reqs && t.owner == s.owner
    ensures Pending(es, t, k)
  {}

  lemma ForwardShrinks(reqs: Table, e: Event)
    requires e.Request? && |e.draws| == TRIES && IdFor(reqs, e.msg, e.draws) == None
    ensures Shrunk(reqs, AfterForward(reqs, e.msg, e.sock, e.addr, e.now, e.draws))
  {}

  lemma StepSound(es: seq<Event>, s: State, n: nat)
    requires EventsOk(es) && n < |es| && EventsOk(es[..n]) && s == Run(es[..n]) && Sound(es, s, n)
    ensures es[n].Request? ==> |es[n].draws| == TRIES
    ensures Sound(es, Step(s, es[n], n), n + 1)
  {
    hide Run, Sound, Decode, IdFor, AfterForward;
    match es[n]
    case Request(msg, sock, addr, now, draws) =>
      if IdFor(s.reqs, msg, draws).Some? {
        NewRequest(es, s, n, IdFor(s.reqs, msg, draws).value);
      } else {
        ForwardShrinks(s.reqs, es[n]);
        Forgetting(es, s, n, Step(s, es[n], n).reqs);
        SoundNext(es, Step(s, es[n], n), n);
      }
    case Reply(msg) =>
      if Relayed(s.reqs, msg).Some? {
        NewReply(es, s, n);
      } else {
        Forgetting(es, s, n, AfterReply(s.reqs, msg));
        SoundNext(es, Step(s, es[n], n), n);
      }
    case Tick(now) =>
      Forgetting(es, s, n, Unexpired(s.reqs, now));
      var t := Step(s, es[n], n);
      if now < s.expire {
        SoundNext(es, s, n);
      } else {
        ExpireOnly(es, s.(reqs := t.reqs, owner := t.owner), t, n);
        SoundNext(es, t, n);
      }
  }

  lemma ExpireOnly(es: seq<Event>, s: State, t: State, n: nat)
    requires EventsOk(es) && Sound(es, s, n) && t == s.(expire := t.expire)
    ensures Sound(es, t, n)
  {
    hide Faithful, Pending;
    forall k | k in t.reqs ensures Pending(es, t, k) { PendingSame2(es, s, t, k); }
  }

  /**
   * In every run, pending ids belong to distinct unanswered requests, every relay is faithful,
   * and no request and no reply is relayed twice.
   */
  lemma {:induction false} EveryRunSound(es: seq<Event>)
    requires EventsOk(es)
    ensures Sound(es, Run(es), |es|)
    decreases |es|
  {
    hide Sound, Run, Step;
    if es == [] {
      SoundStart(es);
    } else {
      var n := |es| - 1;
      OkPrefix(es, n);
      EveryRunSound(es[..n]);
      SoundLater(es, n, Run(es[..n]));
      StepSound(es, Run(es[..n]), n);
      RunLast(es);
    }
  }

  lemma SoundStart(es: seq<Event>)
    requires es == []
    ensures Sound(es, Run(es), 0)
  {}

  lemma RunLast(es: seq<Event>)
    requires es != [] && EventsOk(es)
    ensures EventsOk(es[..|es| - 1]) && (es[|es| - 1].Request? ==> |es[|es| - 1].draws| == TRIES)
    ensures Run(es) == Step(Run(es[..|es| - 1]), es[|es| - 1], |es| - 1)
  {
    hide Step;
  }

  /** Every draw is the id of a pending request. */
  predicate AllTaken(reqs: Table, draws: seq<int>) {
    forall i :: 0 <= i < |draws| ==> draws[i] in reqs
  }

  lemma NoIdLeft(reqs: Table, msg: Message, draws: seq<int>)
    requires |msg| >= DNS_HDR_LEN
    ensures IdFor(reqs, msg, draws) == None <==> AllTaken(reqs, draws)
  {
    var k := FreeDraw(reqs, draws, 0);
    if k == |draws| {
      forall j | 0 <= j < |draws| ensures draws[j] in reqs { FreeDrawFirst(reqs, draws, 0, j); }
    }
  }

  /** Forwarding leaves all other pending requests alone exactly when it is too short a message or finds a free id. */
  lemma ForwardKeepsOthers(reqs: Table, msg: Message, sock: int, addr: Addr, now: real, draws: seq<int>)
    requires |draws| == TRIES
    ensures (forall k :: k in reqs ==>
               k in AfterForward(reqs, msg, sock, addr, now, draws)
               && AfterForward(reqs, msg, sock, addr, now, draws)[k] == reqs[k])
      <==> |msg| < DNS_HDR_LEN || !AllTaken(reqs, draws)
  {
    hide FreeDraw, Decode;
    if |msg| >= DNS_HDR_LEN {
      NoIdLeft(reqs, msg, draws);
      if AllTaken(reqs, draws) {
        var lost := draws[TRIES - 1];
        assert lost in reqs && lost !in AfterForward(reqs, msg, sock, addr, now, draws);
      }
    }
  }

  /** It does happen: one pending request, and every draw hits its id. */
  lemma ForwardCanDropAnother(req: Req, msg: Message, sock: int, addr: Addr, now: real)
    requires |msg| >= DNS_HDR_LEN
    ensures var reqs: Table := map[7 := req];
      var draws := seq(TRIES, _ => 7);
      AfterForward(reqs, msg, sock, addr, now, draws) == map[]
  {
    var reqs: Table := map[7 := req];
    var draws := seq(TRIES, _ => 7);
    NoIdLeft(reqs, msg, draws);
  }

  /** What removes a pending request: a reply with its id, the clock, or a request that finds no free id. */
  predicate Removes(s: State, e: Event, id: int)
    requires id in s.reqs
  {
    match e
    case Request(msg, _, _, _, draws) => |msg| >= DNS_HDR_LEN && AllTaken(s.reqs, draws) && |draws| == TRIES
      && draws[TRIES - 1] == id
    case Reply(msg) => |msg| >= DNS_HDR_LEN && MsgId(msg) == id
    case Tick(now) => now >= s.expire && now > s.reqs[id].expire
  }

  lemma StaysExactly(s: State, e: Event, n: nat, id: int)
    requires id in s.reqs && id in s.owner && (e.Request? ==> |e.draws| == TRIES)
    ensures var t := Step(s, e, n);
      (id in t.reqs <==> !Removes(s, e, id)) && (id in t.reqs ==> id in t.owner && t.owner[id] == s.owner[id])
  {
    hide Decode, FreeDraw, AllTaken, WithId;
    if e.Request? && |e.msg| >= DNS_HDR_LEN { NoIdLeft(s.reqs, e.msg, e.draws); }
  }

  /** A forwarded request is pending until some event removes it. */
  lemma {:induction false} StillPending(es: seq<Event>, i: nat, id: int, j: nat)
    requires EventsOk(es) && ForwardedAs(es, i, id) && i < j <= |es|
    requires forall m :: i < m < j ==>
      EventsOk(es[..m]) && (id in Run(es[..m]).reqs ==> !Removes(Run(es[..m]), es[m], id))
    ensures EventsOk(es[..j]) && id in Run(es[..j]).reqs && id in Run(es[..j]).owner && Run(es[..j]).owner[id] == i
    decreases j
  {
    hide Run, Step, Removes, IdFor;
    var n := j - 1;
    OkPrefix(es, n);
    OkPrefix(es, j);
    RunLast(es[..j]);
    PrefixOfPrefix(es, j, n);
    EveryRunSound(es[..n]);
    if n == i {
      Forwards(es[..n], Run(es[..n]), es[n], n, id);
    } else {
      StillPending(es, i, id, n);
      StaysExactly(Run(es[..n]), es[n], n, id);
    }
  }

  lemma Forwards(es: seq<Event>, s: State, e: Event, n: nat, id: int)
    requires EventsOk(es) && Sound(es, s, n) && e.Request? && |e.draws| == TRIES
    requires IdFor(s.reqs, e.msg, e.draws) == Some(id)
    ensures var t := Step(s, e, n); id in t.reqs && id in t.owner && t.owner[id] == n
  {
    hide Decode, FreeDraw, Pending, Faithful;
  }

  /** The first reply under the id of a request that is still pending is relayed as the answer to that request. */
  lemma ReplyReachesClient(es: seq<Event>, i: nat, id: int, j: nat)
    requires EventsOk(es) && ForwardedAs(es, i, id) && i < j < |es|
    requires forall m :: i < m < j ==>
      EventsOk(es[..m]) && (id in Run(es[..m]).reqs ==> !Removes(Run(es[..m]), es[m], id))
    requires es[j].Reply? && |es[j].msg| >= DNS_HDR_LEN && MsgId(es[j].msg) == id
    ensures EventsOk(es[..j + 1])
    ensures exists out :: Relay(i, j, out) in Run(es[..j + 1]).log && Faithful(es[..j + 1], Relay(i, j, out))
  {
    hide Run, Decode, Removes, IdFor, WithId, Faithful, TableOk;
    OkPrefix(es, j + 1);
    StillPending(es, i, id, j);
    RunLast(es[..j + 1]);
    PrefixOfPrefix(es, j + 1, j);
    var s := Run(es[..j]);
    var out := Relayed(s.reqs, es[j].msg).value;
    var log := Run(es[..j + 1]).log;
    assert log == s.log + [Relay(i, j, out)];
    EveryRunSound(es[..j + 1]);
    assert log[|log| - 1] == Relay(i, j, out);
  }

  /**
   * The clock drops a request that is still pending when it looks, at most once a second, and more than ten seconds
   * have gone by since the request was forwarded.
   */
  lemma ExpiresExactly(es: seq<Event>, i: nat, id: int, j: nat)
    requires EventsOk(es) && ForwardedAs(es, i, id) && i < j < |es| && es[j].Tick?
    requires forall m :: i < m < j ==>
      EventsOk(es[..m]) && (id in Run(es[..m]).reqs ==> !Removes(Run(es[..m]), es[m], id))
    ensures EventsOk(es[..j + 1]) && EventsOk(es[..j])
    ensures id in Run(es[..j + 1]).reqs <==> es[j].now < Run(es[..j]).expire || es[j].now <= es[i].now + 10.0
  {
    hide Run, Decode, IdFor, WithId, Faithful, Step, U16;
    OkPrefix(es, j + 1);
    StillPending(es, i, id, j);
    RunLast(es[..j + 1]);
    PrefixOfPrefix(es, j + 1, j);
    EveryRunSound(es[..j]);
    var s := Run(es[..j]);
    assert Pending(es[..j], s, id);
    StaysExactly(s, es[j], j, id);
  }

  /** A tick at which the clock looks at the requests. */
  predicate Looks(es: seq<Event>, j: nat) {
    j < |es| && es[j].Tick? && EventsOk(es[..j]) && es[j].now >= Run(es[..j]).expire
  }

  /** Having looked once, it looks again at the first tick a second later or more. */
  lemma {:induction false} LooksOnceASecond(es: seq<Event>, m: nat, j: nat)
    requires EventsOk(es) && m < j <= |es| && Looks(es, m)
    requires forall i :: m < i < j ==> !Looks(es, i)
    ensures EventsOk(es[..j]) && Run(es[..j]).expire == es[m].now + 1.0
    ensures Looks(es, j) <==> j < |es| && es[j].Tick? && es[j].now >= es[m].now + 1.0
    decreases j
  {
    hide Run, Decode, IdFor, WithId, AfterForward, AfterReply, Relayed, Unexpired, Owners;
    OkPrefix(es, j);
    RunLast(es[..j]);
    PrefixOfPrefix(es, j, j - 1);
    if m < j - 1 { LooksOnceASecond(es, m, j - 1); }
  }

  /** The first look is at the first tick from time zero on. */
  lemma {:induction false} LooksFirst(es: seq<Event>, j: nat)
    requires EventsOk(es) && j <= |es| && forall i :: 0 <= i < j ==> !Looks(es, i)
    ensures EventsOk(es[..j]) && Run(es[..j]).expire == 0.0
    ensures Looks(es, j) <==> j < |es| && es[j].Tick? && es[j].now >= 0.0
    decreases j
  {
    hide Decode, IdFor, WithId, AfterForward, AfterReply, Relayed, Unexpired, Owners;
    OkPrefix(es, j);
    if j > 0 {
      LooksFirst(es, j - 1);
      hide Run;
      RunLast(es[..j]);
      PrefixOfPrefix(es, j, j - 1);
    }
  }
}
