/** What a live connection holds, by the packets seen since it was created (ipconntrack.c:127-259, 409-508). */
module ConnHistory {
  import opened Bytes
  import opened TcpStream
  import opened ConnTrack

  const NEW_TABLE := Run(map[], map[])

  function After(locals: seq<u32>, steps: seq<Step>): Run {
    RunAll(NEW_TABLE, locals, steps)
  }

  /** The steps since k, which is live now, was created, the packet that created it among them. */
  ghost function Since(locals: seq<u32>, steps: seq<Step>, k: Addr): (r: seq<Step>)
    ensures r == [] <==> steps == [] || k !in After(locals, steps).table
  {
    if steps == [] || k !in After(locals, steps).table then []
    else Since(locals, steps[..|steps| - 1], k) + [steps[|steps| - 1]]
  }

  // ---------------------------------------------------------------------------------------------
  // Who sent a packet, by its addresses and ports
  // ---------------------------------------------------------------------------------------------

  function SourcePort(pkt: Packet): int {
    match pkt.tcp case Some(t) => t.source case None => match pkt.udp case Some(u) => u.source case None => 0
  }

  function DestPort(pkt: Packet): int {
    match pkt.tcp case Some(t) => t.dest case None => match pkt.udp case Some(u) => u.dest case None => 0
  }

  predicate FromClientOf(k: Addr, pkt: Packet) {
    && pkt.p == k.proto && pkt.src == k.client_addr && pkt.dst == k.server_addr
    && SourcePort(pkt) == k.client_port && DestPort(pkt) == k.server_port
  }

  predicate FromServerOf(k: Addr, pkt: Packet) {
    && pkt.p == k.proto && pkt.src == k.server_addr && pkt.dst == k.client_addr
    && SourcePort(pkt) == k.server_port && DestPort(pkt) == k.client_port
  }

  /** An IP packet with a TCP or UDP header, with a local endpoint if only those are wanted. */
  predicate IsTracked(locals: seq<u32>, s: Step) {
    && s.Arrive? && s.pkt.ip && (s.pkt.tcp.Some? || s.pkt.udp.Some?)
    && (s.track_local ==> s.pkt.src in locals || s.pkt.dst in locals)
  }

  /** An endpoint that talks to itself: only the packet that made the connection counts as the client's. */
  predicate OneEndpoint(k: Addr) {
    k.client_addr == k.server_addr && k.client_port == k.server_port
  }

  predicate IsClients(locals: seq<u32>, k: Addr, s: Step, first: bool) {
    IsTracked(locals, s) && FromClientOf(k, s.pkt) && (OneEndpoint(k) ==> first)
  }

  predicate IsServers(locals: seq<u32>, k: Addr, s: Step, first: bool) {
    IsTracked(locals, s) && FromServerOf(k, s.pkt) && (OneEndpoint(k) ==> !first)
  }

  /** The packets the client sent, in order. */
  function ByClient(locals: seq<u32>, k: Addr, since: seq<Step>): (r: seq<Step>)
    ensures forall s :: s in r ==> s.Arrive?
  {
    if since == [] then []
    else
      var n := |since| - 1;
      ByClient(locals, k, since[..n]) + if IsClients(locals, k, since[n], n == 0) then [since[n]] else []
  }

  /** And the server. */
  function ByServer(locals: seq<u32>, k: Addr, since: seq<Step>): (r: seq<Step>)
    ensures forall s :: s in r ==> s.Arrive?
  {
    if since == [] then []
    else
      var n := |since| - 1;
      ByServer(locals, k, since[..n]) + if IsServers(locals, k, since[n], n == 0) then [since[n]] else []
  }

  // ---------------------------------------------------------------------------------------------
  // What should be known of one side after its packets
  // ---------------------------------------------------------------------------------------------

  /** A queue that followed just these packets. */
  function Followed(ss: seq<Step>): Queue
    requires forall s :: s in ss ==> s.Arrive?
  {
    if ss == [] then EMPTY
    else
      var n := |ss| - 1;
      Track(Followed(ss[..n]), ss[n].pkt, ss[n].buffer)
  }

  function Octets(ss: seq<Step>): nat
    requires forall s :: s in ss ==> s.Arrive?
  {
    if ss == [] then 0 else Octets(ss[..|ss| - 1]) + |ss[|ss| - 1].pkt.msg|
  }

  /** One of them ends the connection. */
  predicate Ends(ss: seq<Step>)
    requires forall s :: s in ss ==> s.Arrive?
  {
    exists s :: s in ss && s.pkt.tcp.Some? && (s.pkt.tcp.value.fin || s.pkt.tcp.value.rst)
  }

  /** Counters that counted just these packets. */
  function Tally(ss: seq<Step>): Stats
    requires forall s :: s in ss ==> s.Arrive?
  {
    if ss == [] then Stats(false, 0, 0, 0) else Counted(Tally(ss[..|ss| - 1]), ss[|ss| - 1].pkt)
  }

  /** One side of the record: its queue and counters are those of its own packets. */
  ghost predicate Holds(q: Queue, st: Stats, ss: seq<Step>)
    requires forall s :: s in ss ==> s.Arrive?
  {
    q == Followed(ss) && st == Tally(ss) && st.packets == |ss| && st.bytes == Octets(ss)
  }

  /** The whole record. */
  ghost predicate Remembers(locals: seq<u32>, k: Addr, c: Conn, since: seq<Step>) {
    var cs, ss := ByClient(locals, k, since), ByServer(locals, k, since);
    && Holds(c.queue_client, c.stats_client, cs) && Holds(c.queue_server, c.stats_server, ss)
    && (c.state == Fin <==> Ends(cs) || Ends(ss))
    && (LocalClient in c.flags <==> k.client_addr in locals)
    && (LocalServer in c.flags <==> k.server_addr in locals)
  }

  // ---------------------------------------------------------------------------------------------
  // One step
  // ---------------------------------------------------------------------------------------------

  lemma KeyIsSender(k: Addr, pkt: Packet)
    ensures KeyOf(pkt) == k <==> FromClientOf(k, pkt)
    ensures Mirror(KeyOf(pkt)) == k <==> FromServerOf(k, pkt)
    ensures k == Mirror(k) <==> OneEndpoint(k)
  {}

  lemma TrackedSteps(locals: seq<u32>, s: Step)
    requires s.Arrive?
    ensures IsTracked(locals, s) <==> Trackable(s.pkt) && !(s.track_local && LocalFlags(locals, s.pkt) == {})
    ensures LocalSrc in LocalFlags(locals, s.pkt) <==> s.pkt.src in locals
    ensures LocalDst in LocalFlags(locals, s.pkt) <==> s.pkt.dst in locals
  {
    assert s.pkt.src in locals ==> LocalSrc in LocalFlags(locals, s.pkt);
    assert s.pkt.dst in locals ==> LocalDst in LocalFlags(locals, s.pkt);
  }

  /** A packet is the client's or the server's, and changes that side of the record only. */
  lemma SeenSide(c: Conn, pkt: Packet, flags: set<PktFlag>, buffer: bool)
    requires (FromClient in flags) != (FromServer in flags)
    ensures var c' := Seen(c, pkt, flags, buffer);
      && c'.flags == c.flags
      && c'.state == (if pkt.tcp.Some? && (pkt.tcp.value.fin || pkt.tcp.value.rst) then Fin else c.state)
      && c'.queue_client == (if FromClient in flags then Track(c.queue_client, pkt, buffer) else c.queue_client)
      && c'.queue_server == (if FromServer in flags then Track(c.queue_server, pkt, buffer) else c.queue_server)
      && c'.stats_client == (if FromClient in flags then Counted(c.stats_client, pkt) else c.stats_client)
      && c'.stats_server == (if FromServer in flags then Counted(c.stats_server, pkt) else c.stats_server)
  {
    hide Track, SeqDiff, Opened, Counted;
  }

  lemma CountedGrows(st: Stats, pkt: Packet)
    ensures Counted(st, pkt).packets == st.packets + 1 && Counted(st, pkt).bytes == st.bytes + |pkt.msg|
  {}

  /** What one packet of a side leaves of the record before it. */
  ghost predicate Advanced(c: Conn, c': Conn, s: Step, client: bool)
    requires s.Arrive?
  {
    && c'.flags == c.flags
    && c'.state == (if s.pkt.tcp.Some? && (s.pkt.tcp.value.fin || s.pkt.tcp.value.rst) then Fin else c.state)
    && c'.queue_client == (if client then Track(c.queue_client, s.pkt, s.buffer) else c.queue_client)
    && c'.queue_server == (if client then c.queue_server else Track(c.queue_server, s.pkt, s.buffer))
    && c'.stats_client == (if client then Counted(c.stats_client, s.pkt) else c.stats_client)
    && c'.stats_server == (if client then c.stats_server else Counted(c.stats_server, s.pkt))
  }

  lemma SeenAdvances(c: Conn, s: Step, flags: set<PktFlag>)
    requires s.Arrive? && (FromClient in flags) != (FromServer in flags)
    ensures Advanced(c, Seen(c, s.pkt, flags, s.buffer), s, FromClient in flags)
  {
    hide Seen, Track, Counted;
    SeenSide(c, s.pkt, flags, s.buffer);
  }

  /** What is reported of a packet before the record is looked at. */
  function Direction(locals: seq<u32>, s: Step, client: bool, first: bool): set<PktFlag>
    requires s.Arrive?
  {
    LocalFlags(locals, s.pkt) + (if client then {FromClient} else {FromServer}) + if first then {First} else {}
  }

  /** A step makes, advances or leaves the record of k, by who sent the packet. */
  lemma StepSees(r: Run, locals: seq<u32>, s: Step, k: Addr)
    requires RunOk(r) && k in StepRun(r, locals, s).table
    ensures var c', first := StepRun(r, locals, s).table[k], k !in r.table;
      var client, server := IsClients(locals, k, s, first), IsServers(locals, k, s, first);
      && !(client && server) && (first ==> client)
      && (client || server ==>
            var c := if first then NewConn(k, LocalFlags(locals, s.pkt)) else r.table[k];
            c' == Seen(c, s.pkt, Direction(locals, s, client, first), s.buffer))
      && (!client && !server ==> c' == r.table[k])
  {
    if s.Arrive? {
      var pkt, key, local := s.pkt, KeyOf(s.pkt), LocalFlags(locals, s.pkt);
      KeyIsSender(k, pkt);
      TrackedSteps(locals, s);
      LocalFlagsAreLocal(locals, pkt);
      assert Mirror(Mirror(k)) == k && Mirror(Mirror(key)) == key;
      if Mirror(k) in r.table { assert KeyOk(r, Mirror(k)); }
      if k in r.table { assert KeyOk(r, k); }
      hide KeyOf, LocalFlags, Seen, NewConn, FromClientOf, FromServerOf;
      if IsTracked(locals, s) {
        assert Direction(locals, s, true, true) == local + {FromClient, First};
        assert Direction(locals, s, true, false) == local + {FromClient};
        assert Direction(locals, s, false, false) == local + {FromServer};
      }
    }
  }

  lemma StepTouches(r: Run, locals: seq<u32>, s: Step, k: Addr)
    requires RunOk(r) && k in StepRun(r, locals, s).table
    ensures var c', first := StepRun(r, locals, s).table[k], k !in r.table;
      var client, server := IsClients(locals, k, s, first), IsServers(locals, k, s, first);
      && !(client && server) && (first ==> client)
      && (client || server ==>
            Advanced(if first then NewConn(k, LocalFlags(locals, s.pkt)) else r.table[k], c', s, client))
      && (!client && !server ==> c' == r.table[k])
  {
    StepSees(r, locals, s, k);
    var first := k !in r.table;
    var client := IsClients(locals, k, s, first);
    if client || IsServers(locals, k, s, first) {
      LocalFlagsAreLocal(locals, s.pkt);
      hide Seen, LocalFlags, NewConn, StepRun, IsServers, IsClients, Advanced;
      SeenAdvances(if first then NewConn(k, LocalFlags(locals, s.pkt)) else r.table[k], s,
                   Direction(locals, s, client, first));
    }
  }

  // ---------------------------------------------------------------------------------------------
  // Every run
  // ---------------------------------------------------------------------------------------------

  lemma {:induction false} RunAllLast(r: Run, locals: seq<u32>, steps: seq<Step>)
    requires steps != []
    ensures var n := |steps| - 1; RunAll(r, locals, steps) == StepRun(RunAll(r, locals, steps[..n]), locals, steps[n])
    decreases |steps|
  {
    hide StepRun;
    if |steps| > 1 {
      RunAllLast(StepRun(r, locals, steps[0]), locals, steps[1..]);
      assert steps[..|steps| - 1][1..] == steps[1..][..|steps| - 2];
    }
  }

  lemma AfterIsOk(locals: seq<u32>, steps: seq<Step>)
    ensures RunOk(After(locals, steps))
  {
    EveryRunOk(locals, steps, NEW_TABLE);
  }

  lemma SinceLast(locals: seq<u32>, steps: seq<Step>, k: Addr)
    requires steps != [] && k in After(locals, steps).table
    ensures var n := |steps| - 1; Since(locals, steps, k) == Since(locals, steps[..n], k) + [steps[n]]
    ensures Since(locals, steps[..|steps| - 1], k) == [] <==> k !in After(locals, steps[..|steps| - 1]).table
  {
    hide RunAll;
    if steps[..|steps| - 1] == [] { NothingLive(locals); }
  }

  lemma NothingLive(locals: seq<u32>)
    ensures After(locals, []).table == map[]
  {}

  lemma SidesLast(locals: seq<u32>, k: Addr, since: seq<Step>, s: Step)
    ensures var first := since == [];
      && ByClient(locals, k, since + [s]) ==
           ByClient(locals, k, since) + (if IsClients(locals, k, s, first) then [s] else [])
      && ByServer(locals, k, since + [s]) ==
           ByServer(locals, k, since) + (if IsServers(locals, k, s, first) then [s] else [])
  {
    assert (since + [s])[..|since|] == since;
  }

  lemma HoldsOneMore(q: Queue, st: Stats, ss: seq<Step>, s: Step)
    requires s.Arrive? && (forall x :: x in ss ==> x.Arrive?) && Holds(q, st, ss)
    ensures Holds(Track(q, s.pkt, s.buffer), Counted(st, s.pkt), ss + [s])
  {
    hide Track, Counted;
    CountedGrows(st, s.pkt);
    assert (ss + [s])[..|ss|] == ss;
  }

  lemma EndsOneMore(ss: seq<Step>, s: Step)
    requires s.Arrive? && forall x :: x in ss ==> x.Arrive?
    ensures Ends(ss + [s]) <==> Ends(ss) || (s.pkt.tcp.Some? && (s.pkt.tcp.value.fin || s.pkt.tcp.value.rst))
    ensures ss + [] == ss
  {
    assert s in ss + [s];
    forall x | x in ss ensures x in ss + [s] {}
  }

  /** A record advanced by a packet of one side remembers that packet, too. */
  lemma Advances(locals: seq<u32>, k: Addr, c: Conn, c': Conn, since: seq<Step>, s: Step)
    requires Remembers(locals, k, c, since) && s.Arrive?
    requires var client := IsClients(locals, k, s, since == []);
      (client || IsServers(locals, k, s, since == [])) && !(client && IsServers(locals, k, s, since == []))
      && Advanced(c, c', s, client)
    ensures Remembers(locals, k, c', since + [s])
  {
    hide Track, Counted, IsClients, IsServers, ByClient, ByServer, Holds, Ends;
    var cs, ss := ByClient(locals, k, since), ByServer(locals, k, since);
    SidesLast(locals, k, since, s);
    EndsOneMore(cs, s);
    EndsOneMore(ss, s);
    if IsClients(locals, k, s, since == []) {
      HoldsOneMore(c.queue_client, c.stats_client, cs, s);
    } else {
      HoldsOneMore(c.queue_server, c.stats_server, ss, s);
    }
  }

  lemma NewRemembers(locals: seq<u32>, k: Addr, s: Step)
    requires IsClients(locals, k, s, true)
    ensures Remembers(locals, k, NewConn(k, LocalFlags(locals, s.pkt)), [])
  {
    TrackedSteps(locals, s);
    hide LocalFlags;
  }

  /**
   * In every run from an empty table, each live connection holds exactly what its own packets since its creation make
   * of it: the client's queue and counters those the client sent, the server's those the server sent, closed if and
   * only if one of them had FIN or RST set, and local as its endpoints are.
   */
  lemma {:induction false} EveryConnRemembers(locals: seq<u32>, steps: seq<Step>, k: Addr)
    requires k in After(locals, steps).table
    ensures Remembers(locals, k, After(locals, steps).table[k], Since(locals, steps, k))
    decreases |steps|
  {
    if steps == [] { NothingLive(locals); assert false; }
    var n := |steps| - 1;
    var before, s, since := steps[..n], steps[n], Since(locals, steps[..n], k);
    var r := After(locals, before);
    AfterIsOk(locals, before);
    RunAllLast(NEW_TABLE, locals, steps);
    SinceLast(locals, steps, k);
    StepTouches(r, locals, s, k);
    hide RunAll, StepRun, Since, Remembers, Advanced, IsClients, IsServers, NewConn, LocalFlags;
    if k in r.table {
      EveryConnRemembers(locals, before, k);
      OneMore(locals, k, r.table[k], After(locals, steps).table[k], since, s);
    } else {
      CreatedBy(locals, k, s);
      NewRemembers(locals, k, s);
      OneMore(locals, k, NewConn(k, LocalFlags(locals, s.pkt)), After(locals, steps).table[k], [], s);
      assert since == [];
    }
  }

  lemma CreatedBy(locals: seq<u32>, k: Addr, s: Step)
    requires IsClients(locals, k, s, true)
    ensures s.Arrive?
  {}

  lemma OneMore(locals: seq<u32>, k: Addr, c: Conn, c': Conn, since: seq<Step>, s: Step)
    requires Remembers(locals, k, c, since)
    requires var client, server := IsClients(locals, k, s, since == []), IsServers(locals, k, s, since == []);
      && !(client && server)
      && (client || server ==> s.Arrive? && Advanced(c, c', s, client))
      && (!client && !server ==> c' == c)
    ensures Remembers(locals, k, c', since + [s])
  {
    hide Advanced, IsClients, IsServers;
    if IsClients(locals, k, s, since == []) || IsServers(locals, k, s, since == []) {
      Advances(locals, k, c, c', since, s);
    } else {
      hide Holds, Ends, ByClient, ByServer;
      SidesLast(locals, k, since, s);
      assert ByClient(locals, k, since) + [] == ByClient(locals, k, since);
      assert ByServer(locals, k, since) + [] == ByServer(locals, k, since);
    }
  }

  // ---------------------------------------------------------------------------------------------
  // The other fields of a queue
  // ---------------------------------------------------------------------------------------------

  /** Whether packets are buffered matters to the buffer alone. */
  lemma BufferingOnlyBuffers(q: Queue, pkt: Packet)
    ensures Track(q, pkt, false) == Track(q, pkt, true).(buf := q.buf)
  {
    hide SeqDiff, Contribution;
  }

  predicate NoAck(ss: seq<Step>)
    requires forall s :: s in ss ==> s.Arrive?
  {
    forall j :: 0 <= j < |ss| && ss[j].pkt.tcp.Some? ==> !ss[j].pkt.tcp.value.ack
  }

  lemma TrackFields(q: Queue, pkt: Packet, buffer: bool)
    ensures var q' := Track(q, pkt, buffer);
      && (pkt.tcp == None ==> q' == q.(buf := if buffer then q.buf + pkt.msg else q.buf))
      && (pkt.tcp.Some? ==>
            var t := pkt.tcp.value;
            q'.win == t.window && q'.ack == (if t.ack then t.ack_seq else q.ack)
            && q'.seq_syn == if q.seq_ok then q.seq_syn else t.seqno)
  {
    hide SeqDiff, Contribution;
  }

  /**
   * The window is that of the last TCP packet, the acknowledgement that of the last one that acknowledges, and the
   * number of the SYN that of the first.
   */
  lemma {:induction false} LaterFields(ss: seq<Step>, i: nat)
    requires i < |ss| && (forall s :: s in ss ==> s.Arrive?) && ss[i].pkt.tcp.Some?
    ensures (forall j :: i < j < |ss| ==> ss[j].pkt.tcp == None) ==> Followed(ss).win == ss[i].pkt.tcp.value.window
    ensures ss[i].pkt.tcp.value.ack && NoAck(ss[i + 1..]) ==> Followed(ss).ack == ss[i].pkt.tcp.value.ack_seq
    ensures (forall j :: 0 <= j < i ==> ss[j].pkt.tcp == None) ==> Followed(ss).seq_syn == ss[i].pkt.tcp.value.seqno
    decreases |ss|
  {
    hide Track;
    var n := |ss| - 1;
    var front := ss[..n];
    TrackFields(Followed(front), ss[n].pkt, ss[n].buffer);
    FollowedOpen(front);
    if i < n {
      LaterFields(front, i);
      assert front[i] == ss[i] && ss[i + 1..] == front[i + 1..] + [ss[n]];
      if NoAck(ss[i + 1..]) { NoAckFront(front[i + 1..], ss[n]); }
      assert SpokeTcp(front) by { assert ss[i] in front; }
    } else {
      if SpokeTcp(front) {
        var s :| s in front && s.pkt.tcp.Some?;
        var j :| 0 <= j < n && front[j] == s;
        assert ss[j] == s;
      }
    }
  }

  lemma NoAckFront(ss: seq<Step>, s: Step)
    requires (forall x :: x in ss + [s] ==> x.Arrive?) && NoAck(ss + [s])
    ensures (forall x :: x in ss ==> x.Arrive?) && NoAck(ss) && (s.pkt.tcp.Some? ==> !s.pkt.tcp.value.ack)
  {
    assert (ss + [s])[|ss|] == s;
    forall x | x in ss ensures x.Arrive? { assert x in ss + [s]; }
    forall j | 0 <= j < |ss| ensures ss[j] == (ss + [s])[j] {}
  }

  /** No acknowledgement is zero. */
  lemma {:induction false} NoneAcked(ss: seq<Step>)
    requires (forall s :: s in ss ==> s.Arrive?) && NoAck(ss)
    ensures Followed(ss).ack == 0
    decreases |ss|
  {
    hide Track;
    if ss != [] {
      var n := |ss| - 1;
      assert ss == ss[..n] + [ss[n]];
      NoAckFront(ss[..n], ss[n]);
      NoneAcked(ss[..n]);
      TrackFields(Followed(ss[..n]), ss[n].pkt, ss[n].buffer);
    }
  }

  function Payloads(ss: seq<Step>): seq<byte>
    requires forall s :: s in ss ==> s.Arrive?
  {
    if ss == [] then []
    else Payloads(ss[..|ss| - 1]) + if ss[|ss| - 1].buffer then ss[|ss| - 1].pkt.msg else []
  }

  /** Datagrams are buffered one behind the other, those that are to be buffered. */
  lemma {:induction false} DatagramsInOrder(ss: seq<Step>)
    requires forall s :: s in ss ==> s.Arrive? && s.pkt.tcp == None
    ensures Followed(ss) == Queue(false, 0, 0, 0, 0, Payloads(ss))
    decreases |ss|
  {
    if ss != [] { DatagramsInOrder(ss[..|ss| - 1]); }
  }

  // ---------------------------------------------------------------------------------------------
  // The buffered streams of a connection
  // ---------------------------------------------------------------------------------------------

  function Packets(ss: seq<Step>): (r: seq<Packet>)
    requires forall s :: s in ss ==> s.Arrive?
    ensures |r| == |ss|
  {
    if ss == [] then [] else Packets(ss[..|ss| - 1]) + [ss[|ss| - 1].pkt]
  }

  lemma {:induction false} TrackAllLast(q: Queue, pkts: seq<Packet>, pkt: Packet)
    ensures TrackAll(q, pkts + [pkt]) == Track(TrackAll(q, pkts), pkt, true)
    decreases |pkts|
  {
    hide Track;
    if pkts == [] {
      assert [pkt][1..] == [];
    } else {
      TrackAllLast(Track(q, pkts[0], true), pkts[1..], pkt);
      assert (pkts + [pkt])[1..] == pkts[1..] + [pkt];
    }
  }

  lemma {:induction false} FollowedIsTrackAll(ss: seq<Step>)
    requires forall s :: s in ss ==> s.Arrive? && s.buffer
    ensures Followed(ss) == TrackAll(EMPTY, Packets(ss))
    decreases |ss|
  {
    hide Track;
    if ss != [] {
      var n := |ss| - 1;
      FollowedIsTrackAll(ss[..n]);
      TrackAllLast(EMPTY, Packets(ss[..n]), ss[n].pkt);
    }
  }

  /** The stream one side sends is tracked whole: its first segment opens it, and the others are harmless on arrival. */
  ghost predicate Streamed(ss: seq<Step>, at: seq<int>, stream: seq<byte>, isn: u32) {
    && |ss| == |at| > 0 && (forall s :: s in ss ==> s.Arrive? && s.buffer)
    && var pkts := Packets(ss);
    && Opens(pkts[0], stream, isn, at[0])
    && Arrivals(pkts[1..], at[1..], stream, isn, if pkts[0].tcp.value.syn then 0 else at[0] + |pkts[0].msg|)
  }

  /**
   * The two buffers of a live connection: each is one contiguous run of the stream its own sender sent, whatever the
   * other side and all other connections sent in between.
   */
  lemma BuffersAreStreams(locals: seq<u32>, steps: seq<Step>, k: Addr, client: bool, at: seq<int>, stream: seq<byte>,
                          isn: u32)
    returns (start: nat, end: nat)
    requires k in After(locals, steps).table
    requires var since := Since(locals, steps, k);
      Streamed(if client then ByClient(locals, k, since) else ByServer(locals, k, since), at, stream, isn)
    ensures var c := After(locals, steps).table[k];
      var q := if client then c.queue_client else c.queue_server;
      start <= end <= |stream| && q.buf == stream[start..end] && q.seqno == Num(isn, end)
  {
    hide After, Since, ByClient, ByServer, Arrivals, Opens, TrackAll, Followed;
    EveryConnRemembers(locals, steps, k);
    var since := Since(locals, steps, k);
    var ss := if client then ByClient(locals, k, since) else ByServer(locals, k, since);
    FollowedIsTrackAll(ss);
    start, end := ConnectionIsContiguous(Packets(ss), at, stream, isn);
  }

  // ---------------------------------------------------------------------------------------------
  // What is reported of a packet
  // ---------------------------------------------------------------------------------------------

  /** Some TCP packet among them. */
  predicate SpokeTcp(ss: seq<Step>)
    requires forall s :: s in ss ==> s.Arrive?
  {
    exists s :: s in ss && s.pkt.tcp.Some?
  }

  /** Who sent it, whether it made the connection, its local ends, and for TCP a missed SYN or a gap in front of it. */
  function Reported(locals: seq<u32>, s: Step, client: bool, first: bool, earlier: seq<Step>): set<PktFlag>
    requires s.Arrive? && forall x :: x in earlier ==> x.Arrive?
  {
    (if client then {FromClient} else {FromServer}) + (if first then {First} else {})
    + (if s.pkt.src in locals then {LocalSrc} else {}) + (if s.pkt.dst in locals then {LocalDst} else {})
    + (if s.pkt.tcp.Some? && !s.pkt.tcp.value.syn && !SpokeTcp(earlier) then {TcpMissedSyn} else {})
    + (if s.pkt.tcp.Some? && SpokeTcp(earlier) && SeqDiff(s.pkt.tcp.value.seqno, Followed(earlier).seqno) > 1
       then {TcpFutureSeq} else {})
  }

  lemma {:induction false} FollowedOpen(ss: seq<Step>)
    requires forall s :: s in ss ==> s.Arrive?
    ensures Followed(ss).seq_ok <==> SpokeTcp(ss)
    decreases |ss|
  {
    hide SeqDiff, Contribution;
    if ss != [] {
      var n := |ss| - 1;
      FollowedOpen(ss[..n]);
      assert ss == ss[..n] + [ss[n]];
      assert forall s :: s in ss <==> s in ss[..n] || s == ss[n];
    }
  }

  lemma SeenReports(c: Conn, pkt: Packet, flags: set<PktFlag>, buffer: bool)
    requires (FromClient in flags) != (FromServer in flags)
    ensures var q := if FromClient in flags then c.queue_client else c.queue_server;
      var from, to := if FromClient in flags then LocalClient else LocalServer,
        if FromClient in flags then LocalServer else LocalClient;
      Seen(c, pkt, flags, buffer).pkt_flags == flags + (if from in c.flags then {LocalSrc} else {})
        + (if to in c.flags then {LocalDst} else {}) + StreamFlags(q, pkt)
  {
    hide Track, Counted, StreamFlags;
  }

  lemma StreamReports(q: Queue, pkt: Packet)
    ensures StreamFlags(q, pkt) ==
      (if pkt.tcp.Some? && !pkt.tcp.value.syn && !q.seq_ok then {TcpMissedSyn} else {})
      + (if pkt.tcp.Some? && q.seq_ok && SeqDiff(pkt.tcp.value.seqno, q.seqno) > 1 then {TcpFutureSeq} else {})
  {
    if pkt.tcp.Some? && !q.seq_ok {
      var t := pkt.tcp.value;
      NumAdds(t.seqno, 0, 1);
      if t.syn { DiffOfNums(t.seqno, 0, 1); } else { DiffOfNums(t.seqno, 0, 0); }
    }
  }

  /** The flags of the packet just tracked are these, and no others. */
  lemma LastIsReported(locals: seq<u32>, steps: seq<Step>, k: Addr)
    requires steps != [] && k in After(locals, steps).table
    requires var n := |steps| - 1;
      var first := Since(locals, steps[..n], k) == [];
      IsClients(locals, k, steps[n], first) || IsServers(locals, k, steps[n], first)
    ensures var n := |steps| - 1;
      var since := Since(locals, steps[..n], k);
      var client := IsClients(locals, k, steps[n], since == []);
      var earlier := if client then ByClient(locals, k, since) else ByServer(locals, k, since);
      After(locals, steps).table[k].pkt_flags == Reported(locals, steps[n], client, since == [], earlier)
  {
    var n := |steps| - 1;
    var before, s, since := steps[..n], steps[n], Since(locals, steps[..n], k);
    var r, first := After(locals, before), since == [];
    var client := IsClients(locals, k, s, first);
    AfterIsOk(locals, before);
    RunAllLast(NEW_TABLE, locals, steps);
    SinceLast(locals, steps, k);
    StepSees(r, locals, s, k);
    var c := if first then NewConn(k, LocalFlags(locals, s.pkt)) else r.table[k];
    hide RunAll, StepRun, Since, Seen, NewConn, LocalFlags, Direction, IsClients, IsServers, Reported, ByClient,
      ByServer;
    if first { NewRemembers(locals, k, s); } else { EveryConnRemembers(locals, before, k); }
    SeenIsReported(locals, k, c, s, client, since);
  }

  lemma SeenIsReported(locals: seq<u32>, k: Addr, c: Conn, s: Step, client: bool, since: seq<Step>)
    requires Remembers(locals, k, c, since) && client == IsClients(locals, k, s, since == [])
    requires client || IsServers(locals, k, s, since == [])
    ensures var earlier := if client then ByClient(locals, k, since) else ByServer(locals, k, since);
      Seen(c, s.pkt, Direction(locals, s, client, since == []), s.buffer).pkt_flags ==
        Reported(locals, s, client, since == [], earlier)
  {
    TrackedSteps(locals, s);
    LocalFlagsAreLocal(locals, s.pkt);
    SeenReports(c, s.pkt, Direction(locals, s, client, since == []), s.buffer);
    var earlier := if client then ByClient(locals, k, since) else ByServer(locals, k, since);
    FollowedOpen(earlier);
    StreamReports(Followed(earlier), s.pkt);
    ReportedFlags(locals, k, c, s, client, since == [], earlier);
    hide LocalFlags, Followed, Seen, Reported, FromClientOf, FromServerOf;
  }

  /** The flags put together. */
  lemma ReportedFlags(locals: seq<u32>, k: Addr, c: Conn, s: Step, client: bool, first: bool, earlier: seq<Step>)
    requires s.Arrive? && forall x :: x in earlier ==> x.Arrive?
    requires if client then FromClientOf(k, s.pkt) else FromServerOf(k, s.pkt)
    requires LocalFlags(locals, s.pkt) ==
      (if s.pkt.src in locals then {LocalSrc} else {}) + (if s.pkt.dst in locals then {LocalDst} else {})
    requires LocalClient in c.flags <==> k.client_addr in locals
    requires LocalServer in c.flags <==> k.server_addr in locals
    requires Followed(earlier).seq_ok <==> SpokeTcp(earlier)
    ensures var q := Followed(earlier);
      Direction(locals, s, client, first)
      + (if (if client then LocalClient else LocalServer) in c.flags then {LocalSrc} else {})
      + (if (if client then LocalServer else LocalClient) in c.flags then {LocalDst} else {})
      + ((if s.pkt.tcp.Some? && !s.pkt.tcp.value.syn && !q.seq_ok then {TcpMissedSyn} else {})
         + (if s.pkt.tcp.Some? && q.seq_ok && SeqDiff(s.pkt.tcp.value.seqno, q.seqno) > 1 then {TcpFutureSeq} else {}))
      == Reported(locals, s, client, first, earlier)
  {
    hide Followed, SeqDiff, SpokeTcp, LocalFlags;
  }

  // ---------------------------------------------------------------------------------------------
  // Which connections are live
  // ---------------------------------------------------------------------------------------------

  /** The same two endpoints with the roles exchanged. */
  function Reverse(k: Addr): Addr {
    k.(client_addr := k.server_addr, client_port := k.server_port, server_addr := k.client_addr,
       server_port := k.client_port)
  }

  /**
   * A connection is live after a step if and only if it was before and is not the one deleted, or a tracked packet from
   * its client finds no connection between its two endpoints.
   */
  lemma LiveExactly(locals: seq<u32>, steps: seq<Step>, s: Step, k: Addr)
    ensures var t := After(locals, steps).table;
      k in After(locals, steps + [s]).table <==>
        || (k in t && s != Delete(k))
        || (IsTracked(locals, s) && FromClientOf(k, s.pkt) && k !in t && Reverse(k) !in t)
  {
    var r := After(locals, steps);
    RunAllLast(NEW_TABLE, locals, steps + [s]);
    assert (steps + [s])[..|steps|] == steps;
    hide RunAll;
    if s.Arrive? {
      KeyIsSender(k, s.pkt);
      TrackedSteps(locals, s);
      AttributionEffect(r.table, locals, s.pkt, s.track_local, s.buffer);
      assert Reverse(k) == Mirror(k) && Mirror(Mirror(k)) == k;
      hide Attribution, KeyOf, LocalFlags, FromClientOf;
    }
  }

  /** The tracker itself over such a run; deleting a connection that is not live is left to the caller not to do. */
  method TrackRun(locals: seq<u32>, steps: seq<Step>) returns (tracker: IpConnTrack)
    ensures tracker.Valid() && tracker.m_local_addrs == locals && tracker.View() == After(locals, steps).table
  {
    hide RunAll, Attribution;
    NothingLive(locals);
    tracker := new IpConnTrack(locals);
    assert steps[..0] == [];
    for i := 0 to |steps|
      invariant fresh(tracker) && fresh(tracker.conns.Values)
      invariant tracker.Valid() && tracker.m_local_addrs == locals
      invariant tracker.View() == After(locals, steps[..i]).table
    {
      RunAllLast(NEW_TABLE, locals, steps[..i + 1]);
      assert steps[..i + 1][..i] == steps[..i];
      match steps[i] {
        case Arrive(pkt, track_local, buffer) =>
          var _ := tracker.TrackPkt(pkt, track_local, buffer);
        case Delete(key) =>
          if key in tracker.conns { tracker.ConnDelete(key); }
      }
    }
    assert steps[..|steps|] == steps;
  }
}
