/** The connection table of the packet tracker (ipconntrack.c:120-323, 409-508). */
module ConnTrack {
  import opened Bytes
  import opened TcpStream

  /** IpConnAddr, the key of the table. */
  datatype Addr = Addr(proto: int, client_addr: u32, server_addr: u32, client_port: int, server_port: int)

  datatype PktFlag = FromClient | FromServer | First | LocalSrc | LocalDst | TcpMissedSyn | TcpFutureSeq
  datatype ConnFlag = LocalServer | LocalClient
  datatype State = Syn | Fin

  datatype Stats = Stats(tcp_seq_next_ok: bool, tcp_seq_next: u32, packets: nat, bytes: nat)

  const NO_STATS := Stats(false, 0, 0, 0)

  /** The value of a connection record. */
  datatype Conn = Conn(addr: Addr, state: State, flags: set<ConnFlag>, pkt_flags: set<PktFlag>,
                       stats_client: Stats, stats_server: Stats, queue_client: Queue, queue_server: Queue)

  function Mirror(a: Addr): Addr {
    Addr(a.proto, a.server_addr, a.client_addr, a.server_port, a.client_port)
  }

  /** The key of a packet whose sender is taken for the client. */
  function KeyOf(pkt: Packet): Addr {
    var (s, d) := if pkt.tcp.Some? then (pkt.tcp.value.source, pkt.tcp.value.dest)
                  else if pkt.udp.Some? then (pkt.udp.value.source, pkt.udp.value.dest) else (0, 0);
    Addr(pkt.p, pkt.src, pkt.dst, s, d)
  }

  predicate Trackable(pkt: Packet) {
    pkt.ip && (pkt.tcp.Some? || pkt.udp.Some?)
  }

  function LocalFlags(locals: seq<u32>, pkt: Packet): set<PktFlag> {
    (if pkt.src in locals then {LocalSrc} else {}) + (if pkt.dst in locals then {LocalDst} else {})
  }

  // ---------------------------------------------------------------------------------------------
  // The table as a value
  // ---------------------------------------------------------------------------------------------

  type Table = map<Addr, Conn>

  /** IpConnTrack_track_state on one side's counters. */
  function Counted(st: Stats, pkt: Packet): Stats {
    var st1 := st.(packets := st.packets + 1, bytes := st.bytes + |pkt.msg|);
    if pkt.tcp.Some? && (!st.tcp_seq_next_ok || pkt.tcp.value.seqno == st.tcp_seq_next) then
      st1.(tcp_seq_next := (pkt.tcp.value.seqno + if pkt.tcp.value.syn then 1 else |pkt.msg|) % M,
        tcp_seq_next_ok := true)
    else st1
  }

  /** pkt_tcp_seq_diff: how far a segment is from the one its sender was expected to send next. */
  function Retry(st: Stats, pkt: Packet): int {
    if pkt.tcp.Some? && st.tcp_seq_next_ok && pkt.tcp.value.seqno != st.tcp_seq_next
    then SeqDiff(pkt.tcp.value.seqno, st.tcp_seq_next) else 0
  }

  /** It is the distance in the sender's stream: zero exactly for the octet expected, negative for repeated ones. */
  lemma RetryIsDistance(st: Stats, pkt: Packet, isn: u32, i: int, pos: int)
    requires pkt.tcp.Some? && st.tcp_seq_next_ok ==>
      pkt.tcp.value.seqno == Num(isn, i) && st.tcp_seq_next == Num(isn, pos) && -0x8000_0000 <= i - pos < 0x8000_0000
    ensures Retry(st, pkt) == if pkt.tcp.Some? && st.tcp_seq_next_ok then i - pos else 0
  {
    if pkt.tcp.Some? && st.tcp_seq_next_ok { DiffOfNums(isn, i, pos); }
  }

  /**
   * The number expected next of a sender: past a SYN, or past the data of a segment in place, and it stays where it is
   * for one out of place.
   */
  lemma ExpectedNext(st: Stats, pkt: Packet, isn: u32, i: int, pos: int)
    requires pkt.tcp.Some? && pkt.tcp.value.seqno == Num(isn, i)
    requires st.tcp_seq_next_ok ==> st.tcp_seq_next == Num(isn, pos) && -0x8000_0000 <= i - pos < 0x8000_0000
    ensures var end := i + if pkt.tcp.value.syn then 1 else |pkt.msg|;
      && Counted(st, pkt).tcp_seq_next_ok
      && Counted(st, pkt).tcp_seq_next == Num(isn, if !st.tcp_seq_next_ok || i == pos then end else pos)
  {
    NumAdds(isn, i, if pkt.tcp.value.syn then 1 else |pkt.msg|);
    if st.tcp_seq_next_ok { DiffOfNums(isn, i, pos); }
  }

  function StreamFlags(q: Queue, pkt: Packet): set<PktFlag> {
    if pkt.tcp.Some? then
      (if !q.seq_ok && !pkt.tcp.value.syn then {TcpMissedSyn} else {})
      + (if SeqDiff(pkt.tcp.value.seqno, Opened(q, pkt.tcp.value).seqno) > 1 then {TcpFutureSeq} else {})
    else {}
  }

  /** IpConnTrack_track_state: counters, local flags and the state of a connection. */
  function WithState(c: Conn, pkt: Packet): Conn {
    var state := if pkt.tcp.Some? && (pkt.tcp.value.fin || pkt.tcp.value.rst) then Fin else c.state;
    if FromClient in c.pkt_flags then
      c.(state := state, stats_client := Counted(c.stats_client, pkt),
         pkt_flags := c.pkt_flags + (if LocalClient in c.flags then {LocalSrc} else {})
           + (if LocalServer in c.flags then {LocalDst} else {}))
    else if FromServer in c.pkt_flags then
      c.(state := state, stats_server := Counted(c.stats_server, pkt),
         pkt_flags := c.pkt_flags + (if LocalClient in c.flags then {LocalDst} else {})
           + (if LocalServer in c.flags then {LocalSrc} else {}))
    else c.(state := state)
  }

  /** The choice of a queue and IpConnTrack_track_stream on it (ipconntrack.c:246-256). */
  function WithStream(c: Conn, pkt: Packet, buffer: bool): Conn {
    if FromServer in c.pkt_flags then
      c.(pkt_flags := c.pkt_flags + StreamFlags(c.queue_server, pkt),
        queue_server := Track(c.queue_server, pkt, buffer))
    else if FromClient in c.pkt_flags then
      c.(pkt_flags := c.pkt_flags + StreamFlags(c.queue_client, pkt),
        queue_client := Track(c.queue_client, pkt, buffer))
    else c
  }

  /** A connection after a packet attributed to it with the given flags. */
  function Seen(c: Conn, pkt: Packet, flags: set<PktFlag>, buffer: bool): Conn {
    WithStream(WithState(c.(pkt_flags := flags), pkt), pkt, buffer)
  }

  function NewConn(key: Addr, local: set<PktFlag>): Conn {
    Conn(key, Syn, (if LocalDst in local then {LocalServer} else {})
      + (if LocalSrc in local then {LocalClient} else {}),
         {}, NO_STATS, NO_STATS, EMPTY, EMPTY)
  }

  datatype Tracked = Tracked(table: Table, key: Option<Addr>)

  /** IpConnTrack_track_pkt: the table afterwards and the connection the packet was attributed to. */
  function Attribution(t: Table, locals: seq<u32>, pkt: Packet, track_local: bool, buffer: bool): Tracked {
    var key, local := KeyOf(pkt), LocalFlags(locals, pkt);
    if !Trackable(pkt) || (track_local && local == {}) then Tracked(t, None)
    else if Mirror(key) in t then
      Tracked(t[Mirror(key) := Seen(t[Mirror(key)], pkt, local + {FromServer}, buffer)], Some(Mirror(key)))
    else if key in t then
      Tracked(t[key := Seen(t[key], pkt, local + {FromClient}, buffer)], Some(key))
    else
      Tracked(t[key := Seen(NewConn(key, local), pkt, local + {FromClient, First}, buffer)], Some(key))
  }

  // ---------------------------------------------------------------------------------------------
  // Runs
  // ---------------------------------------------------------------------------------------------

  datatype Step = Arrive(pkt: Packet, track_local: bool, buffer: bool) | Delete(key: Addr)

  /** The table with, for each live connection, the number of packets attributed to it since it was created. */
  datatype Run = Run(table: Table, attributed: map<Addr, nat>)

  function StepRun(r: Run, locals: seq<u32>, s: Step): Run {
    match s
    case Arrive(pkt, track_local, buffer) =>
      var t := Attribution(r.table, locals, pkt, track_local, buffer);
      if t.key == None then Run(t.table, r.attributed)
      else
        var k := t.key.value;
        Run(t.table, r.attributed[k := 1 + if k in r.attributed then r.attributed[k] else 0])
    case Delete(key) => Run(r.table - {key}, r.attributed - {key})
  }

  function RunAll(r: Run, locals: seq<u32>, steps: seq<Step>): Run
    decreases |steps|
  {
    if steps == [] then r else RunAll(StepRun(r, locals, steps[0]), locals, steps[1..])
  }

  /** A connection under its own address, alone with its two endpoints, whose counters add up. */
  ghost predicate KeyOk(r: Run, k: Addr)
    requires k in r.table && k in r.attributed
  {
    && (Mirror(k) != k ==> Mirror(k) !in r.table)
    && r.table[k].addr == k
    && r.table[k].stats_client.packets + r.table[k].stats_server.packets == r.attributed[k] >= 1
  }

  ghost predicate RunOk(r: Run) {
    r.attributed.Keys == r.table.Keys && forall k :: k in r.table ==> KeyOk(r, k)
  }

  /** A packet is counted once, on the side of exactly one direction flag. */
  lemma SeenCounts(c: Conn, pkt: Packet, flags: set<PktFlag>, buffer: bool)
    requires (FromClient in flags) != (FromServer in flags)
    ensures var c' := Seen(c, pkt, flags, buffer);
      && c'.addr == c.addr
      && c'.stats_client.packets == c.stats_client.packets + (if FromClient in flags then 1 else 0)
      && c'.stats_server.packets == c.stats_server.packets + (if FromServer in flags then 1 else 0)
      && (FromClient in c'.pkt_flags <==> FromClient in flags)
      && (FromServer in c'.pkt_flags <==> FromServer in flags)
      && (First in c'.pkt_flags <==> First in flags)
  {
    hide Track, SeqDiff, Opened;
  }

  lemma Ignored(t: Table, locals: seq<u32>, pkt: Packet, track_local: bool, buffer: bool)
    ensures !Trackable(pkt) || (track_local && LocalFlags(locals, pkt) == {}) ==>
      Attribution(t, locals, pkt, track_local, buffer) == Tracked(t, None)
  {}

  lemma Attributed(t: Table, locals: seq<u32>, pkt: Packet, track_local: bool, buffer: bool, key: Addr, c: Conn,
        flags: set<PktFlag>)
    requires Trackable(pkt) && !(track_local && LocalFlags(locals, pkt) == {})
    requires var k, local := KeyOf(pkt), LocalFlags(locals, pkt);
      if Mirror(k) in t then key == Mirror(k) && flags == local + {FromServer} && c == t[key]
      else if k in t then key == k && flags == local + {FromClient} && c == t[key]
      else key == k && flags == local + {FromClient, First} && c == NewConn(key, local)
    ensures Attribution(t, locals, pkt, track_local, buffer) ==
      Tracked(t[key := Seen(c, pkt, flags, buffer)], Some(key))
  {
    hide Seen, KeyOf, LocalFlags;
  }

  lemma TwiceUpdated(t: Table, key: Addr, c: Conn, c': Conn)
    ensures t[key := c][key := c'] == t[key := c']
  {}

  lemma NewConnLocal(key: Addr, flags: set<PktFlag>, local: set<PktFlag>)
    requires flags == local + {FromClient, First}
    ensures NewConn(key, flags) == NewConn(key, local)
  {}

  lemma LocalFlagsAreLocal(locals: seq<u32>, pkt: Packet)
    ensures LocalFlags(locals, pkt) <= {LocalSrc, LocalDst}
  {}

  /** Attribution changes at most the one entry it reports, by one packet in one direction. */
  lemma AttributionEffect(t: Table, locals: seq<u32>, pkt: Packet, track_local: bool, buffer: bool)
    ensures var r, key := Attribution(t, locals, pkt, track_local, buffer), KeyOf(pkt);
      && (r.key == None <==> !Trackable(pkt) || (track_local && LocalFlags(locals, pkt) == {}))
      && (r.key == None ==> r.table == t)
      && (r.key.Some? ==>
            var k := r.key.value;
            && k == (if Mirror(key) in t then Mirror(key) else key)
            && r.table == t[k := r.table[k]]
            && var c, c' := if k in t then t[k] else NewConn(k, LocalFlags(locals, pkt)), r.table[k];
               && c'.addr == c.addr
               && c'.stats_client.packets + c'.stats_server.packets ==
                     c.stats_client.packets + c.stats_server.packets + 1
               && (FromServer in c'.pkt_flags <==> Mirror(key) in t)
               && (FromClient in c'.pkt_flags <==> Mirror(key) !in t)
               && (First in c'.pkt_flags <==> k !in t))
  {
    hide Seen;
    var key, local := KeyOf(pkt), LocalFlags(locals, pkt);
    LocalFlagsAreLocal(locals, pkt);
    hide KeyOf, LocalFlags;
    if Mirror(key) in t { SeenCounts(t[Mirror(key)], pkt, local + {FromServer}, buffer); }
    else if key in t { SeenCounts(t[key], pkt, local + {FromClient}, buffer); }
    else { SeenCounts(NewConn(key, local), pkt, local + {FromClient, First}, buffer); }
  }

  lemma StepKeepsOk(r: Run, locals: seq<u32>, s: Step)
    requires RunOk(r)
    ensures RunOk(StepRun(r, locals, s))
  {
    var r' := StepRun(r, locals, s);
    if s.Arrive? { AttributionEffect(r.table, locals, s.pkt, s.track_local, s.buffer); }
    hide Attribution, KeyOf, LocalFlags;
    forall j | j in r'.table ensures KeyOk(r', j) {
      assert Mirror(Mirror(j)) == j;
      if j in r.table { assert KeyOk(r, j); }
      if Mirror(j) in r.table { assert KeyOk(r, Mirror(j)); }
    }
  }

  /** Packets between the same two endpoints as a live connection, in either direction, all reach that connection. */
  lemma FlowReachesOneConnection(r: Run, locals: seq<u32>, k: Addr, pkt: Packet, track_local: bool, buffer: bool)
    requires RunOk(r) && k in r.table && (KeyOf(pkt) == k || KeyOf(pkt) == Mirror(k))
    requires Trackable(pkt) && (track_local ==> LocalFlags(locals, pkt) != {})
    ensures var t := Attribution(r.table, locals, pkt, track_local, buffer);
      && t.key == Some(k)
      && var c := t.table[k];
         && First !in c.pkt_flags
         && (FromClient in c.pkt_flags <==> FromServer !in c.pkt_flags)
         && (k != Mirror(k) ==> (FromClient in c.pkt_flags <==> KeyOf(pkt) == k))
  {
    AttributionEffect(r.table, locals, pkt, track_local, buffer);
    assert Mirror(Mirror(k)) == k && KeyOk(r, k);
    hide Attribution, KeyOf, LocalFlags;
  }

  /** A connection stays until it is deleted, and only its own packets touch it. */
  lemma ConnectionsStay(r: Run, locals: seq<u32>, s: Step, k: Addr)
    requires RunOk(r) && k in r.table && s != Delete(k)
    ensures k in StepRun(r, locals, s).table
    ensures StepRun(r, locals, s).table[k] == r.table[k]
      || (s.Arrive? && (KeyOf(s.pkt) == k || KeyOf(s.pkt) == Mirror(k)))
  {
    if s.Arrive? {
      AttributionEffect(r.table, locals, s.pkt, s.track_local, s.buffer);
      assert Mirror(Mirror(KeyOf(s.pkt))) == KeyOf(s.pkt);
      hide Attribution, KeyOf, LocalFlags;
    }
  }

  /** In every reachable state of the tracker. */
  lemma {:induction false} EveryRunOk(locals: seq<u32>, steps: seq<Step>, r: Run)
    requires RunOk(r)
    ensures RunOk(RunAll(r, locals, steps))
    decreases |steps|
  {
    if steps != [] {
      StepKeepsOk(r, locals, steps[0]);
      EveryRunOk(locals, steps[1..], StepRun(r, locals, steps[0]));
    }
  }

  /** Tracked packets between the two endpoints of k. */
  function FlowPackets(locals: seq<u32>, steps: seq<Step>, k: Addr): nat
    decreases |steps|
  {
    if steps == [] then 0
    else
      var s := steps[0];
      FlowPackets(locals, steps[1..], k) +
      if s.Arrive? && (KeyOf(s.pkt) == k || KeyOf(s.pkt) == Mirror(k)) && Trackable(s.pkt)
        && !(s.track_local && LocalFlags(locals, s.pkt) == {}) then 1 else 0
  }

  /** While a connection lives, its two packet counters grow by exactly the packets of its flow. */
  lemma {:induction false} FlowIsCounted(r: Run, locals: seq<u32>, steps: seq<Step>, k: Addr)
    requires RunOk(r) && k in r.table && Delete(k) !in steps
    ensures var r' := RunAll(r, locals, steps);
      && RunOk(r') && k in r'.table
      && r'.table[k].stats_client.packets + r'.table[k].stats_server.packets
         == r.table[k].stats_client.packets + r.table[k].stats_server.packets + FlowPackets(locals, steps, k)
    decreases |steps|
  {
    if steps != [] {
      var s, r1 := steps[0], StepRun(r, locals, steps[0]);
      StepKeepsOk(r, locals, s);
      ConnectionsStay(r, locals, s, k);
      if s.Arrive? {
        AttributionEffect(r.table, locals, s.pkt, s.track_local, s.buffer);
        assert Mirror(Mirror(k)) == k && Mirror(Mirror(KeyOf(s.pkt))) == KeyOf(s.pkt);
      }
      hide Attribution, KeyOf, LocalFlags;
      FlowIsCounted(r1, locals, steps[1..], k);
    }
  }

  // ---------------------------------------------------------------------------------------------
  // The code
  // ---------------------------------------------------------------------------------------------

  class IpConn {
    var conn_addr: Addr
    var conn_state: State
    var conn_flags: set<ConnFlag>
    var conn_pkt_flags: set<PktFlag>
    var conn_stats_client: Stats
    var conn_stats_server: Stats
    var queue_client: Queue
    var queue_server: Queue

    function View(): Conn
      reads this
    {
      Conn(conn_addr, conn_state, conn_flags, conn_pkt_flags, conn_stats_client, conn_stats_server, queue_client,
        queue_server)
    }

    /** A record for a new connection (ipconntrack.c:217-230). */
    constructor (key: Addr, flags: set<PktFlag>)
      ensures View() == NewConn(key, flags)
    {
      conn_addr, conn_state, conn_pkt_flags := key, Syn, {};
      conn_stats_client, conn_stats_server, queue_client, queue_server := NO_STATS, NO_STATS, EMPTY, EMPTY;
      var conn_flags: set<ConnFlag> := {};
      if LocalDst in flags { conn_flags := conn_flags + {LocalServer}; }
      if LocalSrc in flags { conn_flags := conn_flags + {LocalClient}; }
      this.conn_flags := conn_flags;
    }

    /** IpConnTrack_track_state; also what it stores in the packet as pkt_tcp_seq_diff. */
    method TrackState(pkt: Packet) returns (diff: int)
      modifies this
      ensures View() == WithState(old(View()), pkt)
      ensures var c := old(View());
        diff == if FromClient in c.pkt_flags then Retry(c.stats_client, pkt)
                else if FromServer in c.pkt_flags then Retry(c.stats_server, pkt) else 0
    {
      diff := 0;
      if FromClient in conn_pkt_flags {
        if LocalClient in conn_flags { conn_pkt_flags := conn_pkt_flags + {LocalSrc}; }
        if LocalServer in conn_flags { conn_pkt_flags := conn_pkt_flags + {LocalDst}; }
        conn_stats_client, diff := Count(conn_stats_client, pkt);
      } else if FromServer in conn_pkt_flags {
        if LocalClient in conn_flags { conn_pkt_flags := conn_pkt_flags + {LocalDst}; }
        if LocalServer in conn_flags { conn_pkt_flags := conn_pkt_flags + {LocalSrc}; }
        conn_stats_server, diff := Count(conn_stats_server, pkt);
      }
      if pkt.tcp.Some? {
        if pkt.tcp.value.fin || pkt.tcp.value.rst { conn_state := Fin; }
      }
    }

    /** The counters of one side (ipconntrack.c:285-311). */
    method Count(st0: Stats, pkt: Packet) returns (st: Stats, diff: int)
      ensures st == Counted(st0, pkt) && diff == Retry(st0, pkt)
    {
      diff := 0;
      st := st0.(packets := st0.packets + 1);
      st := st.(bytes := st.bytes + |pkt.msg|);
      if pkt.tcp.Some? {
        var tcp := pkt.tcp.value;
        if !st.tcp_seq_next_ok || tcp.seqno == st.tcp_seq_next {
          if tcp.syn { st := st.(tcp_seq_next := (tcp.seqno + 1) % M); }
          else { st := st.(tcp_seq_next := (tcp.seqno + |pkt.msg|) % M); }
          st := st.(tcp_seq_next_ok := true);
        } else {
          diff := SeqDiff(tcp.seqno, st.tcp_seq_next);
        }
      }
    }

    /** Acknowledgement, window and the first sequence number (ipconntrack.c:430-447). */
    method Open(q: Queue, tcp: Tcp) returns (queue: Queue, missed: bool)
      ensures queue == Opened(q, tcp) && (missed <==> !q.seq_ok && !tcp.syn)
    {
      queue, missed := q, false;
      if tcp.ack { queue := queue.(ack := tcp.ack_seq); }
      queue := queue.(win := tcp.window);
      if !queue.seq_ok {
        queue := queue.(seq_syn := tcp.seqno, seqno := tcp.seqno, seq_ok := true);
        if tcp.syn { queue := queue.(seqno := (queue.seqno + 1) % M); } else { missed := true; }
      }
    }

    /** IpConnTrack_track_stream on the given queue of this connection. */
    method TrackStream(server: bool, pkt: Packet, buffer_stream: bool) returns (diff: int)
      modifies this`conn_pkt_flags, this`queue_client, this`queue_server
      ensures var c := old(View());
        var q := if server then c.queue_server else c.queue_client;
        && View() == (if server then c.(queue_server := Track(q, pkt, buffer_stream))
              else c.(queue_client := Track(q, pkt, buffer_stream)))
             .(pkt_flags := c.pkt_flags + StreamFlags(q, pkt))
        && diff == if pkt.tcp.Some? then SeqDiff(pkt.tcp.value.seqno, Opened(q, pkt.tcp.value).seqno) else 0
    {
      hide SeqDiff, Opened, Contribution;
      var queue := if server then queue_server else queue_client;
      var src := pkt.msg;
      diff := 0;
      var future := false;
      if pkt.tcp.Some? {
        var tcp := pkt.tcp.value;
        var missed;
        queue, missed := Open(queue, tcp);
        if missed { conn_pkt_flags := conn_pkt_flags + {TcpMissedSyn}; }
        diff := SeqDiff(tcp.seqno, queue.seqno);
        if diff > 1 {
          conn_pkt_flags := conn_pkt_flags + {TcpFutureSeq};
          future := true;
        } else {
          src := Contribution(pkt, diff);
          queue := queue.(seqno := (queue.seqno + |src|) % M);
        }
      }
      if buffer_stream && !future { queue := queue.(buf := queue.buf + src); }
      if server { queue_server := queue; } else { queue_client := queue; }
    }
  }

  class IpConnTrack {
    var conns: map<Addr, IpConn>
    const m_local_addrs: seq<u32>

    ghost predicate Valid()
      reads this
    {
      forall j, k :: j in conns && k in conns && j != k ==> conns[j] != conns[k]
    }

    ghost function View(): Table
      reads this, conns.Values
    {
      map k | k in conns :: conns[k].View()
    }

    constructor (locals: seq<u32>)
      ensures Valid() && conns == map[] && View() == map[] && m_local_addrs == locals
    {
      conns, m_local_addrs := map[], locals;
    }

    /** The local-address loop (ipconntrack.c:154-167). */
    method Locals(pkt: Packet) returns (flags: set<PktFlag>)
      ensures flags == LocalFlags(m_local_addrs, pkt)
    {
      flags := {};
      for i := 0 to |m_local_addrs|
        invariant flags == LocalFlags(m_local_addrs[..i], pkt)
      {
        assert m_local_addrs[..i + 1] == m_local_addrs[..i] + [m_local_addrs[i]];
        if pkt.src == m_local_addrs[i] { flags := flags + {LocalSrc}; }
        if pkt.dst == m_local_addrs[i] { flags := flags + {LocalDst}; }
      }
      assert m_local_addrs[..|m_local_addrs|] == m_local_addrs;
    }

    /** State, then stream, of the connection found (ipconntrack.c:242-256). */
    method Attribute(conn: IpConn, ghost key: Addr, pkt: Packet, flags: set<PktFlag>, buffer: bool)
      requires Valid() && key in conns && conns[key] == conn
      modifies conn
      ensures View() == old(View())[key := Seen(old(View())[key], pkt, flags, buffer)]
    {
      hide SeqDiff, Opened, Track, StreamFlags, Counted;
      conn.conn_pkt_flags := flags;
      var _ := conn.TrackState(pkt);
      if FromServer in conn.conn_pkt_flags {
        var _ := conn.TrackStream(true, pkt, buffer);
      } else if FromClient in conn.conn_pkt_flags {
        var _ := conn.TrackStream(false, pkt, buffer);
      }
      assert conn.View() == Seen(old(conn.View()), pkt, flags, buffer);
    }

    method TrackPkt(pkt: Packet, track_local: bool, buffer: bool) returns (conn: IpConn?)
      requires Valid()
      modifies this, conns.Values
      ensures Valid() && fresh(conns.Values - old(conns.Values))
      ensures var t := Attribution(old(View()), m_local_addrs, pkt, track_local, buffer);
        && View() == t.table
        && (conn == null <==> t.key == None)
        && (conn != null ==> t.key.value in conns && conns[t.key.value] == conn)
    {
      hide Seen, KeyOf, Mirror, NewConn, LocalFlags, Attribution;
      ghost var t := View();
      Ignored(t, m_local_addrs, pkt, track_local, buffer);
      if !pkt.ip || (pkt.tcp == None && pkt.udp == None) { return null; }
      var flags := Locals(pkt);
      if track_local && flags == {} { return null; }
      LocalFlagsAreLocal(m_local_addrs, pkt);
      var key;
      conn, key, flags := FindOrCreate(pkt, flags);
      ghost var c := View()[key];
      Attributed(t, m_local_addrs, pkt, track_local, buffer, key, c, flags);
      Attribute(conn, key, pkt, flags, buffer);
      TwiceUpdated(t, key, c, Seen(c, pkt, flags, buffer));
    }

    /** The record of a packet's connection, found in either orientation or made (ipconntrack.c:174-234). */
    method FindOrCreate(pkt: Packet, local: set<PktFlag>) returns (conn: IpConn, key: Addr, flags: set<PktFlag>)
      requires Valid() && local <= {LocalSrc, LocalDst}
      modifies this
      ensures Valid() && key in conns && conns[key] == conn && fresh(conns.Values - old(conns.Values))
      ensures View() == old(View())[key := conn.View()] && View()[key] == conn.View()
      ensures var t, k := old(View()), KeyOf(pkt);
        if Mirror(k) in t then key == Mirror(k) && flags == local + {FromServer} && conn.View() == t[key]
        else if k in t then key == k && flags == local + {FromClient} && conn.View() == t[key]
        else key == k && flags == local + {FromClient, First} && conn.View() == NewConn(key, local)
    {
      hide KeyOf;
      flags := local + {FromServer};
      key := Mirror(KeyOf(pkt));
      if key in conns { return conns[key], key, flags; }
      flags := flags - {FromServer} + {FromClient};
      assert flags == local + {FromClient};
      key := KeyOf(pkt);
      if key in conns { return conns[key], key, flags; }
      flags := flags + {First};
      assert flags == local + {FromClient, First};
      conn := new IpConn(key, flags);
      NewConnLocal(key, flags, local);
      conns := conns[key := conn];
    }

    /** IpConnTrack_conn_delete on a connection of the table. */
    method ConnDelete(key: Addr)
      requires Valid() && key in conns
      modifies this
      ensures Valid() && View() == old(View()) - {key} && conns.Values <= old(conns.Values)
    {
      conns := conns - {key};
    }
  }
}
