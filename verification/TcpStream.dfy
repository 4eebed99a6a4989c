/**
 * Reassembly of one direction of a TCP connection (ipconntrack.c:409-476, netpkt.c:718-721; section 3.3 of RFC 793).
 */
module TcpStream {
  import opened Bytes

  const M := 0x1_0000_0000
  type u32 = x: int | 0 <= x < 0x1_0000_0000

  datatype Tcp = Tcp(source: int, dest: int, seqno: u32, ack_seq: u32, window: int, syn: bool, ack: bool, fin: bool,
    rst: bool)
  datatype Udp = Udp(source: int, dest: int)

  /** A parsed packet: msg is the payload, before the octet in front of it (the end of the last header). */
  datatype Packet = Packet(ip: bool, src: u32, dst: u32, p: int, tcp: Option<Tcp>, udp: Option<Udp>, msg: seq<byte>,
    before: byte)

  /** IpConnTcpQueue: the fields the tracker uses. */
  datatype Queue = Queue(seq_ok: bool, ack: u32, seqno: u32, seq_syn: u32, win: int, buf: seq<byte>)

  const EMPTY := Queue(false, 0, 0, 0, 0, [])

  /** tcp_seq_diff: the 32-bit difference read as a signed int. */
  function SeqDiff(a: u32, b: u32): (d: int)
    ensures -0x8000_0000 <= d < 0x8000_0000 && (b + d) % M == a
  {
    var d := (a - b) % M;
    if d >= 0x8000_0000 then d - M else d
  }

  /** The queue after the acknowledgement and first-segment bookkeeping of IpConnTrack_track_stream. */
  function Opened(q: Queue, t: Tcp): Queue {
    var q1 := q.(ack := if t.ack then t.ack_seq else q.ack, win := t.window);
    if q1.seq_ok then q1
    else q1.(seq_syn := t.seqno, seqno := if t.syn then (t.seqno + 1) % M else t.seqno, seq_ok := true)
  }

  /** The payload octets a segment contributes: everything from diff octets into it; one octet early when diff is 1. */
  function Contribution(pkt: Packet, diff: int): seq<byte>
    requires diff <= 1
  {
    if |pkt.msg| + diff <= 0 then []
    else if diff == 1 then [pkt.before] + pkt.msg
    else pkt.msg[-diff..]
  }

  /** IpConnTrack_track_stream on a queue, with the stream buffered or not. */
  function Track(q: Queue, pkt: Packet, buffer: bool): Queue {
    if pkt.tcp.Some? then
      var q1 := Opened(q, pkt.tcp.value);
      var diff := SeqDiff(pkt.tcp.value.seqno, q1.seqno);
      if diff > 1 then q1
      else
        var data := Contribution(pkt, diff);
        q1.(seqno := (q1.seqno + |data|) % M, buf := if buffer then q1.buf + data else q1.buf)
    else q.(buf := if buffer then q.buf + pkt.msg else q.buf)
  }

  // ---------------------------------------------------------------------------------------------
  // The stream a queue follows
  // ---------------------------------------------------------------------------------------------

  /** Sequence number of octet p of a stream whose first octet is numbered isn. */
  function Num(isn: u32, p: int): u32 {
    (isn + p) % M
  }

  /**
   * The packet is numbered i octets into the stream and carries what stands there; an empty one carries nothing and
   * may be numbered anywhere, before the stream or behind its end. A SYN is numbered -1, and any data in it begins the
   * stream.
   */
  ghost predicate Carries(pkt: Packet, stream: seq<byte>, isn: u32, i: int) {
    && pkt.tcp.Some? && pkt.tcp.value.seqno == Num(isn, i)
    && if pkt.tcp.value.syn then i == -1 && pkt.msg <= stream
       else pkt.msg == [] || (0 <= i && i + |pkt.msg| <= |stream| && pkt.msg == stream[i..i + |pkt.msg|])
  }

  /** The queue holds the stream from octet start to octet pos, and expects octet pos next. */
  ghost predicate Follows(q: Queue, stream: seq<byte>, isn: u32, start: nat, pos: nat) {
    q.seq_ok && start <= pos <= |stream| && q.buf == stream[start..pos] && q.seqno == Num(isn, pos)
  }

  lemma DiffOfNums(isn: u32, i: int, pos: int)
    requires -0x8000_0000 <= i - pos < 0x8000_0000
    ensures SeqDiff(Num(isn, i), Num(isn, pos)) == i - pos
  {
    var d, a, b := SeqDiff(Num(isn, i), Num(isn, pos)), (isn + i) / M, (isn + pos) / M;
    assert isn + i == M * a + Num(isn, i) && isn + pos == M * b + Num(isn, pos);
    var c := (Num(isn, pos) + d) / M;
    assert Num(isn, pos) + d == M * c + Num(isn, i);
    assert d - (i - pos) == M * (c - a + b);
  }

  lemma NumAdds(isn: u32, p: int, n: int)
    ensures (Num(isn, p) + n) % M == Num(isn, p + n)
  {
    var a := (isn + p) / M;
    assert isn + p == M * a + Num(isn, p);
    assert isn + (p + n) == M * a + (Num(isn, p) + n);
    ModShift(Num(isn, p) + n, a);
  }

  lemma ModShift(x: int, k: int)
    ensures (M * k + x) % M == x % M
  {
    var q := x / M;
    assert M * k + x == M * (k + q) + x % M;
  }

  /** What a segment at octet i contributes to a queue expecting octet pos. */
  lemma ContributionIs(pkt: Packet, stream: seq<byte>, isn: u32, pos: nat, i: int)
    requires pos <= |stream| && Carries(pkt, stream, isn, i) && !pkt.tcp.value.syn && i <= pos + 1
    ensures var data, end := Contribution(pkt, i - pos), i + |pkt.msg|;
      && (i <= pos ==> data == if end > pos then stream[pos..end] else [])
      && (i == pos + 1 ==> |data| == end - pos)
      && (i == pos + 1 && end <= |stream| ==> (data == stream[pos..end] <==> pkt.before == stream[pos]))
  {
    var data, end := Contribution(pkt, i - pos), i + |pkt.msg|;
    if i == pos + 1 && end <= |stream| {
      assert data[0] == pkt.before && data[1..] == pkt.msg;
      assert stream[pos..end][0] == stream[pos] && stream[pos..end][1..] == pkt.msg;
      if pkt.before == stream[pos] { assert data == [data[0]] + data[1..] == stream[pos..end]; }
    }
  }

  /** Track on a queue that is open: the diff test, then the contribution appended. */
  lemma TrackOpen(q: Queue, pkt: Packet)
    requires q.seq_ok && pkt.tcp.Some?
    ensures var diff, r := SeqDiff(pkt.tcp.value.seqno, q.seqno), Track(q, pkt, true);
      && r.seq_ok
      && (diff > 1 ==> r.seqno == q.seqno && r.buf == q.buf)
      && (diff <= 1 ==>
            r.seqno == (q.seqno + |Contribution(pkt, diff)|) % M && r.buf == q.buf + Contribution(pkt, diff))
  {
    hide SeqDiff, Contribution;
  }

  /** A first segment that is not a SYN starts the buffer where it lies. */
  lemma FirstSegment(stream: seq<byte>, isn: u32, pkt: Packet, i: nat)
    requires Carries(pkt, stream, isn, i) && !pkt.tcp.value.syn && i <= |stream|
    ensures Follows(Track(EMPTY, pkt, true), stream, isn, i, i + |pkt.msg|)
  {
    hide SeqDiff, Contribution;
    DiffOfNums(isn, i, i);
    ContributionIs(pkt, stream, isn, i, i);
    assert stream[i..i] == [];
    NumAdds(isn, i, |pkt.msg|);
    assert [] + pkt.msg == pkt.msg;
  }

  /** A bare SYN starts the buffer at the first octet of the stream. */
  lemma FirstSyn(stream: seq<byte>, isn: u32, pkt: Packet)
    requires pkt.tcp.Some? && pkt.tcp.value.syn && pkt.tcp.value.seqno == Num(isn, -1) && pkt.msg == []
    ensures Follows(Track(EMPTY, pkt, true), stream, isn, 0, 0)
  {
    NumAdds(isn, -1, 1);
    DiffOfNums(isn, -1, 0);
  }

  /** The first octet of data in a SYN is dropped: such a segment is followed exactly when it has none. */
  lemma SynData(stream: seq<byte>, isn: u32, pkt: Packet)
    requires pkt.tcp.Some? && pkt.tcp.value.syn && pkt.tcp.value.seqno == Num(isn, -1) && pkt.msg <= stream
    requires |pkt.msg| < 0x8000_0000
    ensures Follows(Track(EMPTY, pkt, true), stream, isn, 0, |pkt.msg|) <==> pkt.msg == []
    ensures pkt.msg != [] ==> Track(EMPTY, pkt, true).buf == pkt.msg[1..]
  {
    NumAdds(isn, -1, 1);
    DiffOfNums(isn, -1, 0);
    if pkt.msg == [] { FirstSyn(stream, isn, pkt); }
  }

  /** Where the queue stands after a segment at octet i, if it still follows the stream. */
  function Next(pos: nat, pkt: Packet, i: int): nat {
    var end := i + |pkt.msg|;
    if i > pos + 1 || end <= pos then pos else end
  }

  /**
   * Any segment but a SYN less than 2^31 away, early, late, repeated, overlapping or empty: the queue still follows the
   * stream exactly when the segment is not one octet ahead, or the octet in front of its payload is the one missing.
   */
  lemma SegmentKeepsStream(q: Queue, stream: seq<byte>, isn: u32, start: nat, pos: nat, pkt: Packet, i: int)
    requires Follows(q, stream, isn, start, pos) && Carries(pkt, stream, isn, i) && !pkt.tcp.value.syn
    requires -0x8000_0000 <= i - pos < 0x8000_0000
    ensures Follows(Track(q, pkt, true), stream, isn, start, Next(pos, pkt, i)) <==>
      i != pos + 1 || (pos < |stream| && pkt.before == stream[pos])
  {
    hide Track, Contribution, SeqDiff;
    DiffOfNums(isn, i, pos);
    TrackOpen(q, pkt);
    if i <= pos + 1 {
      var data, end := Contribution(pkt, i - pos), i + |pkt.msg|;
      ContributionIs(pkt, stream, isn, pos, i);
      NumAdds(isn, pos, |data|);
      if end <= pos {
        assert q.buf + [] == q.buf;
      } else if end <= |stream| {
        Appending(stream, start, pos, end, data);
      }
    }
  }

  /**
   * A repeated SYN: without data it never disturbs the queue. Data in it is taken to begin at octet -1, so it is
   * harmless exactly when it ends before the octet expected, or the stream repeats itself there.
   */
  lemma SynKeepsStream(q: Queue, stream: seq<byte>, isn: u32, start: nat, pos: nat, pkt: Packet)
    requires Follows(q, stream, isn, start, pos) && Carries(pkt, stream, isn, -1) && pkt.tcp.value.syn
      && pos < 0x8000_0000
    ensures var n := |pkt.msg|;
      Follows(Track(q, pkt, true), stream, isn, start, Next(pos, pkt, -1)) <==>
        n <= pos + 1 || stream[pos + 1..n] == stream[pos..n - 1]
  {
    hide Track, SeqDiff;
    DiffOfNums(isn, -1, pos);
    TrackOpen(q, pkt);
    var data, n := Contribution(pkt, -1 - pos), |pkt.msg|;
    NumAdds(isn, pos, |data|);
    if n <= pos + 1 {
      assert q.buf + [] == q.buf;
    } else {
      assert data == stream[pos + 1..n];
      Appending(stream, start, pos, n - 1, data);
    }
  }

  /**
   * The end of an ordinary connection: the FIN is not counted, so the empty acknowledgement after it is one octet
   * ahead, and whatever octet stands in front of its payload is appended to a stream that was complete.
   */
  lemma AckAfterFin(q: Queue, stream: seq<byte>, isn: u32, start: nat, pkt: Packet)
    requires Follows(q, stream, isn, start, |stream|)
    requires pkt.tcp.Some? && !pkt.tcp.value.syn && pkt.tcp.value.seqno == Num(isn, |stream| + 1) && pkt.msg == []
    ensures Track(q, pkt, true).buf == stream[start..] + [pkt.before]
    ensures forall pos :: !Follows(Track(q, pkt, true), stream, isn, start, pos)
  {
    hide Track, SeqDiff;
    DiffOfNums(isn, |stream| + 1, |stream|);
    TrackOpen(q, pkt);
    assert stream[start..|stream|] == stream[start..];
    assert |Track(q, pkt, true).buf| == |stream| - start + 1;
  }

  /** One octet of data, its FIN and the acknowledgement of the other side's FIN leave two octets in the buffer. */
  lemma FinIsNotCounted(data: byte, before: byte)
    ensures var tcp := Tcp(1, 2, 101, 0, 512, false, true, false, false);
      var q := Queue(true, 0, 101, 99, 512, []);
      var fin := Packet(true, 1, 2, 6, Some(tcp.(fin := true)), None, [data], 0);
      var ack := Packet(true, 1, 2, 6, Some(tcp.(seqno := 103)), None, [], before);
      && Follows(q, [data], 101, 0, 0)
      && Track(q, fin, true).buf == [data]
      && Track(Track(q, fin, true), ack, true).buf == [data, before]
  {}

  lemma Appending(stream: seq<byte>, start: nat, pos: nat, end: nat, data: seq<byte>)
    requires start <= pos <= end <= |stream| && |data| == end - pos
    ensures stream[start..pos] + data == stream[start..end] <==> data == stream[pos..end]
  {
    var left, right := stream[start..pos] + data, stream[start..end];
    assert right[pos - start..] == stream[pos..end] && left[pos - start..] == data;
    if data == stream[pos..end] { assert left == right; }
  }

  function TrackAll(q: Queue, pkts: seq<Packet>): Queue
    decreases |pkts|
  {
    if pkts == [] then q else TrackAll(Track(q, pkts[0], true), pkts[1..])
  }

  /** A segment within reach that is neither one octet ahead nor a SYN with data not yet in the queue. */
  ghost predicate Harmless(pkt: Packet, stream: seq<byte>, isn: u32, pos: nat, i: int) {
    && Carries(pkt, stream, isn, i) && -0x8000_0000 <= i - pos < 0x8000_0000
    && if pkt.tcp.value.syn then |pkt.msg| <= pos + 1 else i != pos + 1
  }

  /**
   * Segments of the stream with the octets they are numbered for, repeated SYNs among them, each harmless on arrival.
   */
  ghost predicate Arrivals(pkts: seq<Packet>, at: seq<int>, stream: seq<byte>, isn: u32, pos: nat)
    decreases |pkts|
  {
    |pkts| == |at| && (pkts != [] ==>
      && Harmless(pkts[0], stream, isn, pos, at[0])
      && Arrivals(pkts[1..], at[1..], stream, isn, Next(pos, pkts[0], at[0])))
  }

  lemma HarmlessKeepsStream(q: Queue, stream: seq<byte>, isn: u32, start: nat, pos: nat, pkt: Packet, i: int)
    requires Follows(q, stream, isn, start, pos) && Harmless(pkt, stream, isn, pos, i)
    ensures Follows(Track(q, pkt, true), stream, isn, start, Next(pos, pkt, i)) && Next(pos, pkt, i) >= pos
  {
    hide Track, Follows;
    if pkt.tcp.value.syn {
      SynKeepsStream(q, stream, isn, start, pos, pkt);
    } else {
      SegmentKeepsStream(q, stream, isn, start, pos, pkt, i);
    }
  }

  /** In any order of arrival the buffer stays one contiguous run of the stream, numbered across wrap-around. */
  lemma {:induction false} StreamIsContiguous(q: Queue, pkts: seq<Packet>, at: seq<int>, stream: seq<byte>, isn: u32,
                                              start: nat, pos: nat)
    returns (end: nat)
    requires Follows(q, stream, isn, start, pos) && Arrivals(pkts, at, stream, isn, pos)
    ensures end >= pos && Follows(TrackAll(q, pkts), stream, isn, start, end)
    ensures TrackAll(q, pkts).seqno == Num(isn, start + |TrackAll(q, pkts).buf|)
    decreases |pkts|
  {
    hide Track, Harmless, Num;
    end := pos;
    if pkts != [] {
      HarmlessKeepsStream(q, stream, isn, start, pos, pkts[0], at[0]);
      end := StreamIsContiguous(Track(q, pkts[0], true), pkts[1..], at[1..], stream, isn, start,
        Next(pos, pkts[0], at[0]));
    }
  }

  /** The first segment of a connection that opens an empty queue right: a bare SYN, or one of the stream. */
  ghost predicate Opens(pkt: Packet, stream: seq<byte>, isn: u32, i: int) {
    Carries(pkt, stream, isn, i) && if pkt.tcp.value.syn then pkt.msg == [] else 0 <= i <= |stream|
  }

  /**
   * A whole connection, tracked from its first segment on: after arrivals in any order the buffer is one contiguous run
   * of the stream, from its beginning when the first segment was the SYN.
   */
  lemma ConnectionIsContiguous(pkts: seq<Packet>, at: seq<int>, stream: seq<byte>, isn: u32)
    returns (start: nat, end: nat)
    requires |pkts| == |at| > 0 && Opens(pkts[0], stream, isn, at[0])
    requires Arrivals(pkts[1..], at[1..], stream, isn, if pkts[0].tcp.value.syn then 0 else at[0] + |pkts[0].msg|)
    ensures start == if pkts[0].tcp.value.syn then 0 else at[0]
    ensures start + |pkts[0].msg| <= end && Follows(TrackAll(EMPTY, pkts), stream, isn, start, end)
  {
    var pkt := pkts[0];
    start := if pkt.tcp.value.syn then 0 else at[0];
    if pkt.tcp.value.syn { FirstSyn(stream, isn, pkt); } else { FirstSegment(stream, isn, pkt, start); }
    hide Track, Follows, Arrivals;
    end := StreamIsContiguous(Track(EMPTY, pkt, true), pkts[1..], at[1..], stream, isn, start, start + |pkt.msg|);
  }
}
