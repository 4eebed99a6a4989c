/** The bidirectional buffered pipe between two sockets (fdselect_pipe.c). */
module Pipe {
  import opened Bytes
  import opened Kernel
  import F = FdSelect

  /** What is registered with the selector: a handler and the index of its socket in the pipe. */
  datatype Handler = SockRead(index: nat) | SockWrite(index: nat)

  /** What the kernel answers to a recv: octets, of which those that fit are taken, the stream's end, or nothing yet. */
  datatype Received = Octets(data: seq<byte>) | Ended | NothingYet

  /** The octets one round of recv calls brings into a buffer with this much room. */
  function Arriving(room: nat, recvs: seq<Received>): (r: seq<byte>)
    ensures |r| <= room
    decreases |recvs|
  {
    if room == 0 || recvs == [] || !recvs[0].Octets? then []
    else
      var data := Fitting(recvs[0].data, room);
      if data == [] then [] else data + Arriving(room - |data|, recvs[1..])
  }

  function Fitting(data: seq<byte>, room: nat): (r: seq<byte>)
    ensures r <= data && |r| <= room
  {
    if |data| <= room then data else data[..room]
  }

  /** The round ends with the end of the stream or an error. */
  predicate Ending(room: nat, recvs: seq<Received>)
    decreases |recvs|
  {
    room > 0 && recvs != [] &&
    match recvs[0]
    case Octets(data) => Fitting(data, room) == [] || Ending(room - |Fitting(data, room)|, recvs[1..])
    case Ended => true
    case NothingYet => false
  }

  /** How many of len buffered octets one round of send calls takes. */
  function Sending(len: nat, sends: seq<Taken>): (n: nat)
    ensures n <= len
    decreases |sends|
  {
    if len == 0 || sends == [] || !sends[0].Took? then 0
    else
      var n := if sends[0].count > len then len else sends[0].count;
      if n == 0 then 0 else n + Sending(len - n, sends[1..])
  }

  /** The round ends with a write error; taking nothing counts as one. */
  predicate Failing(len: nat, sends: seq<Taken>)
    decreases |sends|
  {
    len > 0 && sends != [] &&
    match sends[0]
    case Took(count) => count == 0 || (count < len && Failing(len - count, sends[1..]))
    case Refused => true
    case WouldBlock => false
  }

  /** A handler call of the selector with all the kernel answers in it. */
  datatype Call =
    | ReadCall(index: nat, recvs: seq<Received>, sends: seq<Taken>)
    | WriteCall(index: nat, sends: seq<Taken>)

  /** One side: the fields of fdselect_pipe_sock_t and, as ghosts, what the kernel did with the socket. */
  class PipeSock {
    const index: nat
    const fd: int
    const buf: array<byte>
    const max: nat
    var err_read: bool
    var err_write: bool
    var select_read: bool
    var select_write: bool
    var err_read_done: bool
    var off: nat
    var len: nat
    ghost var received: seq<byte>   // every octet recv returned so far
    ghost var sent: seq<byte>       // every octet send accepted so far
    ghost var recvBlocked: bool     // the last recv would have blocked
    ghost var sendBlocked: bool     // the last send would have blocked
    ghost var shutRecv: nat         // shutdowns of the receiving side
    ghost var shutSend: nat         // shutdowns of the sending side

    constructor (index: nat, fd: int, buf: array<byte>, max: nat)
      requires max <= buf.Length
      ensures this.index == index && this.fd == fd && this.buf == buf && this.max == max
      ensures !err_read && !err_write && !select_read && !select_write && !err_read_done && off == len == 0
      ensures received == sent == [] && shutRecv == shutSend == 0
    {
      this.index, this.fd, this.buf, this.max := index, fd, buf, max;
      err_read, err_write, select_read, select_write, err_read_done := false, false, false, false, false;
      off, len := 0, 0;
      received, sent, recvBlocked, sendBlocked, shutRecv, shutSend := [], [], false, false, 0, 0;
    }

    ghost predicate Room()
      reads this`off, this`len
    {
      off + len < max
    }

    /** Received but not yet sent on. */
    ghost function Pending(): seq<byte>
      requires off + len <= buf.Length
      reads this`off, this`len, buf
    {
      buf[off..off + len]
    }

    ghost predicate BufOk()
      reads this`off, this`len
    {
      0 < max <= buf.Length && off + len <= max && (len == 0 ==> off == 0)
    }

    /** recv with this answer of the kernel; n <= 0 is the end of the stream or an error, unless it would block. */
    method Recv(at: nat, room: nat, answer: Received) returns (n: int, wouldblock: bool)
      requires 0 < room && at + room <= buf.Length
      modifies buf, this`received, this`recvBlocked
      ensures wouldblock == recvBlocked == answer.NothingYet?
      ensures var data := if answer.Octets? then Fitting(answer.data, room) else [];
        && n == (if answer.NothingYet? then -1 else |data|)
        && buf[..] == Splice(old(buf[..]), at, data) && received == old(received) + data
    {
      var data := if answer.Octets? then Fitting(answer.data, room) else [];
      wouldblock := answer.NothingYet?;
      n := if wouldblock then -1 else |data|;
      forall i | 0 <= i < |data| { buf[at + i] := data[i]; }
      recvBlocked, received := wouldblock, received + data;
    }

    /** send with this answer of the kernel; n <= 0 is an error, unless it would have blocked. */
    method Send(ghost data: seq<byte>, size: nat, answer: Taken) returns (n: int, wouldblock: bool)
      requires |data| == size
      modifies this`sent, this`sendBlocked
      ensures wouldblock == sendBlocked == answer.WouldBlock?
      ensures n == match answer case Took(count) => if count > size then size else count case _ => -1
      ensures sent == old(sent) + if n > 0 then data[..n] else []
    {
      wouldblock := answer.WouldBlock?;
      n := match answer case Took(count) => if count > size then size else count case _ => -1;
      sendBlocked := wouldblock;
      if n > 0 { sent := sent + data[..n]; }
    }
  }

  /** Conservation in the direction from x to y. */
  ghost predicate Conserved(x: PipeSock, y: PipeSock)
    requires x.off + x.len <= x.buf.Length
    reads x`off, x`len, x`received, y`sent, x.buf
  {
    y.sent + x.Pending() == x.received
  }

  ghost predicate ReadArmed(x: PipeSock)
    reads x`off, x`len, x`select_read, x`err_read
  {
    x.select_read <==> x.Room() && !x.err_read
  }

  ghost predicate WriteArmed(x: PipeSock, y: PipeSock)
    reads x`len, y`select_write, y`err_write
  {
    y.select_write <==> x.len > 0 && !y.err_write
  }

  /** y's sending side has been shut down exactly when x's stream has ended and nothing of it is left to send. */
  ghost predicate HalfClosed(x: PipeSock, y: PipeSock)
    reads x`err_read_done, x`err_read, x`len, y`shutSend, y`err_write
  {
    && y.shutSend == (if x.err_read_done then 1 else 0)
    && (x.err_read_done <==> x.err_read && (x.len == 0 || y.err_write))
  }

  /** x's receiving side has been shut down exactly when its stream has ended or what it sent could not be written. */
  ghost predicate ShutForReading(x: PipeSock, y: PipeSock)
    reads x`shutRecv, x`err_read, y`err_write
  {
    x.shutRecv > 0 <==> x.err_read || y.err_write
  }

  /** The registration of a socket waited on for reading and for writing as told. */
  function Want(fd: int, index: nat, reading: bool, writing: bool): Option<F.Entry<Handler>> {
    if !reading && !writing then None
    else Some(F.Entry(fd, (if reading then {F.Read} else {}) + (if writing then {F.Write} else {}),
                      if reading then Some(SockRead(index)) else None,
                      if writing then Some(SockWrite(index)) else None))
  }

  lemma WantUpdates(fd: int, index: nat, reading: bool, writing: bool)
    ensures F.Updated(Want(fd, index, reading, writing), fd, {F.Read}, Some(SockRead(index))) ==
      Want(fd, index, true, writing)
    ensures F.Updated(Want(fd, index, reading, writing), fd, {F.Read}, None) == Want(fd, index, false, writing)
    ensures F.Updated(Want(fd, index, reading, writing), fd, {F.Write}, Some(SockWrite(index))) ==
      Want(fd, index, reading, true)
    ensures F.Updated(Want(fd, index, reading, writing), fd, {F.Write}, None) == Want(fd, index, reading, false)
    ensures F.Updated(Want(fd, index, reading, writing), fd, F.ALL, None) == None == Want(fd, index, false, false)
  {
    F.UnsetAll(Want(fd, index, reading, writing), fd);
    var r, w := if reading then {F.Read} else {}, if writing then {F.Write} else {};
    assert r + w + {F.Read} == {F.Read} + w && r + w + {F.Write} == r + {F.Write};
    assert r + w - {F.Read} == {} + w && r + w - {F.Write} == r + {};
  }

  /** The selector waits for exactly what the flags say, with the right handlers. */
  ghost predicate Wired(sel: F.FdSelect<Handler>, x: PipeSock)
    reads sel, x`select_read, x`err_read, x`select_write
  {
    sel.Reg(x.fd) == Want(x.fd, x.index, x.select_read && !x.err_read, x.select_write)
  }

  class Pipe {
    const sel: F.FdSelect<Handler>
    const a: PipeSock
    const b: PipeSock
    const callback: bool
    ghost var closedReports: nat
    ghost var closings: nat   // how often both sockets were closed

    ghost predicate Apart()
      reads this, a, b
    {
      a != b && a.buf != b.buf && a.fd != b.fd && a.index == 0 && b.index == 1
    }

    ghost predicate Half(x: PipeSock, y: PipeSock)
      reads x, y, x.buf, sel
    {
      && x.BufOk() && Conserved(x, y) && ReadArmed(x) && WriteArmed(x, y) && HalfClosed(x, y) && Wired(sel, x)
      && ShutForReading(x, y)
    }

    ghost predicate Valid()
      reads this, a, b, a.buf, b.buf, sel
    {
      && Apart() && sel.Valid() && Half(a, b) && Half(b, a)
      && (if Closed() then 1 <= closedReports <= (if a.err_write || b.err_write then 2 else 1) else closedReports == 0)
      && closings == if callback then 0 else closedReports
    }

    predicate Closed()
      reads this, a, b
    {
      !a.select_read && !a.select_write && !b.select_read && !b.select_write
    }

    ghost predicate Sides(client: PipeSock, peer: PipeSock)
      reads this
    {
      (client == a && peer == b) || (client == b && peer == a)
    }

    /** fdselect_pipe_init. */
    constructor (sel: F.FdSelect<Handler>, callback: bool,
                 sock0: int, buf0: array<byte>, max0: nat, sock1: int, buf1: array<byte>, max1: nat)
      requires sel.Valid() && sock0 != sock1 && sel.Reg(sock0) == None && sel.Reg(sock1) == None
      requires buf0 != buf1 && 0 < max0 <= buf0.Length && 0 < max1 <= buf1.Length
      modifies sel
      ensures Valid() && fresh(a) && fresh(b)
      ensures a.buf == buf0 && b.buf == buf1 && a.fd == sock0 && b.fd == sock1 && this.sel == sel
      ensures a.max == max0 && b.max == max1 && this.callback == callback && Untouched(a) && Untouched(b)
    {
      hide Conserved, ReadArmed, WriteArmed, HalfClosed, Want, Wired;
      this.sel, this.callback := sel, callback;
      a := new PipeSock(0, sock0, buf0, max0);
      b := new PipeSock(1, sock1, buf1, max1);
      closedReports, closings := 0, 0;
      new;
      StartBoth();
      Opens(a, b);
      Opens(b, a);
    }

    /** Both sides wait for something to read. */
    method StartBoth()
      requires sel.Valid() && a != b && a.fd != b.fd && sel.Reg(a.fd) == None && sel.Reg(b.fd) == None
      requires !a.select_read && !a.select_write && !a.err_read && !b.select_read && !b.select_write && !b.err_read
      modifies a`select_read, b`select_read, sel
      ensures sel.Valid() && Wired(sel, a) && Wired(sel, b) && a.select_read && b.select_read
    {
      StartReading(a);
      StartReading(b);
    }

    /** Halves that only read so far, with nothing buffered. */
    lemma Opens(x: PipeSock, y: PipeSock)
      requires Untouched(x) && Untouched(y)
      ensures Conserved(x, y) && ReadArmed(x) && WriteArmed(x, y) && HalfClosed(x, y) && ShutForReading(x, y)
    {}

    ghost predicate Untouched(x: PipeSock)
      reads x
    {
      && x.BufOk() && x.off == x.len == 0 && x.received == x.sent == [] && x.shutRecv == x.shutSend == 0
      && !x.err_read && !x.err_write && !x.err_read_done && x.select_read && !x.select_write
    }

    /** fdselect_pipe_close. */
    method Close(close_socks: bool)
      requires Apart() && sel.Valid()
      modifies sel, this`closings
      ensures sel.Valid() && sel.Reg(a.fd) == None && sel.Reg(b.fd) == None
      ensures closings == old(closings) + if close_socks then 1 else 0
    {
      F.UnsetAll(sel.Reg(a.fd), a.fd);
      F.UnsetAll(sel.Reg(b.fd), b.fd);
      sel.Unset(a.fd, F.ALL);
      sel.Unset(b.fd, F.ALL);
      if close_socks { closings := closings + 1; }
    }

    /** fdselect_pipe_closed_callback: reports CLOSED, or closes the sockets when there is nobody to tell. */
    method ClosedCallback()
      requires Apart() && sel.Valid() && Wired(sel, a) && Wired(sel, b)
      modifies sel, this`closings, this`closedReports
      ensures sel.Valid() && Wired(sel, a) && Wired(sel, b)
      ensures closedReports == old(closedReports) + if Closed() then 1 else 0
      ensures closings == old(closings) + if Closed() && !callback then 1 else 0
    {
      if Closed() {
        closedReports := closedReports + 1;
        if !callback { Close(true); }
      }
    }

    /** One send, and on success the advance over what it accepted (fdselect_pipe.c:221, 260-265). */
    method Forward(client: PipeSock, peer: PipeSock, answer: Taken) returns (i: int, wouldblock: bool)
      requires client != peer && client.buf != peer.buf
      requires peer.BufOk() && peer.len > 0 && Conserved(peer, client)
      modifies client`sent, client`sendBlocked, peer`off, peer`len
      ensures peer.BufOk() && Conserved(peer, client)
      ensures wouldblock == client.sendBlocked == answer.WouldBlock?
      ensures i == match answer case Took(count) => if count > old(peer.len) then old(peer.len) else count case _ => -1
      ensures if i <= 0 then peer.off == old(peer.off) && peer.len == old(peer.len) && client.sent == old(client.sent)
              else peer.len == old(peer.len) - i && peer.off + peer.len <= old(peer.off + peer.len)
    {
      ghost var data := peer.Pending();
      i, wouldblock := client.Send(data, peer.len, answer);
      if i <= 0 { return; }
      peer.off := peer.off + i;
      peer.len := peer.len - i;
      ghost var rest := peer.Pending();
      assert data == data[..i] + rest;
      if peer.len == 0 { peer.off := 0; }
      assert peer.Pending() == rest;
    }

    /** Everybody else's registration is as it was. */
    twostate predicate OthersKept(fd: int)
      reads this, sel
    {
      forall other :: other != fd ==> sel.Reg(other) == old(sel.Reg(other))
    }

    /** FDSELECT_READ on, unless it already is. */
    method StartReading(x: PipeSock)
      requires sel.Valid() && Wired(sel, x) && !x.err_read
      modifies x`select_read, sel
      ensures sel.Valid() && Wired(sel, x) && x.select_read && OthersKept(x.fd)
    {
      hide Want, F.Updated;
      WantUpdates(x.fd, x.index, x.select_read, x.select_write);
      if !x.select_read {
        sel.Set(x.fd, {F.Read}, Some(SockRead(x.index)));
        x.select_read := true;
      }
    }

    method StopReading(x: PipeSock)
      requires sel.Valid() && Wired(sel, x)
      modifies x`select_read, sel
      ensures sel.Valid() && Wired(sel, x) && !x.select_read && OthersKept(x.fd)
    {
      hide Want, F.Updated;
      WantUpdates(x.fd, x.index, x.select_read && !x.err_read, x.select_write);
      if x.select_read {
        sel.Unset(x.fd, {F.Read});
        x.select_read := false;
      }
    }

    method StartWriting(x: PipeSock)
      requires sel.Valid() && Wired(sel, x)
      modifies x`select_write, sel
      ensures sel.Valid() && Wired(sel, x) && x.select_write && OthersKept(x.fd)
    {
      hide Want, F.Updated;
      WantUpdates(x.fd, x.index, x.select_read && !x.err_read, x.select_write);
      if !x.select_write {
        sel.Set(x.fd, {F.Write}, Some(SockWrite(x.index)));
        x.select_write := true;
      }
    }

    method StopWriting(x: PipeSock)
      requires sel.Valid() && Wired(sel, x)
      modifies x`select_write, sel
      ensures sel.Valid() && Wired(sel, x) && !x.select_write && OthersKept(x.fd)
    {
      hide Want, F.Updated;
      WantUpdates(x.fd, x.index, x.select_read && !x.err_read, x.select_write);
      if x.select_write {
        sel.Unset(x.fd, {F.Write});
        x.select_write := false;
      }
    }

    /** The send loop of fdselect_pipe_sock_write (fdselect_pipe.c:215-272). */
    method Drain(client: PipeSock, peer: PipeSock, sends: seq<Taken>)
      requires client != peer && client.fd != peer.fd && client.buf != peer.buf
      requires sel.Valid() && Wired(sel, client) && Wired(sel, peer)
      requires peer.BufOk() && Conserved(peer, client)
      modifies client`err_write, client`sent, client`sendBlocked
      modifies peer`off, peer`len, peer`select_read, peer`shutRecv, sel
      ensures sel.Valid() && Wired(sel, client) && Wired(sel, peer)
      ensures peer.BufOk() && Conserved(peer, client)
      ensures peer.len == 0 || client.sendBlocked || client.err_write
      ensures peer.off + peer.len <= old(peer.off + peer.len)
      ensures peer.len == old(peer.len) - Sending(old(peer.len), sends)
      ensures client.err_write == (old(client.err_write) || Failing(old(peer.len), sends))
      ensures peer.select_read == (old(peer.select_read) && !Failing(old(peer.len), sends))
      ensures peer.shutRecv == old(peer.shutRecv) + if Failing(old(peer.len), sends) then 1 else 0
    {
      hide Want, Conserved, Sending, Failing;
      var rest := sends;
      while true
        invariant peer.len - Sending(peer.len, rest) == old(peer.len) - Sending(old(peer.len), sends)
        invariant Failing(peer.len, rest) == Failing(old(peer.len), sends)
        invariant peer.BufOk() && Conserved(peer, client)
        invariant peer.off + peer.len <= old(peer.off + peer.len) && peer.len <= old(peer.len)
        decreases peer.len
        modifies client`sent, client`sendBlocked, peer`off, peer`len
      {
        SendingStep(peer.len, rest);
        if peer.len <= 0 { return; }
        var i, wouldblock := Forward(client, peer, First(rest, WouldBlock));
        if i <= 0 {
          if wouldblock { return; }
          break;
        }
        rest := Rest(rest);
      }
      client.err_write := true;
      peer.shutRecv := peer.shutRecv + 1;
      StopReading(peer);
    }

    /** The re-arming of fdselect_pipe_sock_write (fdselect_pipe.c:279-325). */
    method Rearm(client: PipeSock, peer: PipeSock)
      requires client != peer && client.fd != peer.fd
      requires sel.Valid() && Wired(sel, client) && Wired(sel, peer)
      modifies client`select_write, client`shutSend, peer`select_read, peer`err_read_done, sel
      ensures sel.Valid() && Wired(sel, client) && Wired(sel, peer)
      ensures WriteArmed(peer, client)
      ensures peer.select_read == (old(peer.select_read) || (peer.Room() && !peer.err_read))
      ensures var finished := peer.err_read && (peer.len == 0 || client.err_write) && !old(peer.err_read_done);
        && peer.err_read_done == (old(peer.err_read_done) || finished)
        && client.shutSend == old(client.shutSend) + if finished then 1 else 0
    {
      hide Want;
      if peer.off + peer.len < peer.max && !peer.err_read {
        StartReading(peer);
      }
      if peer.len > 0 && !client.err_write {
        StartWriting(client);
      } else {
        if peer.err_read && !peer.err_read_done {
          peer.err_read_done := true;
          client.shutSend := client.shutSend + 1;
        }
        StopWriting(client);
      }
    }

    /** Everything of fdselect_pipe_sock_write but the final report. */
    method Flush(client: PipeSock, peer: PipeSock, sends: seq<Taken>)
      requires client != peer && client.fd != peer.fd && client.buf != peer.buf
      requires sel.Valid() && Wired(sel, client) && Wired(sel, peer)
      requires peer.BufOk() && Conserved(peer, client) && HalfStarted(peer, client)
      modifies client`err_write, client`sent, client`sendBlocked, client`select_write, client`shutSend
      modifies peer`off, peer`len, peer`select_read, peer`shutRecv, peer`err_read_done, sel
      ensures sel.Valid() && Wired(sel, client) && Wired(sel, peer)
      ensures peer.BufOk() && Conserved(peer, client) && WriteArmed(peer, client) && HalfClosed(peer, client)
      ensures Flushed(client, peer, sends)
    {
      hide Want, Wired, Sending, Failing;
      Drain(client, peer, sends);
      hide Conserved;
      Rearm(client, peer);
    }

    /** fdselect_pipe_sock_write: send from the other half's buffer to client. */
    method Write(client: PipeSock, peer: PipeSock, sends: seq<Taken>)
      requires Apart() && Sides(client, peer) && sel.Valid() && Wired(sel, client) && Wired(sel, peer)
      requires peer.BufOk() && Conserved(peer, client) && HalfStarted(peer, client)
      modifies client`err_write, client`sent, client`sendBlocked, client`select_write, client`shutSend
      modifies peer`off, peer`len, peer`select_read, peer`shutRecv, peer`err_read_done
      modifies sel, this`closings, this`closedReports
      ensures sel.Valid() && Wired(sel, client) && Wired(sel, peer)
      ensures peer.BufOk() && Conserved(peer, client) && WriteArmed(peer, client) && HalfClosed(peer, client)
      ensures Flushed(client, peer, sends)
      ensures closedReports == old(closedReports) + if Closed() then 1 else 0
      ensures closings == old(closings) + if Closed() && !callback then 1 else 0
    {
      hide Want, Wired, Conserved, HalfClosed, HalfStarted, WriteArmed, Sending, Failing;
      Flush(client, peer, sends);
      ClosedCallback();
    }

    /** One recv behind what is already buffered (fdselect_pipe.c:122, 151). */
    method Take(client: PipeSock, ghost peer: PipeSock, answer: Received) returns (n: int, wouldblock: bool)
      requires client != peer && client.buf != peer.buf && client.BufOk() && client.Room() && Conserved(client, peer)
      modifies client.buf, client`received, client`recvBlocked, client`len
      ensures client.BufOk() && Conserved(client, peer) && wouldblock == client.recvBlocked == answer.NothingYet?
      ensures var room := client.max - client.off - old(client.len);
        var data := if answer.Octets? then Fitting(answer.data, room) else [];
        && n == (if wouldblock then -1 else |data|)
        && client.len == old(client.len) + |data| && client.received == old(client.received) + data
    {
      hide Splice;
      var off := client.off + client.len;
      ghost var before, pending, room := client.buf[..], client.Pending(), client.max - off;
      n, wouldblock := client.Recv(off, client.max - off, answer);
      ghost var data := if answer.Octets? then Fitting(answer.data, room) else [];
      PendingGrows(before, client.off, off, data);
      assert pending == before[client.off..off] && client.Pending() == client.buf[..][client.off..off];
      Assoc(peer.sent, pending, data);
      if n <= 0 { return; }
      client.len := client.len + n;
      assert client.Pending() == client.buf[..][client.off..off + n];
    }

    /** The recv loop of fdselect_pipe_sock_read (fdselect_pipe.c:114-165). */
    method Fill(client: PipeSock, ghost peer: PipeSock, recvs: seq<Received>)
      requires client != peer && client.buf != peer.buf
      requires sel.Valid() && Wired(sel, client) && client.BufOk() && Conserved(client, peer)
      requires client.select_read && !client.err_read
      modifies client.buf, client`received, client`recvBlocked, client`len, client`err_read, client`shutRecv, sel
      ensures sel.Valid() && Wired(sel, client) && OthersKept(client.fd)
      ensures client.BufOk() && Conserved(client, peer)
      ensures client.recvBlocked || client.err_read || !client.Room()
      ensures var room := client.max - client.off - old(client.len);
        && client.received == old(client.received) + Arriving(room, recvs)
        && client.len == old(client.len) + |Arriving(room, recvs)|
        && client.err_read == Ending(room, recvs)
        && client.shutRecv == old(client.shutRecv) + if Ending(room, recvs) then 1 else 0
    {
      hide Want, F.Updated, Conserved, Arriving, Ending, Fitting;
      ghost var room: nat, got: seq<byte> := client.max - client.off - client.len, [];
      var rest := recvs;
      while true
        invariant client.BufOk() && Conserved(client, peer)
        invariant client.received == old(client.received) + got && client.len == old(client.len) + |got|
        invariant |got| <= room && got + Arriving(room - |got|, rest) == Arriving(room, recvs)
        invariant Ending(room - |got|, rest) == Ending(room, recvs)
        decreases client.max - client.off - client.len
        modifies client.buf, client`received, client`recvBlocked, client`len
      {
        var off := client.off + client.len;
        ArrivingStep(room - |got|, rest);
        if client.max - off <= 0 { return; }
        var answer := First(rest, NothingYet);
        var len, wouldblock := Take(client, peer, answer);
        if len <= 0 {
          if wouldblock { return; }
          break;
        }
        ghost var data := Fitting(answer.data, room - |got|);
        Assoc(got, data, Arriving(room - |got| - |data|, Rest(rest)));
        Assoc(old(client.received), got, data);
        got, rest := got + data, Rest(rest);
      }
      WantUpdates(client.fd, client.index, true, client.select_write);
      client.err_read := true;
      client.shutRecv := client.shutRecv + 1;
      sel.Unset(client.fd, {F.Read});
    }

    /** FDSELECT_READ on or off as the buffer and the stream allow (fdselect_pipe.c:176-198). */
    method RearmRead(client: PipeSock)
      requires sel.Valid() && Wired(sel, client)
      modifies client`select_read, sel
      ensures sel.Valid() && Wired(sel, client) && ReadArmed(client) && OthersKept(client.fd)
    {
      if client.off + client.len < client.max && !client.err_read {
        StartReading(client);
      } else {
        StopReading(client);
      }
    }

    /** The other half sends on at once, and reading is re-armed (fdselect_pipe.c:167-198). */
    method SendOn(client: PipeSock, peer: PipeSock, sends: seq<Taken>)
      requires Apart() && Sides(client, peer) && sel.Valid() && Wired(sel, client) && Wired(sel, peer)
      requires client.BufOk() && Conserved(client, peer) && HalfStarted(client, peer) && client.select_read
      requires ShutForReading(client, peer)
      modifies client`off, client`len, client`select_read, client`shutRecv, client`err_read_done
      modifies peer`err_write, peer`sent, peer`sendBlocked, peer`select_write, peer`shutSend
      modifies sel, this`closings, this`closedReports
      ensures sel.Valid() && Half(client, peer) && Wired(sel, peer)
      ensures old(peer.err_write) ==> peer.err_write
      ensures client.len == 0 || peer.sendBlocked || peer.err_write
      ensures Report(if Failing(old(client.len), sends) && Closed() then 1 else 0)
      ensures peer.err_write == (old(peer.err_write) || Failing(old(client.len), sends))
      ensures client.len == old(client.len) - Sending(old(client.len), sends)
      ensures client.shutRecv == old(client.shutRecv) + if Failing(old(client.len), sends) then 1 else 0
    {
      hide Want, Conserved, WriteArmed, HalfClosed, HalfStarted, Sending, Failing;
      Write(peer, client, sends);
      RearmRead(client);
    }

    /** Reading, sending on at once and re-arming: all of fdselect_pipe_sock_read but the final report. */
    method ReadAndSend(client: PipeSock, peer: PipeSock, recvs: seq<Received>, sends: seq<Taken>)
      requires Apart() && Sides(client, peer) && sel.Valid()
      requires Half(client, peer) && Wired(sel, peer) && client.select_read
      modifies client.buf, client`received, client`recvBlocked, client`err_read, client`shutRecv
      modifies client`off, client`len, client`select_read, client`err_read_done
      modifies peer`err_write, peer`sent, peer`sendBlocked, peer`select_write, peer`shutSend
      modifies sel, this`closings, this`closedReports
      ensures sel.Valid() && Half(client, peer) && Wired(sel, peer)
      ensures old(peer.err_write) ==> peer.err_write
      ensures client.recvBlocked || client.err_read
        || |client.received| == |old(client.received)| + client.max - old(client.off) - old(client.len)
      ensures client.len == 0 || peer.sendBlocked || peer.err_write
      ensures old(client.received) <= client.received
      ensures Handled(client, peer, recvs, sends)
      ensures Report(if Failing(Filled(client, recvs), sends) && Closed() then 1 else 0)
    {
      hide Want, Conserved, WriteArmed, Sending, Failing, Arriving, Ending;
      assert !client.err_read && !client.err_read_done && peer.shutSend == 0;
      hide HalfClosed, ReadArmed;
      Fill(client, peer, recvs);
      assert HalfStarted(client, peer) && Wired(sel, peer);
      hide HalfStarted, Wired;
      SendOn(client, peer, sends);
    }

    /**
     * fdselect_pipe_sock_read: the selector found client readable. A pipe that closes is reported once, but twice when
     * the send in this very call failed, and without a callback its sockets are closed as often.
     */
    method Read(client: PipeSock, peer: PipeSock, recvs: seq<Received>, sends: seq<Taken>)
      requires Valid() && Sides(client, peer) && client.select_read
      modifies client.buf, client`received, client`recvBlocked, client`err_read, client`shutRecv
      modifies client`off, client`len, client`select_read, client`err_read_done
      modifies peer`err_write, peer`sent, peer`sendBlocked, peer`select_write, peer`shutSend
      modifies sel, this`closings, this`closedReports
      ensures Valid()
      ensures client.recvBlocked || client.err_read
        || |client.received| == |old(client.received)| + client.max - old(client.off) - old(client.len)
      ensures client.len == 0 || peer.sendBlocked || peer.err_write
      ensures old(client.received) <= client.received
      ensures Handled(client, peer, recvs, sends)
      ensures Report(if !Closed() then 0 else if Failing(Filled(client, recvs), sends) then 2 else 1)
    {
      hide Want, Conserved, WriteArmed, HalfClosed, ReadArmed, Sending, Failing, Arriving, Ending, Wired;
      ReadAndSend(client, peer, recvs, sends);
      ClosedCallback();
    }

    /** fdselect_pipe_sock_write, called because the selector found client writable. */
    method Writable(client: PipeSock, peer: PipeSock, sends: seq<Taken>)
      requires Valid() && Sides(client, peer) && client.select_write
      modifies client`err_write, client`sent, client`sendBlocked, client`select_write, client`shutSend
      modifies peer`off, peer`len, peer`select_read, peer`shutRecv, peer`err_read_done
      modifies sel, this`closings, this`closedReports
      ensures Valid()
      ensures Flushed(client, peer, sends) && Report(if Closed() then 1 else 0)
    {
      hide Want, Wired, Sending, Failing, Conserved, WriteArmed, HalfClosed, HalfStarted;
      StillStarted(peer, client);
      Write(client, peer, sends);
    }

    /** One handler call of the selector, if the event is registered; otherwise nothing happens. */
    method Dispatch(call: Call)
      requires Valid()
      modifies this`closings, this`closedReports, a, b, a.buf, b.buf, sel
      ensures Valid()
      ensures old(a.received) <= a.received && old(b.received) <= b.received
      ensures old(Closed()) ==> Closed() && Report(0)
      ensures match call
              case ReadCall(k, recvs, sends) =>
                if k == 0 && old(a.select_read) then Handled(a, b, recvs, sends)
                else if k == 1 && old(b.select_read) then Handled(b, a, recvs, sends)
                else Quiet()
              case WriteCall(k, sends) =>
                if k == 0 && old(a.select_write) then Flushed(a, b, sends)
                else if k == 1 && old(b.select_write) then Flushed(b, a, sends)
                else Quiet()
    {
      match call {
        case ReadCall(k, recvs, sends) =>
          if k == 0 && a.select_read { Read(a, b, recvs, sends); }
          else if k == 1 && b.select_read { Read(b, a, recvs, sends); }
        case WriteCall(k, sends) =>
          if k == 0 && a.select_write { Writable(a, b, sends); }
          else if k == 1 && b.select_write { Writable(b, a, sends); }
      }
    }

    /** Any run: the selector calls handlers of registered events in any order, the kernel answers as it likes. */
    method Run(calls: seq<Call>)
      requires Valid()
      modifies this`closings, this`closedReports, a, b, a.buf, b.buf, sel
      ensures Valid()
      ensures old(a.received) <= a.received && old(b.received) <= b.received
      ensures old(Closed()) ==> Closed() && Report(0)
    {
      hide Valid;
      var i := 0;
      while i < |calls|
        invariant Valid() && 0 <= i <= |calls|
        invariant old(a.received) <= a.received && old(b.received) <= b.received
        invariant old(Closed()) ==> Closed() && Report(0)
      {
        Dispatch(calls[i]);
        i := i + 1;
      }
    }

    /** Nothing of the pipe was touched. */
    twostate predicate Quiet()
      reads this, a, b, a.buf, b.buf, sel
    {
      unchanged(this, a, b, a.buf, b.buf, sel)
    }

    /** Reports made since, each of them closing both sockets when there is no callback. */
    twostate predicate Report(n: nat)
      reads this
    {
      closedReports == old(closedReports) + n && closings == old(closings) + if callback then 0 else n
    }
  }

  // ---------------------------------------------------------------------------------------------
  // What the invariant means for a user of the pipe
  // ---------------------------------------------------------------------------------------------

  /** A sending side is shut down at most once, and only when the other stream has ended and been sent completely. */
  lemma ShutdownAfterDelivery(p: Pipe, x: PipeSock, y: PipeSock)
    requires p.Valid() && p.Sides(x, y)
    ensures y.shutSend <= 1
    ensures !y.err_write ==> (y.shutSend == 1 <==> x.err_read && y.sent == x.received)
  {
    if x.err_read && y.sent == x.received { assert |x.Pending()| == 0; }
  }

  /**
   * Without write errors the pipe is closed, and was reported closed once, exactly when both streams ended and
   * arrived.
   */
  lemma ClosedIsComplete(p: Pipe)
    requires p.Valid() && !p.a.err_write && !p.b.err_write
    ensures p.Closed() <==> p.a.err_read && p.b.err_read && p.b.sent == p.a.received && p.a.sent == p.b.received
    ensures p.closedReports == if p.Closed() then 1 else 0
  {
    ShutdownAfterDelivery(p, p.a, p.b);
    ShutdownAfterDelivery(p, p.b, p.a);
  }

  /** A direction with something left to do is registered with the selector, with its own handler. */
  lemma UnfinishedIsArmed(p: Pipe, x: PipeSock, y: PipeSock)
    requires p.Valid() && p.Sides(x, y) && !y.err_write
    ensures !(x.err_read && y.sent == x.received) ==>
      || (p.sel.Reg(x.fd).Some? && F.Read in p.sel.Reg(x.fd).value.events
            && p.sel.Reg(x.fd).value.read == Some(SockRead(x.index)))
      || (p.sel.Reg(y.fd).Some? && F.Write in p.sel.Reg(y.fd).value.events
            && p.sel.Reg(y.fd).value.write == Some(SockWrite(y.index)))
  {
    if x.len == 0 { assert |x.Pending()| == 0; }
  }

  /** What a flush of peer's buffer to client does, besides what it keeps. */
  twostate predicate Flushed(client: PipeSock, peer: PipeSock, sends: seq<Taken>)
    reads client, peer
  {
    var failed := Failing(old(peer.len), sends);
    && (peer.len == 0 || client.sendBlocked || client.err_write)
    && peer.off + peer.len <= old(peer.off + peer.len)
    && peer.len == old(peer.len) - Sending(old(peer.len), sends)
    && client.err_write == (old(client.err_write) || failed)
    && peer.shutRecv == old(peer.shutRecv) + (if failed then 1 else 0)
    && peer.select_read == ((old(peer.select_read) && !failed) || (peer.Room() && !peer.err_read))
  }

  /** An ordinary reset: b's stream has ended, and a delivers an octet and its end in one call, which b refuses. */
  method ResetReportsTwice(sel: F.FdSelect<Handler>, buf0: array<byte>, buf1: array<byte>) returns (p: Pipe)
    requires sel.Valid() && sel.Reg(3) == sel.Reg(4) == None && buf0 != buf1 && buf0.Length == buf1.Length == 2
    modifies sel, buf0, buf1
    ensures p.Valid() && p.Closed() && !p.callback && p.closedReports == 2 && p.closings == 2
  {
    hide Arriving, Ending, Sending, Failing, Conserved, Wired, WriteArmed;
    p := new Pipe(sel, false, 3, buf0, 2, 4, buf1, 2);
    ResetAnswers();
    p.Read(p.b, p.a, [Ended], []);
    ResetLast(p);
  }

  method ResetLast(p: Pipe)
    requires p.Valid() && !p.Closed() && !p.callback && p.a.max == 2 && p.a.off == p.a.len == 0 && !p.a.err_read
    requires p.b.err_read && p.b.len == 0
    modifies p`closings, p`closedReports, p.a, p.b, p.a.buf, p.sel
    ensures p.Valid() && p.Closed() && p.closedReports == 2 && p.closings == 2
  {
    hide Arriving, Ending, Sending, Failing, Conserved, Wired;
    ResetAnswers();
    p.Read(p.a, p.b, [Octets([7]), Ended], [Refused]);
  }

  lemma ResetAnswers()
    ensures Arriving(2, [Ended]) == [] && Ending(2, [Ended]) && Sending(0, []) == 0 && !Failing(0, [])
    ensures Arriving(2, [Octets([7]), Ended]) == [7] && Ending(2, [Octets([7]), Ended])
    ensures Sending(1, [Refused]) == 0 && Failing(1, [Refused])
  {
    assert [Octets([7]), Ended][1..] == [Ended];
  }

  /** Octets stored right behind the pending ones are pending with them. */
  lemma PendingGrows(before: seq<byte>, off: nat, end: nat, data: seq<byte>)
    requires off <= end && end + |data| <= |before|
    ensures var after := Splice(before, end, data);
      after[off..end + |data|] == before[off..end] + data && after[off..end] == before[off..end]
  {}

  ghost function RoomLeft(x: PipeSock): nat
    reads x`off, x`len
  {
    if x.off + x.len <= x.max then x.max - x.off - x.len else 0
  }

  /** How much is buffered after these answers to recv. */
  twostate function Filled(x: PipeSock, recvs: seq<Received>): nat {
    old(x.len) + |Arriving(old(RoomLeft(x)), recvs)|
  }

  /** What reading from client and sending on to peer does with these answers of the kernel. */
  twostate predicate Handled(client: PipeSock, peer: PipeSock, recvs: seq<Received>, sends: seq<Taken>)
    reads client, peer
  {
    var room, len := old(RoomLeft(client)), Filled(client, recvs);
    && client.received == old(client.received) + Arriving(room, recvs) && client.err_read == Ending(room, recvs)
    && client.len == len - Sending(len, sends)
    && client.shutRecv == old(client.shutRecv) + (if Ending(room, recvs) then 1 else 0)
                            + (if Failing(len, sends) then 1 else 0)
    && peer.err_write == (old(peer.err_write) || Failing(len, sends))
  }

  /** One turn of the send loop. */
  lemma SendingStep(len: nat, sends: seq<Taken>)
    ensures len == 0 ==> Sending(len, sends) == 0 && !Failing(len, sends)
    ensures len > 0 ==>
      match First(sends, WouldBlock)
      case WouldBlock => Sending(len, sends) == 0 && !Failing(len, sends)
      case Refused => Sending(len, sends) == 0 && Failing(len, sends)
      case Took(count) =>
        var n := if count > len then len else count;
        if n == 0 then Sending(len, sends) == 0 && Failing(len, sends)
        else
          && Sending(len, sends) == n + Sending(len - n, Rest(sends))
          && Failing(len, sends) == Failing(len - n, Rest(sends))
  {}

  /** One turn of the receive loop. */
  lemma ArrivingStep(room: nat, recvs: seq<Received>)
    ensures room == 0 ==> Arriving(room, recvs) == [] && !Ending(room, recvs)
    ensures room > 0 ==>
      match First(recvs, NothingYet)
      case NothingYet => Arriving(room, recvs) == [] && !Ending(room, recvs)
      case Ended => Arriving(room, recvs) == [] && Ending(room, recvs)
      case Octets(all) =>
        var data := Fitting(all, room);
        if data == [] then Arriving(room, recvs) == [] && Ending(room, recvs)
        else Arriving(room, recvs) == data + Arriving(room - |data|, Rest(recvs))
             && Ending(room, recvs) == Ending(room - |data|, Rest(recvs))
  {
    hide Fitting;
  }

  lemma StillStarted(x: PipeSock, y: PipeSock)
    requires HalfClosed(x, y)
    ensures HalfStarted(x, y)
  {}

  /** HalfClosed, except that the shutdown may still be due. */
  ghost predicate HalfStarted(x: PipeSock, y: PipeSock)
    reads x`err_read_done, x`err_read, x`len, y`shutSend, y`err_write
  {
    && y.shutSend == (if x.err_read_done then 1 else 0)
    && (x.err_read_done ==> x.err_read && (x.len == 0 || y.err_write))
  }
}
