/** The outgoing queue of buffers, file ranges and a final shutdown (sendlist.c). */
module SendList {
  import opened Bytes
  import opened Kernel
  import F = FdSelect
  import GrowArray

  /** A queue entry: memory, a file range, or a request to shut the sending side down. */
  datatype Kind = Memory | File | Shutdown
  datatype SendBuf = SendBuf(id: nat, kind: Kind, data: seq<byte>, off: nat, len: nat)

  /** What the caller once asked for. */
  datatype Item = Item(kind: Kind, octets: seq<byte>)

  function AllData(items: seq<Item>): seq<byte> {
    if items == [] then [] else AllData(items[..|items| - 1]) + items[|items| - 1].octets
  }

  /** Number of octets that precede each shutdown request. */
  function ShutdownPoints(items: seq<Item>): seq<nat> {
    if items == [] then []
    else
      var n := |items| - 1;
      ShutdownPoints(items[..n]) + if items[n].kind.Shutdown? then [|AllData(items[..n])|] else []
  }

  /** What an entry still holds. */
  function Left(e: SendBuf): seq<byte> {
    if e.off + e.len <= |e.data| then e.data[e.off..e.off + e.len] else []
  }

  function Remaining(bufs: seq<SendBuf>): seq<byte> {
    if bufs == [] then [] else Left(bufs[0]) + Remaining(bufs[1..])
  }

  /** A queue entry that holds what is left of an item. */
  ghost predicate EntryOk(e: SendBuf, item: Item, id: nat) {
    && e.id == id && e.kind == item.kind
    && e.off + e.len <= |e.data| && e.len <= |item.octets|
    && e.data[e.off..e.off + e.len] == item.octets[|item.octets| - e.len..]
    && (e.kind.Shutdown? ==> item.octets == [])
  }

  /** Entry i of the queue stands for the i-th of the last |bufs| items, and only the head may be partly sent. */
  ghost predicate EntryAt(bufs: seq<SendBuf>, items: seq<Item>, i: nat)
    requires i < |bufs| <= |items|
  {
    var k := |items| - |bufs| + i;
    EntryOk(bufs[i], items[k], k) && (i > 0 ==> bufs[i].len == |items[k].octets|)
  }

  ghost predicate QueueOk(bufs: seq<SendBuf>, items: seq<Item>) {
    |bufs| <= |items| && forall i :: 0 <= i < |bufs| ==> EntryAt(bufs, items, i)
  }

  /** What the kernel took: the items no longer queued, and the part of the head that is gone from its entry. */
  ghost predicate Sent(bufs: seq<SendBuf>, items: seq<Item>, accepted: seq<byte>)
    requires QueueOk(bufs, items)
  {
    var k := |items| - |bufs|;
    (bufs != [] ==> EntryAt(bufs, items, 0)) &&
    accepted == AllData(items[..k]) + if bufs == [] then [] else items[k].octets[..|items[k].octets| - bufs[0].len]
  }

  lemma Prefixes(items: seq<Item>, k: nat)
    requires k < |items|
    ensures AllData(items[..k + 1]) == AllData(items[..k]) + items[k].octets
    ensures ShutdownPoints(items[..k + 1]) ==
      ShutdownPoints(items[..k]) + if items[k].kind.Shutdown? then [|AllData(items[..k])|] else []
  {
    assert items[..k + 1][..k] == items[..k];
  }

  lemma EntryAdvances(e: SendBuf, item: Item, id: nat, n: nat)
    requires EntryOk(e, item, id) && n <= e.len
    ensures EntryOk(e.(off := e.off + n, len := e.len - n), item, id)
    ensures item.octets[..|item.octets| - e.len] + e.data[e.off..e.off + n] ==
      item.octets[..|item.octets| - (e.len - n)]
  {
    var octets, data := item.octets, e.data[e.off..e.off + e.len];
    var m := |octets| - e.len;
    assert data == octets[m..];
    SliceSplits(e.data, e.off, e.off + e.len, n);
    SliceSplits(octets, m, |octets|, n);
  }

  /** Advancing the head over n octets the kernel took keeps the queue right. */
  lemma HeadSent(bufs: seq<SendBuf>, items: seq<Item>, accepted: seq<byte>, n: nat)
    requires QueueOk(bufs, items) && Sent(bufs, items, accepted) && bufs != [] && n <= bufs[0].len
    requires bufs[0].off + bufs[0].len <= |bufs[0].data|
    ensures var e := bufs[0];
      var bufs' := bufs[0 := e.(off := e.off + n, len := e.len - n)];
      QueueOk(bufs', items) && Sent(bufs', items, accepted + e.data[e.off..e.off + n])
  {
    hide AllData, EntryOk;
    var e, k := bufs[0], |items| - |bufs|;
    assert EntryAt(bufs, items, 0);
    EntryAdvances(e, items[k], k, n);
    Assoc(AllData(items[..k]), items[k].octets[..|items[k].octets| - e.len], e.data[e.off..e.off + n]);
    var bufs' := bufs[0 := e.(off := e.off + n, len := e.len - n)];
    forall i | 0 <= i < |bufs'| ensures EntryAt(bufs', items, i) { assert EntryAt(bufs, items, i); }
  }

  /** A head with nothing left stands for an item that is out; dropping it keeps the queue right. */
  lemma HeadDropped(bufs: seq<SendBuf>, items: seq<Item>, accepted: seq<byte>)
    requires QueueOk(bufs, items) && Sent(bufs, items, accepted) && bufs != [] && bufs[0].len == 0
    ensures QueueOk(bufs[1..], items) && Sent(bufs[1..], items, accepted)
    ensures bufs[0].kind.Shutdown? ==> accepted == AllData(items[..|items| - |bufs|])
  {
    hide AllData, EntryOk;
    var k := |items| - |bufs|;
    var octets := items[k].octets;
    assert EntryAt(bufs, items, 0);
    Prefixes(items, k);
    assert octets[..|octets|] == octets;
    forall i | 0 <= i < |bufs[1..]| ensures EntryAt(bufs[1..], items, i) { assert EntryAt(bufs, items, i + 1); }
    if |bufs| > 1 {
      assert EntryAt(bufs, items, 1);
      assert items[k + 1].octets[..0] == [];
    }
    HeadFits(bufs, items);
  }

  // ---------------------------------------------------------------------------------------------
  // A flush of a queue, by the answers of the kernel; one that is missing takes nothing
  // ---------------------------------------------------------------------------------------------

  /** The octets of an entry that this answer takes. */
  function Takes(e: SendBuf, a: Taken): (n: nat)
    ensures n <= e.len
  {
    if a.Took? then if a.count < e.len then a.count else e.len else 0
  }

  /** The answer ends the flush with an error. */
  predicate Breaks(e: SendBuf, a: Taken) {
    a.Refused? || (a.WouldBlock? && e.kind.Shutdown?)
  }

  function Result(bufs: seq<SendBuf>, answers: seq<Taken>): int {
    if bufs == [] then 0
    else
      var e, a := bufs[0], First(answers, Took(0));
      if Breaks(e, a) then -1 else if Takes(e, a) < e.len then 1 else Result(bufs[1..], Rest(answers))
  }

  /** The octets that go out. */
  function Goes(bufs: seq<SendBuf>, answers: seq<Taken>): seq<byte> {
    if bufs == [] then []
    else
      var e, a := bufs[0], First(answers, Took(0));
      var out := if e.off + e.len <= |e.data| then e.data[e.off..e.off + Takes(e, a)] else [];
      if Breaks(e, a) || Takes(e, a) < e.len then out else out + Goes(bufs[1..], Rest(answers))
  }

  /** The queue that stays. */
  function Stays(bufs: seq<SendBuf>, answers: seq<Taken>): seq<SendBuf> {
    if bufs == [] then []
    else
      var e, a := bufs[0], First(answers, Took(0));
      if Breaks(e, a) || Takes(e, a) < e.len
      then [e.(off := e.off + Takes(e, a), len := e.len - Takes(e, a))] + bufs[1..]
      else Stays(bufs[1..], Rest(answers))
  }

  lemma FlushStep(bufs: seq<SendBuf>, answers: seq<Taken>)
    ensures bufs == [] ==> Result(bufs, answers) == 0 && Goes(bufs, answers) == [] && Stays(bufs, answers) == []
    ensures bufs != [] && bufs[0].off + bufs[0].len <= |bufs[0].data| ==>
      var e, a := bufs[0], First(answers, Took(0));
      var out := e.data[e.off..e.off + Takes(e, a)];
      var ends := Breaks(e, a) || Takes(e, a) < e.len;
      && Result(bufs, answers) == (if Breaks(e, a) then -1 else if ends then 1 else Result(bufs[1..], Rest(answers)))
      && Goes(bufs, answers) == (if ends then out else out + Goes(bufs[1..], Rest(answers)))
      && Stays(bufs, answers) ==
        if ends then [e.(off := e.off + Takes(e, a), len := e.len - Takes(e, a))] + bufs[1..]
        else Stays(bufs[1..], Rest(answers))
  {}

  /** One turn of the flush loop, which leaves bufs' and the result e for this turn. */
  lemma FlushTurn(bufs: seq<SendBuf>, answers: seq<Taken>, bufs': seq<SendBuf>, e: int, accepted: seq<byte>,
                  out: seq<byte>)
    returns (out': seq<byte>)
    requires bufs != [] && bufs[0].off + bufs[0].len <= |bufs[0].data|
    requires var h, a := bufs[0], First(answers, Took(0));
      && e == (if Breaks(h, a) then -1 else if Takes(h, a) < h.len then 1 else 0)
      && bufs' == (if e == 0 then [] else [h.(off := h.off + Takes(h, a), len := h.len - Takes(h, a))]) + bufs[1..]
    ensures out' == out + bufs[0].data[bufs[0].off..bufs[0].off + Takes(bufs[0], First(answers, Took(0)))]
    ensures accepted + out + out'[|out|..] == accepted + out'
    ensures if e == 0
      then && Result(bufs, answers) == Result(bufs', Rest(answers))
           && Stays(bufs, answers) == Stays(bufs', Rest(answers))
           && out + Goes(bufs, answers) == out' + Goes(bufs', Rest(answers))
      else Result(bufs, answers) == e && Stays(bufs, answers) == bufs' && out + Goes(bufs, answers) == out'
  {
    hide Goes, Stays, Result, Takes, Breaks;
    var piece := bufs[0].data[bufs[0].off..bufs[0].off + Takes(bufs[0], First(answers, Took(0)))];
    out' := out + piece;
    assert out'[|out|..] == piece;
    FlushStep(bufs, answers);
    Assoc(accepted, out, piece);
    Assoc(out, piece, Goes(bufs[1..], Rest(answers)));
    if e == 0 { assert bufs' == bufs[1..]; }
  }

  lemma GoesNothing(accepted: seq<byte>)
    ensures accepted + [] == accepted
  {}

  class SendList {
    const send_fd: int
    const sel: F.FdSelect<SendList>
    var sendbufs: seq<SendBuf>
    var next_id: nat                  // names the entries, for the log of free calls
    ghost var items: seq<Item>        // everything ever queued
    ghost var accepted: seq<byte>     // everything the kernel took
    ghost var freed: seq<nat>         // entries whose free function ran, in that order
    ghost var shutdowns: seq<nat>     // octets taken before each shutdown of the socket

    /** Finished items are freed, in order; the rest is queued, the head perhaps partly sent. */
    ghost predicate Valid()
      reads this
    {
      && QueueOk(sendbufs, items) && Sent(sendbufs, items, accepted) && next_id == |items|
      && freed == seq(|items| - |sendbufs|, i => i)
      && shutdowns == ShutdownPoints(items[..|items| - |sendbufs|])
    }

    ghost predicate Writing()
      reads this, sel
    {
      var e := sel.Reg(send_fd);
      e.Some? && F.Write in e.value.events && e.value.write == Some(this)
    }

    constructor (sel: F.FdSelect<SendList>, send_fd: int)
      ensures Valid() && sendbufs == [] && items == [] && this.sel == sel && this.send_fd == send_fd
    {
      this.sel, this.send_fd := sel, send_fd;
      sendbufs, next_id, items, accepted, freed, shutdowns := [], 0, [], [], [], [];
    }

    /** write or sendfile with this answer of the kernel: takes a prefix of the data, or fails, or would block. */
    method Take(ghost data: seq<byte>, size: nat, answer: Taken) returns (n: int, wouldblock: bool)
      requires |data| == size
      modifies this`accepted
      ensures wouldblock == answer.WouldBlock?
      ensures n == match answer case Took(count) => if count > size then size else count case _ => -1
      ensures accepted == old(accepted) + if n > 0 then data[..n] else []
    {
      wouldblock := answer.WouldBlock?;
      n := match answer case Took(count) => if count > size then size else count case _ => -1;
      if n > 0 { accepted := accepted + data[..n]; }
    }

    /** sendlist_shift on a non-empty queue: the free function runs, the entry goes. */
    method Shift()
      requires sendbufs != []
      modifies this`sendbufs, this`freed
      ensures sendbufs == old(sendbufs)[1..] && freed == old(freed) + [old(sendbufs)[0].id]
    {
      freed := freed + [sendbufs[0].id];
      sendbufs := GrowArray.Removed(sendbufs, 0, 1);
    }

    /**
     * One turn of the flush loop on the head entry: -1 for an error, which would-block is only for a shutdown, 1 when
     * octets of the entry remain, 0 when it is finished and shifted.
     */
    method FlushHead(answer: Taken) returns (err: int)
      requires Valid() && sendbufs != []
      modifies this`sendbufs, this`freed, this`accepted, this`shutdowns
      ensures Valid()
      ensures var e := old(sendbufs)[0];
        match answer
        case Refused => err == -1
        case WouldBlock => err == if e.kind.Shutdown? then -1 else if e.len > 0 then 1 else 0
        case Took(count) => err == if count < e.len then 1 else 0
      ensures var e := old(sendbufs)[0];
        var n := if answer.Took? then if answer.count < e.len then answer.count else e.len else 0;
        && e.off + n <= |e.data| && accepted == old(accepted) + e.data[e.off..e.off + n]
        && sendbufs == (if err == 0 then [] else [e.(off := e.off + n, len := e.len - n)]) + old(sendbufs)[1..]
      ensures shutdowns == old(shutdowns) +
        if old(sendbufs)[0].kind.Shutdown? && answer.Took? then [|accepted|] else []
    {
      hide QueueOk, Sent, AllData, ShutdownPoints;
      var e := sendbufs[0];
      ghost var bufs, taken := sendbufs, accepted;
      HeadFits(sendbufs, items);
      Prefixes(items, |items| - |sendbufs|);
      var n;
      if e.kind.Shutdown? {
        HeadDropped(sendbufs, items, accepted);
        if !answer.Took? { return -1; }
        n := e.len;
        shutdowns := shutdowns + [|accepted|];
      } else {
        var wouldblock;
        n, wouldblock := Take(e.data[e.off..e.off + e.len], e.len, answer);
        if wouldblock { n := 0; }
        assert n <= 0 ==> accepted == taken;
        if n < 0 { return -1; }
      }
      assert accepted == taken + e.data[e.off..e.off + n];
      HeadSent(bufs, items, taken, n);
      sendbufs := sendbufs[0 := e.(off := e.off + n, len := e.len - n)];
      if e.len - n > 0 { return 1; }
      HeadDropped(sendbufs, items, accepted);
      Shift();
      return 0;
    }

    /**
     * sendlist_flush: 0 when the queue is empty, 1 when the kernel takes no more, -1 on an error. Only in the second
     * case it waits to write; what goes out and what stays depends on the answers of the kernel alone.
     */
    method Flush(answers: seq<Taken>) returns (err: int)
      requires Valid() && sel.Valid()
      modifies this`sendbufs, this`freed, this`accepted, this`shutdowns, sel
      ensures Valid() && sel.Valid() && err == Result(old(sendbufs), answers)
      ensures accepted == old(accepted) + Goes(old(sendbufs), answers) && sendbufs == Stays(old(sendbufs), answers)
      ensures Writing() <==> err == 1
    {
      hide QueueOk, Sent, ShutdownPoints, Goes, Stays, Result;
      err := -1;
      var rest := answers;
      ghost var out: seq<byte> := [];
      GoesNothing(accepted);
      while true
        invariant Valid() && err == -1 && accepted == old(accepted) + out
        invariant out + Goes(sendbufs, rest) == Goes(old(sendbufs), answers)
        invariant Stays(sendbufs, rest) == Stays(old(sendbufs), answers)
        invariant Result(sendbufs, rest) == Result(old(sendbufs), answers)
        decreases |sendbufs|
        modifies this`sendbufs, this`freed, this`accepted, this`shutdowns
      {
        if sendbufs == [] {
          FlushStep(sendbufs, rest);
          err := 0;
          break;
        }
        ghost var bufs, before := sendbufs, out;
        HeadFits(sendbufs, items);
        var e := FlushHead(First(rest, Took(0)));
        out := FlushTurn(bufs, rest, sendbufs, e, old(accepted), before);
        if e == -1 { break; }
        if e == 1 {
          err := 1;
          break;
        }
        rest := Rest(rest);
      }
      if err > 0 {
        sel.Set(send_fd, {F.Write}, Some(this));
      } else {
        sel.Unset(send_fd, {F.Write});
      }
    }

    /** sendlist_send: the entry is queued behind the others and as much as possible goes out. */
    method Send(kind: Kind, data: seq<byte>, off: nat, len: nat, answers: seq<Taken>) returns (err: int)
      requires Valid() && sel.Valid() && off + len <= |data| && (kind.Shutdown? ==> len == 0)
      modifies this, sel
      ensures Valid() && sel.Valid()
      ensures items == old(items) + [Item(kind, data[off..off + len])]
      ensures var bufs := old(sendbufs) + [SendBuf(old(next_id), kind, data, off, len)];
        && err == Result(bufs, answers) && accepted == old(accepted) + Goes(bufs, answers)
        && sendbufs == Stays(bufs, answers)
      ensures Writing() <==> err == 1
    {
      hide QueueOk, Sent, ShutdownPoints, Result, Goes, Stays;
      ghost var bufs, before := sendbufs, items;
      sendbufs := sendbufs + [SendBuf(next_id, kind, data, off, len)];
      next_id := next_id + 1;
      items := items + [Item(kind, data[off..off + len])];
      Queued(bufs, before, accepted, sendbufs[|bufs|], items[|before|]);
      err := Flush(answers);
    }

    /** sendlist_close: every entry left is freed, in order, and nothing is waited for. */
    method Close()
      requires Valid() && sel.Valid()
      modifies this`sendbufs, this`freed, sel
      ensures sel.Valid() && sendbufs == [] && !Writing()
      ensures freed == seq(|items|, i => i)
    {
      forall i | 0 <= i < |sendbufs| ensures sendbufs[i].id == |items| - |sendbufs| + i {
        assert EntryAt(sendbufs, items, i);
      }
      while sendbufs != []
        invariant |sendbufs| <= |items| && freed == seq(|items| - |sendbufs|, i => i)
        invariant forall i :: 0 <= i < |sendbufs| ==> sendbufs[i].id == |items| - |sendbufs| + i
        decreases |sendbufs|
        modifies this`sendbufs, this`freed
      {
        Shift();
      }
      sel.Unset(send_fd, {F.Write});
    }
  }

  lemma HeadFits(bufs: seq<SendBuf>, items: seq<Item>)
    requires QueueOk(bufs, items) && bufs != []
    ensures var e, k := bufs[0], |items| - |bufs|;
      && 0 <= k < |items| && e.id == k && e.kind == items[k].kind
      && e.off + e.len <= |e.data| && (e.kind.Shutdown? ==> e.len == 0 && items[k].octets == [])
  {
    assert EntryAt(bufs, items, 0);
  }

  /** Queueing an entry behind the others. */
  lemma Queued(bufs: seq<SendBuf>, items: seq<Item>, accepted: seq<byte>, e: SendBuf, item: Item)
    requires QueueOk(bufs, items) && Sent(bufs, items, accepted) && EntryOk(e, item, |items|) && e.len == |item.octets|
    ensures QueueOk(bufs + [e], items + [item]) && Sent(bufs + [e], items + [item], accepted)
    ensures (items + [item])[..|items| - |bufs|] == items[..|items| - |bufs|]
  {
    hide AllData, EntryOk;
    var k, bufs', items' := |items| - |bufs|, bufs + [e], items + [item];
    forall i | 0 <= i < |bufs'| ensures EntryAt(bufs', items', i) {
      if i < |bufs| { assert EntryAt(bufs, items, i); }
    }
    assert (items + [item])[..k] == items[..k];
    if bufs == [] { assert item.octets[..0] == []; }
  }

  lemma {:induction false} AllDataSplits(items: seq<Item>, k: nat)
    requires k < |items|
    ensures AllData(items[..k]) <= AllData(items[..k + 1]) <= AllData(items)
    decreases |items| - k
  {
    Prefixes(items, k);
    if k + 1 < |items| { AllDataSplits(items, k + 1); } else { assert items[..k + 1] == items; }
  }

  /** The state after all of the head has been taken. */
  lemma HeadGone(bufs: seq<SendBuf>, items: seq<Item>, accepted: seq<byte>)
    requires QueueOk(bufs, items) && Sent(bufs, items, accepted) && bufs != []
    ensures QueueOk(bufs[1..], items)
    ensures Sent(bufs[1..], items, accepted + Left(bufs[0]))
  {
    hide QueueOk, Sent;
    HeadFits(bufs, items);
    var e := bufs[0];
    HeadSent(bufs, items, accepted, e.len);
    var bufs' := bufs[0 := e.(off := e.off + e.len, len := 0)];
    HeadDropped(bufs', items, accepted + e.data[e.off..e.off + e.len]);
    assert bufs'[1..] == bufs[1..];
  }

  /** What the kernel took, followed by what is still queued, is everything ever queued, in order. */
  lemma {:induction false} NothingLostOrReordered(bufs: seq<SendBuf>, items: seq<Item>, accepted: seq<byte>)
    requires QueueOk(bufs, items) && Sent(bufs, items, accepted)
    ensures accepted + Remaining(bufs) == AllData(items)
    decreases |bufs|
  {
    hide QueueOk, Sent, AllData, EntryOk, Left, Remaining;
    RemainingStep(bufs);
    if bufs == [] {
      AllSent(items, accepted);
    } else {
      HeadGone(bufs, items, accepted);
      NothingLostOrReordered(bufs[1..], items, accepted + Left(bufs[0]));
      Assoc(accepted, Left(bufs[0]), Remaining(bufs[1..]));
    }
  }

  /** Every entry lies within its data. */
  ghost predicate Fit(bufs: seq<SendBuf>) {
    forall i :: 0 <= i < |bufs| ==> bufs[i].off + bufs[i].len <= |bufs[i].data|
  }

  lemma QueueFits(bufs: seq<SendBuf>, items: seq<Item>)
    requires QueueOk(bufs, items)
    ensures Fit(bufs)
  {
    forall i | 0 <= i < |bufs| ensures bufs[i].off + bufs[i].len <= |bufs[i].data| { assert EntryAt(bufs, items, i); }
  }

  /** What goes out, followed by what stays, is what was queued. */
  lemma {:induction false} FlushConserves(bufs: seq<SendBuf>, answers: seq<Taken>)
    requires Fit(bufs)
    ensures Goes(bufs, answers) + Remaining(Stays(bufs, answers)) == Remaining(bufs)
    decreases |bufs|
  {
    hide Left, Remaining, Goes, Stays, Result;
    RemainingStep(bufs);
    RemainingStep([]);
    FlushStep(bufs, answers);
    if bufs != [] {
      var e, a, stays := bufs[0], First(answers, Took(0)), Stays(bufs, answers);
      if Breaks(e, a) || Takes(e, a) < e.len {
        RemainingStep(stays);
        LeftAdvances(e, Takes(e, a));
        assert stays[1..] == bufs[1..];
        Assoc(e.data[e.off..e.off + Takes(e, a)], Left(stays[0]), Remaining(bufs[1..]));
      } else {
        FlushConserves(bufs[1..], Rest(answers));
        LeftWhole(e);
        Assoc(Left(e), Goes(bufs[1..], Rest(answers)), Remaining(stays));
      }
    }
  }

  /**
   * What the return value of a flush means: the answers take some entries whole and at most a part of the next, k being
   * the entries gone. It is an error exactly when answer k is an error other than would-block, which is one for a
   * shutdown as well; else octets of entry k remain.
   */
  lemma {:induction false} FlushExactly(bufs: seq<SendBuf>, answers: seq<Taken>)
    requires Fit(bufs)
    ensures var stays, r := Stays(bufs, answers), Result(bufs, answers);
      && |stays| <= |bufs|
      && (stays == [] ==> r == 0)
      && (stays != [] ==>
            var k := |bufs| - |stays|;
            var a := if k < |answers| then answers[k] else Took(0);
            && stays[1..] == bufs[k + 1..]
            && if a == Refused || (a == WouldBlock && bufs[k].kind == Shutdown) then r == -1 && stays == bufs[k..]
               else r == 1 && stays[0].len > 0 && bufs[k].len - stays[0].len == if a == WouldBlock then 0 else a.count)
    decreases |bufs|
  {
    hide Goes, Stays, Result;
    FlushStep(bufs, answers);
    if bufs != [] {
      var e, a, stays := bufs[0], First(answers, Took(0)), Stays(bufs, answers);
      if Breaks(e, a) || Takes(e, a) < e.len {
        assert stays[1..] == bufs[1..] && bufs[0..] == bufs && (Takes(e, a) == 0 ==> stays == bufs);
      } else {
        FlushExactly(bufs[1..], Rest(answers));
        var k := |bufs| - |stays|;
        assert bufs[1..][k - 1..] == bufs[k..] && (stays != [] ==> bufs[1..][k..] == bufs[k + 1..]);
      }
    }
  }

  lemma LeftAdvances(e: SendBuf, n: nat)
    requires e.off + e.len <= |e.data| && n <= e.len
    ensures e.data[e.off..e.off + n] + Left(e.(off := e.off + n, len := e.len - n)) == Left(e)
  {}

  lemma LeftWhole(e: SendBuf)
    requires e.off + e.len <= |e.data|
    ensures Left(e) == e.data[e.off..e.off + e.len]
  {}

  lemma AllSent(items: seq<Item>, accepted: seq<byte>)
    requires QueueOk([], items) && Sent([], items, accepted)
    ensures accepted + [] == AllData(items)
  {
    assert items[..|items|] == items;
  }

  lemma RemainingStep(bufs: seq<SendBuf>)
    ensures Remaining(bufs) == if bufs == [] then [] else Left(bufs[0]) + Remaining(bufs[1..])
  {}

  /** A shutdown request that is no longer queued was carried out after exactly the octets queued before it. */
  lemma {:induction false} ShutdownsAfterEarlierData(items: seq<Item>, k: nat)
    requires k < |items| && items[k].kind.Shutdown?
    ensures |AllData(items[..k])| in ShutdownPoints(items)
    decreases |items|
  {
    var n := |items| - 1;
    if k < n {
      ShutdownsAfterEarlierData(items[..n], k);
      assert items[..n][..k] == items[..k];
    }
  }
}
