/** Domain-name compression and expansion (dns.c:117-253; section 4.1.4 of RFC 1035). */
module DnsName {
  import opened Bytes

  type Text = seq<byte>
  type Dict = map<Text, nat>

  const DOT: byte := 46
  const DNS_NAME_MAX := 256

  // ---------------------------------------------------------------------------------------------
  // The specification of packing
  // ---------------------------------------------------------------------------------------------

  /** Length of the first label: strchr(src, '.') or the whole string. */
  function DotIndex(s: Text): (n: nat)
    ensures n <= |s| && DOT !in s[..n]
    ensures n < |s| ==> s[n] == DOT
  {
    if s == [] || s[0] == DOT then 0 else
      assert s[..1 + DotIndex(s[1..])] == [s[0]] + s[1..][..DotIndex(s[1..])];
      1 + DotIndex(s[1..])
  }

  /** What follows the first label and its dot. */
  function Rest(s: Text): (r: Text)
    ensures s != [] ==> |r| < |s|
    ensures 0 !in s ==> 0 !in r
  {
    if DotIndex(s) < |s| then s[DotIndex(s) + 1..] else []
  }

  /** The first label as it is written: its length, then its characters. */
  function LabelBytes(s: Text): (r: seq<byte>)
    requires |s| < DNS_NAME_MAX
    ensures |r| == DotIndex(s) + 1
  {
    [DotIndex(s)] + s[..DotIndex(s)]
  }

  /** The two octets written for a back-reference to offset i. */
  function PointerBytes(i: nat): seq<byte> {
    [192 + i / 256 % 64, i % 256]
  }

  datatype Packed = Packed(ok: bool, out: seq<byte>, dict: Dict)

  /** Octets written at offset at, and the dictionary afterwards, also when packing stops half-way. */
  function Pack(src: Text, at: nat, room: int, limit: nat, dict: Dict): (p: Packed)
    ensures |p.out| <= if src == [] then 1 else if room < 0 then 0 else room
    decreases |src|
  {
    if src == [] then Packed(true, [0], dict)
    else if |src| >= DNS_NAME_MAX then Packed(false, [], dict)
    else if src in dict then
      if dict[src] < 0xC000 && room >= 2 then Packed(true, PointerBytes(dict[src]), dict)
      else Packed(false, [], dict)
    else if at >= limit then Packed(false, [], dict)
    else
      var n := DotIndex(src);
      if room <= n + 1 then Packed(false, [], dict[src := at])
      else
        var p := Pack(Rest(src), at + 1 + n, room - 1 - n, limit, dict[src := at]);
        Packed(p.ok, LabelBytes(src) + p.out, p.dict)
  }

  /** q is what remains to be done of p once the octets written are out. */
  ghost predicate PackContinues(p: Packed, written: seq<byte>, q: Packed) {
    p.ok == q.ok && p.out == written + q.out && p.dict == q.dict
  }

  /** Pack on a name the dictionary lacks: one label, then Pack on the rest. */
  lemma PackLabel(src: Text, at: nat, room: int, limit: nat, dict: Dict)
    requires 0 < |src| < DNS_NAME_MAX && src !in dict && at < limit && room > DotIndex(src) + 1
    ensures var q := Pack(Rest(src), at + 1 + DotIndex(src), room - 1 - DotIndex(src), limit, dict[src := at]);
      Pack(src, at, room, limit, dict) == Packed(q.ok, LabelBytes(src) + q.out, q.dict)
  {}

  /** Pack on a name that ends in this turn of the loop. */
  lemma PackEnds(src: Text, at: nat, room: int, limit: nat, dict: Dict)
    ensures var p := Pack(src, at, room, limit, dict);
      && (src == [] ==> p == Packed(true, [0], dict))
      && (0 < |src| ==>
           if |src| >= DNS_NAME_MAX then p == Packed(false, [], dict)
           else if src in dict then
             p == if dict[src] < 0xC000 && room >= 2 then Packed(true, PointerBytes(dict[src]), dict)
               else Packed(false, [], dict)
           else if at >= limit then p == Packed(false, [], dict)
           else room <= DotIndex(src) + 1 ==> p == Packed(false, [], dict[src := at]))
  {}

  lemma ContinueAfter(p: Packed, written: seq<byte>, piece: seq<byte>, q: Packed, q': Packed)
    requires PackContinues(p, written, q) && q == Packed(q'.ok, piece + q'.out, q'.dict)
    ensures PackContinues(p, written + piece, q')
  {
    assert written + (piece + q'.out) == written + piece + q'.out;
  }

  // ---------------------------------------------------------------------------------------------
  // The specification of unpacking
  // ---------------------------------------------------------------------------------------------

  datatype Walked = Stuck | Done(labels: seq<Text>)

  /** The 14-bit offset of a back-reference. */
  function Offset(hi: byte, lo: byte): nat {
    var n: int := hi;
    n % 64 * 256 + lo
  }

  function Push(l: Text, w: Walked): Walked {
    if w.Done? then Done([l] + w.labels) else Stuck
  }

  /** The offset as the code reads it: where char is signed, a low octet of 128 or more makes it negative. */
  function ReadOffset(hi: byte, lo: byte, signed: bool): int {
    if signed && lo >= 128 then lo - 256 else Offset(hi, lo)
  }

  /** Labels reached from pos, reading below stop, following at most jumps back-references. */
  function Walk(msg: seq<byte>, pos: nat, stop: nat, jumps: nat, signed: bool := false): Walked
    requires stop <= |msg|
    decreases jumps, if pos < stop then stop - pos else 0
  {
    if pos >= stop then Stuck
    else
      var n: int := msg[pos];
      if n == 0 then Done([])
      else if n >= 64 then
        if jumps == 0 || pos + 1 >= stop then Stuck
        else
          var off := ReadOffset(msg[pos], msg[pos + 1], signed);
          if off <= 0 then Stuck else Walk(msg, off, |msg|, jumps - 1, signed)
      else if pos + 1 + n >= stop then Stuck
      else Push(StrNCopy(msg[pos + 1..pos + 1 + n]), Walk(msg, pos + 1 + n, stop, jumps, signed))
  }

  /** Every back-reference met on the way has a low octet below 128. */
  ghost predicate LowReferences(msg: seq<byte>, pos: nat, stop: nat, jumps: nat)
    requires stop <= |msg|
    decreases jumps, if pos < stop then stop - pos else 0
  {
    pos < stop && msg[pos] != 0 ==>
      var n: int := msg[pos];
      if n >= 64 then
        jumps > 0 && pos + 1 < stop ==>
          msg[pos + 1] < 128 && LowReferences(msg, Offset(msg[pos], msg[pos + 1]), |msg|, jumps - 1)
      else pos + 1 + n < stop ==> LowReferences(msg, pos + 1 + n, stop, jumps)
  }

  /**
   * Where char is signed, a name is read exactly when it is read elsewhere and all its references are low; then alike.
   */
  lemma {:induction false} SignedWalk(msg: seq<byte>, pos: nat, stop: nat, jumps: nat)
    requires stop <= |msg|
    ensures Walk(msg, pos, stop, jumps, true).Done? <==>
      Walk(msg, pos, stop, jumps).Done? && LowReferences(msg, pos, stop, jumps)
    ensures Walk(msg, pos, stop, jumps, true).Done? ==> Walk(msg, pos, stop, jumps, true) == Walk(msg, pos, stop, jumps)
    decreases jumps, if pos < stop then stop - pos else 0
  {
    hide StrNCopy;
    if pos < stop {
      var n: int := msg[pos];
      if n >= 64 {
        if jumps > 0 && pos + 1 < stop { SignedWalk(msg, Offset(msg[pos], msg[pos + 1]), |msg|, jumps - 1); }
      } else if 0 < n && pos + 1 + n < stop {
        SignedWalk(msg, pos + 1 + n, stop, jumps);
      }
    }
  }

  /** Labels separated by dots. */
  function Join(ls: seq<Text>): Text {
    if ls == [] then [] else if |ls| == 1 then ls[0]
    else ls[0] + [DOT] + Join(ls[1..])
  }

  /** The text dns_unpack_name leaves in a destination of dstlen octets, if it succeeds. */
  function Unpacked(msg: seq<byte>, pos: nat, stop: nat, dstlen: int, signed: bool): Option<Text>
    requires stop <= |msg|
  {
    var w := Walk(msg, pos, stop, 99, signed);
    if w.Done? && |Join(w.labels)| < dstlen then Some(Join(w.labels)) else None
  }

  /** First octet after the name at pos: after its terminator or after its first back-reference. */
  function NameEnd(msg: seq<byte>, pos: nat): nat
    decreases if pos < |msg| then |msg| - pos else 0
  {
    if pos >= |msg| then pos
    else if msg[pos] == 0 then pos + 1
    else if msg[pos] >= 64 then pos + 2
    else NameEnd(msg, pos + 1 + msg[pos])
  }

  function Prepend(ls: seq<Text>, w: Walked): Walked {
    if w.Done? then Done(ls + w.labels) else Stuck
  }

  /** The destination takes the text and its NUL, and a smaller one makes the call fail. */
  lemma RoomForNul(msg: seq<byte>, pos: nat, stop: nat, dstlen: int, signed: bool)
    requires stop <= |msg|
    ensures var w := Walk(msg, pos, stop, 99, signed);
      Unpacked(msg, pos, stop, dstlen, signed).Some? <==> w.Done? && |Join(w.labels)| + 1 <= dstlen
  {}

  /** Appending a label to joined labels, the way the unpacking loop does. */
  lemma {:induction false} JoinAppend(ls: seq<Text>, l: Text)
    ensures Join(ls + [l]) == if ls == [] then l else Join(ls) + [46] + l
  {
    if |ls| > 1 {
      JoinAppend(ls[1..], l);
      assert (ls + [l])[1..] == ls[1..] + [l];
    } else if |ls| == 1 {
      assert (ls + [l])[1..] == [l];
    }
  }

  lemma JoinNothing()
    ensures Join([]) == []
    ensures forall ls :: ls != [] && |ls[0]| >= 1 ==> |Join(ls)| >= 1
    ensures forall w :: Prepend([], w) == w
  {}

  /** One turn of the unpacking loop is one step of the walk. */
  lemma WalkCases(msg: seq<byte>, src: nat, stop: nat, jumps: nat, ls: seq<Text>, signed: bool)
    requires src < stop <= |msg|
    ensures var n: int, w := msg[src], Prepend(ls, Walk(msg, src, stop, jumps, signed));
      && (n == 0 ==> w == Done(ls) && NameEnd(msg, src) == src + 1)
      && (n >= 64 ==> NameEnd(msg, src) == src + 2)
      && (n >= 64 && (jumps == 0 || src + 1 >= stop || ReadOffset(msg[src], msg[src + 1], signed) <= 0) ==> w == Stuck)
      && (n >= 64 && jumps > 0 && src + 1 < stop && ReadOffset(msg[src], msg[src + 1], signed) > 0 ==>
            w == Prepend(ls, Walk(msg, ReadOffset(msg[src], msg[src + 1], signed), |msg|, jumps - 1, signed)))
      && (1 <= n < 64 && src + 1 + n >= stop ==> w == Stuck)
      && (1 <= n < 64 && src + 1 + n < stop ==>
            && w == Prepend(ls + [StrNCopy(msg[src + 1..src + 1 + n])], Walk(msg, src + 1 + n, stop, jumps, signed))
            && NameEnd(msg, src) == NameEnd(msg, src + 1 + n))
  {
    var n: int := msg[src];
    if 1 <= n < 64 && src + 1 + n < stop {
      var piece, w := StrNCopy(msg[src + 1..src + 1 + n]), Walk(msg, src + 1 + n, stop, jumps, signed);
      if w.Done? { assert ls + ([piece] + w.labels) == ls + [piece] + w.labels; }
    } else if n == 0 {
      assert ls + [] == ls;
    }
  }

  lemma WalkOut(msg: seq<byte>, src: nat, stop: nat, jumps: nat, ls: seq<Text>, signed: bool)
    requires stop <= |msg| && src >= stop
    ensures Prepend(ls, Walk(msg, src, stop, jumps, signed)) == Stuck
  {}

  lemma WalkTooLong(ls: seq<Text>, w: Walked, dstlen: nat)
    requires |Join(ls)| >= dstlen
    ensures Prepend(ls, w).Done? ==> |Join(Prepend(ls, w).labels)| >= dstlen
  {
    if w.Done? { JoinGrows(ls, w.labels); }
  }

  /** Joining more labels never gives a shorter text. */
  lemma {:induction false} JoinGrows(ls: seq<Text>, more: seq<Text>)
    ensures |Join(ls)| <= |Join(ls + more)|
    decreases |more|
  {
    if more == [] { assert ls + more == ls; }
    else {
      JoinAppend(ls, more[0]);
      JoinGrows(ls + [more[0]], more[1..]);
      assert ls + [more[0]] + more[1..] == ls + more;
    }
  }
}
