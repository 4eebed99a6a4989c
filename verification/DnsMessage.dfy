/** dns_t: a DNS message in its buffer, with its header fields and its name dictionary (dns.c:40-253). */
module DnsMessage {
  import opened Bytes
  import opened DnsHeader
  import opened DnsName

  class Dns {
    const buf: array<byte>
    var ptr: nat
    var name_hash: Dict
    var id: int
    var qr: int
    var opcode: int
    var aa: int
    var tc: int
    var rd: int
    var ra: int
    var x3: int
    var rcode: int
    var qrcount: int
    var ancount: int
    var nscount: int
    var arcount: int

    ghost function View(): Hdr
      reads this
    {
      Hdr(id, qr, opcode, aa, tc, rd, ra, x3, rcode, qrcount, ancount, nscount, arcount)
    }

    /** dns_init: the position behind the header, all fields zero, no names yet. */
    constructor (buf: array<byte>)
      ensures this.buf == buf && ptr == DNS_HDR_LEN && name_hash == map[]
      ensures View() == Hdr(0, 0, 0, 0, 0, 0, 0, 0, 0, 0, 0, 0, 0)
    {
      this.buf := buf;
      ptr, name_hash := DNS_HDR_LEN, map[];
      id, qr, opcode, aa, tc, rd, ra, x3, rcode := 0, 0, 0, 0, 0, 0, 0, 0, 0;
      qrcount, ancount, nscount, arcount := 0, 0, 0, 0;
    }

    /** The value of the u16 at i. */
    method GetU16(i: nat) returns (v: int)
      requires i + 1 < buf.Length
      ensures v == U16(buf[..], i)
    {
      var hi: int, lo: int := buf[i], buf[i + 1];
      v := hi * 256 + lo;
    }

    method PutU16(i: nat, v: int)
      requires i + 1 < buf.Length
      modifies buf
      ensures buf[..] == old(buf[..])[i := High(v)][i + 1 := Low(v)]
    {
      buf[i], buf[i + 1] := High(v), Low(v);
    }

    method PackFlags() returns (u: int)
      ensures u == Flags(View())
    {
      hide SetBits, Flags;
      SetAll(View());
      u := SetBits(0, qr, 2, 32768);
      u := SetBits(u, opcode, 16, 2048);
      u := SetBits(u, aa, 2, 1024);
      u := SetBits(u, tc, 2, 512);
      u := SetBits(u, rd, 2, 256);
      u := SetBits(u, ra, 2, 128);
      u := SetBits(u, x3, 8, 16);
      u := SetBits(u, rcode, 16, 1);
    }

    /** dns_pack from the network to the host: the fields are filled in from the first twelve octets. */
    method UnpackHeader() returns (len: int)
      requires buf.Length >= DNS_HDR_LEN
      modifies this
      ensures View() == Decode(buf[..]) && len == ptr == old(ptr) && name_hash == old(name_hash)
    {
      hide U16, FlagFields;
      id := GetU16(0);
      var u := GetU16(2);
      ghost var before := View();
      UnpackFlags(u);
      UnpackCounts();
      FlagsApart(u, before, qrcount, ancount, nscount, arcount);
      len := ptr;
    }

    method UnpackCounts()
      requires buf.Length >= DNS_HDR_LEN
      modifies `qrcount, `ancount, `nscount, `arcount
      ensures View() == old(View()).(qrcount := U16(buf[..], 4), ancount := U16(buf[..], 6),
                                     nscount := U16(buf[..], 8), arcount := U16(buf[..], 10))
    {
      hide U16;
      qrcount := GetU16(4);
      ancount := GetU16(6);
      nscount := GetU16(8);
      arcount := GetU16(10);
    }

    method UnpackFlags(u: nat)
      modifies `qr, `opcode, `aa, `tc, `rd, `ra, `x3, `rcode
      ensures View() == FlagFields(u, old(View()))
    {
      hide GetBits;
      qr, opcode, aa, tc := GetBits(u, 2, 32768), GetBits(u, 16, 2048), GetBits(u, 2, 1024), GetBits(u, 2, 512);
      rd, ra, x3, rcode := GetBits(u, 2, 256), GetBits(u, 2, 128), GetBits(u, 8, 16), GetBits(u, 16, 1);
    }

    /** dns_pack from the host to the network: the twelve octets are rewritten, the rest of the message stays. */
    method PackHeader() returns (len: int)
      requires buf.Length >= DNS_HDR_LEN
      modifies buf
      ensures len == ptr
      ensures buf[..] == Encode(View()) + old(buf[DNS_HDR_LEN..])
    {
      hide High, Low, Flags;
      ghost var msg := buf[..];
      PutU16(0, id);
      var u := PackFlags();
      PutU16(2, u);
      PutU16(4, qrcount);
      PutU16(6, ancount);
      PutU16(8, nscount);
      PutU16(10, arcount);
      PutAll(msg, View());
      len := ptr;
    }

    /** Octets stored after those already written. */
    method Emit(ghost b0: seq<byte>, ghost dst: nat, ghost written: seq<byte>, d: nat, piece: seq<byte>)
      returns (d': nat, ghost written': seq<byte>)
      requires |b0| == buf.Length && d == dst + |written| && d + |piece| <= buf.Length
      requires buf[..] == Splice(b0, dst, written)
      modifies buf
      ensures d' == d + |piece| && written' == written + piece
      ensures buf[..] == Splice(b0, dst, written')
    {
      SpliceTwice(b0, dst, written, piece);
      forall j | 0 <= j < |piece| { buf[d + j] := piece[j]; }
      assert buf[..] == Splice(Splice(b0, dst, written), d, piece);
      d', written' := d + |piece|, written + piece;
    }

    /** dns_pack_name: src is a C string; writes at buf[dst..], at most dstlen octets. */
    method PackName(src: Text, dst: nat, dstlen: int) returns (r: int)
      requires 0 !in src
      requires dst <= buf.Length && dst + dstlen <= buf.Length
      requires src == [] ==> dstlen >= 1
      modifies buf, this`name_hash
      ensures var p := Pack(src, dst, dstlen, buf.Length, old(name_hash));
        && r == (if p.ok then |p.out| else -1)
        && name_hash == p.dict
        && dst + |p.out| <= buf.Length
        && buf[..] == Splice(old(buf[..]), dst, p.out)
    {
      hide Pack, Splice, LabelBytes, PointerBytes, Rest, DotIndex;
      SpliceNothing(buf[..], dst);
      var rest, d, room, err := src, dst, dstlen, -1;
      ghost var b0 := buf[..];
      ghost var p := Pack(src, dst, dstlen, buf.Length, name_hash);
      ghost var written: seq<byte> := [];
      while true
        invariant d == dst + |written| && d <= buf.Length && d + room <= buf.Length
        invariant rest == [] ==> room >= 1
        invariant err == -1
        invariant buf[..] == Splice(b0, dst, written)
        invariant PackContinues(p, written, Pack(rest, d, room, buf.Length, name_hash))
        decreases |rest|
      {
        PackEnds(rest, d, room, buf.Length, name_hash);
        ghost var q := Pack(rest, d, room, buf.Length, name_hash);
        if rest == [] {
          d, written := Emit(b0, dst, written, d, [0]);
          err := 0;
          break;
        }
        if !(|rest| < DNS_NAME_MAX) { break; }
        if rest in name_hash {
          var i := name_hash[rest];
          if !(i < 0xC000) { break; }
          if !(room >= 2) { break; }
          d, written := Emit(b0, dst, written, d, PointerBytes(i));
          err := 0;
          break;
        }
        if !(d < buf.Length) { break; }
        ghost var dict := name_hash;
        name_hash := name_hash[rest := d];
        var n := DotIndex(rest);
        if !(room > n + 1) { break; }
        PackLabel(rest, d, room, buf.Length, dict);
        ContinueAfter(p, written, LabelBytes(rest), q,
          Pack(Rest(rest), d + 1 + n, room - 1 - n, buf.Length, name_hash));
        d, written := Emit(b0, dst, written, d, LabelBytes(rest));
        rest, room := Rest(rest), room - 1 - n;
      }
      assert p.out == written;
      r := if err == 0 then d - dst else err;
    }

    /** A dot if needed, then strncpy from the message (dns.c:232-244); fails when the destination is too small. */
    method CopyLabel(ghost ls: seq<Text>, src: nat, n: nat, dst: array<byte>, d: nat, dstlen: nat)
      returns (ok: bool, d': nat)
      requires dst != buf && src + n <= buf.Length && dstlen <= dst.Length
      requires forall l :: l in ls ==> |l| >= 1
      requires d == |Join(ls)| < dstlen && dst[..d] == Join(ls)
      modifies dst
      ensures var all := Join(ls + [StrNCopy(buf[src..src + n])]);
        && ok == (|all| < dstlen)
        && (ok ==> d' == |all| && dst[..d'] == all)
    {
      hide Join, StrNCopy;
      JoinNothing();
      var piece := StrNCopy(buf[src..src + n]);
      JoinAppend(ls, piece);
      ok, d' := false, d;
      if d' > 0 {
        if !(dstlen - d' > 1) { return; }
        dst[d'] := DOT;
        d' := d' + 1;
      }
      if !(dstlen - d' > n) { return; }
      ghost var before, msg := dst[..d'], buf[..];
      forall j | 0 <= j < n { dst[d' + j] := piece[j]; }
      assert buf[..] == msg && dst[..d' + n] == before + piece;
      assert buf[src..src + n] == msg[src..src + n];
      ok, d' := true, d' + n;
    }

    /**
     * dns_unpack_name, where char may be signed: returns the number of octets written with the terminating NUL, or -1.
     */
    method UnpackName(pos: nat, srclen: nat, dst: array<byte>, dstlen: nat, signed: bool) returns (r: int, end: int)
      requires pos + srclen <= buf.Length
      requires dst != buf && 1 <= dstlen <= dst.Length
      modifies dst
      ensures match Unpacked(buf[..], pos, pos + srclen, dstlen, signed)
        case Some(name) => r == |name| + 1 && r <= dstlen && dst[..r] == name + [0] && end == NameEnd(buf[..], pos)
        case None => r == -1
    {
      hide Walk, Join, StrNCopy, NameEnd, Prepend;
      JoinNothing();
      var src: nat, stop: nat, d: nat, ptr_max: nat := pos, pos + srclen, 0, 100;
      end := 0;
      ghost var msg := buf[..];
      ghost var ls: seq<Text> := [];
      while src < stop
        invariant stop <= |msg| && buf[..] == msg
        invariant 1 <= ptr_max <= 100
        invariant forall l :: l in ls ==> |l| >= 1
        invariant Walk(msg, pos, pos + srclen, 99, signed) == Prepend(ls, Walk(msg, src, stop, ptr_max - 1, signed))
        invariant d == |Join(ls)| < dstlen && dst[..d] == Join(ls)
        invariant if end == 0 then NameEnd(msg, src) == NameEnd(msg, pos) else end == NameEnd(msg, pos)
        decreases ptr_max, stop - src
      {
        var n: int := buf[src];
        WalkCases(msg, src, stop, ptr_max - 1, ls, signed);
        if n == 0 {
          dst[d] := 0;
          if end == 0 { end := src + 1; }
          assert dst[..d + 1] == dst[..d] + [0];
          return d + 1, end;
        }
        if n >= 64 {
          ptr_max := ptr_max - 1;
          if !(ptr_max > 0) { return -1, end; }
          if !(stop - (src + 1) > 0) { return -1, end; }
          n := ReadOffset(buf[src], buf[src + 1], signed);
          if !(n > 0) { return -1, end; }
          if end == 0 { end := src + 2; }
          src, stop := n, buf.Length;
          continue;
        }
        // A label that reaches the end of the source leaves nothing to read: the loop ends with an error.
        if !(src + 1 + n < stop) { return -1, end; }
        var ok;
        ok, d := CopyLabel(ls, src + 1, n, dst, d, dstlen);
        if !ok {
          ghost var w := Walk(msg, src + 1 + n, stop, ptr_max - 1, signed);
          WalkTooLong(ls + [StrNCopy(msg[src + 1..src + 1 + n])], w, dstlen);
          return -1, end;
        }
        ls := ls + [StrNCopy(msg[src + 1..src + 1 + n])];
        src := src + 1 + n;
      }
      WalkOut(msg, src, stop, ptr_max - 1, ls, signed);
      return -1, end;
    }
  }
}
