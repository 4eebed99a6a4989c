/** The DNS message header and its bit fields (dns.c:15-39 and 71-113; section 4.1.1 of RFC 1035). */
module DnsHeader {
  import opened Bytes

  const DNS_HDR_LEN := 12

  /** The header fields of dns_t. */
  datatype Hdr = Hdr(id: int, qr: int, opcode: int, aa: int, tc: int, rd: int, ra: int, x3: int, rcode: int,
                     qrcount: int, ancount: int, nscount: int, arcount: int)

  /** pack_bits towards the host: a field of size values in steps of unit. */
  function GetBits(net: nat, size: nat, unit: nat): (host: nat)
    requires size > 0 && unit > 0
    ensures host < size
  {
    net / unit % size
  }

  /** pack_bits towards the network: the old field is cleared, the low bits of host are put in. */
  function SetBits(net: nat, host: int, size: nat, unit: nat): int
    requires size > 0 && unit > 0
  {
    net - net / unit % size * unit + host % size * unit
  }

  function Low(v: int): byte { v % 256 }

  function High(v: int): byte { v / 256 % 256 }

  function U16(b: seq<byte>, i: nat): (v: nat)
    requires i + 1 < |b|
    ensures v < 0x10000
  {
    var hi: int, lo: int := b[i], b[i + 1];
    hi * 256 + lo
  }

  /** A host value as the two octets of a u16 in network order. */
  function Octets(v: int): seq<byte> { [High(v), Low(v)] }

  function Flags(h: Hdr): int {
    h.qr % 2 * 32768 + h.opcode % 16 * 2048 + h.aa % 2 * 1024 + h.tc % 2 * 512 + h.rd % 2 * 256
    + h.ra % 2 * 128 + h.x3 % 8 * 16 + h.rcode % 16
  }

  function Encode(h: Hdr): (b: seq<byte>)
    ensures |b| == DNS_HDR_LEN
  {
    Octets(h.id) + Octets(Flags(h)) + Octets(h.qrcount) + Octets(h.ancount) + Octets(h.nscount) + Octets(h.arcount)
  }

  function FlagFields(u: nat, h: Hdr): Hdr {
    h.(qr := GetBits(u, 2, 32768), opcode := GetBits(u, 16, 2048), aa := GetBits(u, 2, 1024), tc := GetBits(u, 2, 512),
       rd := GetBits(u, 2, 256), ra := GetBits(u, 2, 128), x3 := GetBits(u, 8, 16), rcode := GetBits(u, 16, 1))
  }

  function Decode(b: seq<byte>): Hdr
    requires |b| >= DNS_HDR_LEN
  {
    FlagFields(U16(b, 2), Hdr(U16(b, 0), 0, 0, 0, 0, 0, 0, 0, 0, U16(b, 4), U16(b, 6), U16(b, 8), U16(b, 10)))
  }

  /** Every field fits its width. */
  predicate InRange(h: Hdr) {
    && 0 <= h.id < 0x10000 && 0 <= h.qr < 2 && 0 <= h.opcode < 16 && 0 <= h.aa < 2 && 0 <= h.tc < 2
    && 0 <= h.rd < 2 && 0 <= h.ra < 2 && 0 <= h.x3 < 8 && 0 <= h.rcode < 16
    && 0 <= h.qrcount < 0x10000 && 0 <= h.ancount < 0x10000 && 0 <= h.nscount < 0x10000 && 0 <= h.arcount < 0x10000
  }

  /** The twelve octets as section 4.1.1 of RFC 1035 lays them out. */
  lemma WireFormat(h: Hdr)
    requires InRange(h)
    ensures var b := Encode(h);
      && 256 * (b[0] as int) + b[1] == h.id
      && b[2] == 128 * h.qr + 8 * h.opcode + 4 * h.aa + 2 * h.tc + h.rd && b[3] == 128 * h.ra + 16 * h.x3 + h.rcode
      && 256 * (b[4] as int) + b[5] == h.qrcount && 256 * (b[6] as int) + b[7] == h.ancount
      && 256 * (b[8] as int) + b[9] == h.nscount && 256 * (b[10] as int) + b[11] == h.arcount
  {
    hide Flags;
    FlagOctets(h);
  }

  lemma FlagOctets(h: Hdr)
    requires InRange(h)
    ensures High(Flags(h)) == 128 * h.qr + 8 * h.opcode + 4 * h.aa + 2 * h.tc + h.rd
    ensures Low(Flags(h)) == 128 * h.ra + 16 * h.x3 + h.rcode
  {
    var hi, lo := 128 * h.qr + 8 * h.opcode + 4 * h.aa + 2 * h.tc + h.rd, 128 * h.ra + 16 * h.x3 + h.rcode;
    FlagsAsOctets(h);
    hide Flags, InRange;
    TwoOctets(hi, lo);
  }

  lemma FlagsAsOctets(h: Hdr)
    requires InRange(h)
    ensures var hi, lo := 128 * h.qr + 8 * h.opcode + 4 * h.aa + 2 * h.tc + h.rd, 128 * h.ra + 16 * h.x3 + h.rcode;
      Flags(h) == 256 * hi + lo && 0 <= hi < 256 && 0 <= lo < 256
  {
    Fits(h.qr, 2); Fits(h.opcode, 16); Fits(h.aa, 2); Fits(h.tc, 2);
    Fits(h.rd, 2); Fits(h.ra, 2); Fits(h.x3, 8); Fits(h.rcode, 16);
  }

  lemma Fits(x: int, size: nat)
    requires 0 <= x < size
    ensures x % size == x
  {}

  lemma TwoOctets(hi: int, lo: int)
    requires 0 <= hi < 256 && 0 <= lo < 256
    ensures High(256 * hi + lo) == hi && Low(256 * hi + lo) == lo
  {}

  lemma OctetsOfU16(b: seq<byte>, i: nat)
    requires i + 1 < |b|
    ensures Octets(U16(b, i)) == b[i..i + 2]
  {}

  lemma U16OfOctets(v: int, s: seq<byte>, i: nat)
    requires i + 1 < |s| && s[i] == High(v) && s[i + 1] == Low(v)
    ensures U16(s, i) == v % 0x10000
    ensures U16(s, i) == v <==> 0 <= v < 0x10000
  {
    assert v == v / 256 * 256 + v % 256;
  }

  lemma BitsOf(q: int, size: nat, unit: nat, rest: int, above: int)
    requires size > 0 && unit > 0 && 0 <= rest < unit && 0 <= q < size && above >= 0
    ensures var u := (above * size + q) * unit + rest; u >= 0 && GetBits(u, size, unit) == q
  {
    var m := above * size + q;
    var u := m * unit + rest;
    DivideExactly(m, unit, rest);
    DivideExactly(above, size, q);
  }

  lemma DivideExactly(m: int, d: nat, r: int)
    requires 0 <= r < d && m >= 0
    ensures m * d + r >= 0 && (m * d + r) / d == m && (m * d + r) % d == r
  {
    var u := m * d + r;
    assert u == u / d * d + u % d;
    var k := u / d - m;
    assert k * d == r - u % d;
    MultipleApart(k, d);
  }

  /** Putting bits in replaces the old field and leaves what is above and below it. */
  lemma SetBitsReplaces(above: nat, q: nat, rest: nat, host: int, size: nat, unit: nat)
    requires size > 0 && unit > 0 && rest < unit && q < size
    ensures var net := (above * size + q) * unit + rest;
      net >= 0 && SetBits(net, host, size, unit) == net + (host % size - q) * unit
  {
    hide GetBits;
    BitsOf(q, size, unit, rest, above);
    var net := (above * size + q) * unit + rest;
    DivideExactly(above * size + q, unit, rest);
    DivideExactly(above, size, q);
    Spread(host % size, q, unit);
  }

  lemma Spread(a: int, b: int, unit: int)
    ensures (a - b) * unit == a * unit - b * unit
  {}

  lemma MultipleApart(k: int, d: int)
    requires d > 0
    ensures k >= 1 ==> k * d >= d
    ensures k <= -1 ==> k * d <= -d
    ensures k == 0 ==> k * d == 0
  {}

  /** Reading the flag word gives back every field cut to its width. */
  lemma FieldsOfFlags(h: Hdr)
    ensures 0 <= Flags(h) < 0x10000
    ensures FlagFields(Flags(h), h) == h.(qr := h.qr % 2, opcode := h.opcode % 16, aa := h.aa % 2, tc := h.tc % 2,
                                          rd := h.rd % 2, ra := h.ra % 2, x3 := h.x3 % 8, rcode := h.rcode % 16)
  {
    var a, b, c, d, e, f, g, i := h.qr % 2, h.opcode % 16, h.aa % 2, h.tc % 2, h.rd % 2, h.ra % 2, h.x3 % 8,
      h.rcode % 16;
    FieldsOfSum(a, b, c, d, e, f, g, i);
  }

  lemma FieldsOfSum(a: int, b: int, c: int, d: int, e: int, f: int, g: int, i: int)
    requires 0 <= a < 2 && 0 <= b < 16 && 0 <= c < 2 && 0 <= d < 2 && 0 <= e < 2 && 0 <= f < 2 && 0 <= g < 8
      && 0 <= i < 16
    ensures var u := a * 32768 + b * 2048 + c * 1024 + d * 512 + e * 256 + f * 128 + g * 16 + i;
      && 0 <= u < 0x10000
      && GetBits(u, 2, 32768) == a && GetBits(u, 16, 2048) == b && GetBits(u, 2, 1024) == c && GetBits(u, 2, 512) == d
      && GetBits(u, 2, 256) == e && GetBits(u, 2, 128) == f && GetBits(u, 8, 16) == g && GetBits(u, 16, 1) == i
  {
    hide GetBits;
    var top := a * 16 + b;
    BitsOf(a, 2, 32768, b * 2048 + c * 1024 + d * 512 + e * 256 + f * 128 + g * 16 + i, 0);
    BitsOf(b, 16, 2048, c * 1024 + d * 512 + e * 256 + f * 128 + g * 16 + i, a);
    BitsOf(c, 2, 1024, d * 512 + e * 256 + f * 128 + g * 16 + i, top);
    BitsOf(d, 2, 512, e * 256 + f * 128 + g * 16 + i, top * 2 + c);
    BitsOf(e, 2, 256, f * 128 + g * 16 + i, top * 4 + c * 2 + d);
    BitsOf(f, 2, 128, g * 16 + i, top * 8 + c * 4 + d * 2 + e);
    BitsOf(g, 8, 16, i, top * 16 + c * 8 + d * 4 + e * 2 + f);
    BitsOf(i, 16, 1, 0, top * 128 + c * 64 + d * 32 + e * 16 + f * 8 + g);
  }

  /** Peeling the fields off a flag word, lowest first. */
  lemma SumOfFields(u: nat)
    requires u < 0x10000
    ensures GetBits(u, 2, 32768) * 32768 + GetBits(u, 16, 2048) * 2048 + GetBits(u, 2, 1024) * 1024
      + GetBits(u, 2, 512) * 512
            + GetBits(u, 2, 256) * 256 + GetBits(u, 2, 128) * 128 + GetBits(u, 8, 16) * 16 + GetBits(u, 16, 1) == u
  {
    var i, g, f, e := u % 16, u / 16 % 8, u / 128 % 2, u / 256 % 2;
    var d, c, b, a := u / 512 % 2, u / 1024 % 2, u / 2048 % 16, u / 32768;
    assert u / 16 / 8 == u / 128 && u / 128 / 2 == u / 256 && u / 256 / 2 == u / 512;
    assert u / 512 / 2 == u / 1024 && u / 1024 / 2 == u / 2048 && u / 2048 / 16 == u / 32768;
    assert a == u / 32768 % 2;
    assert u / 2048 == a * 16 + b;
    assert u / 256 == u / 2048 * 8 + c * 4 + d * 2 + e;
    assert u == u / 256 * 256 + f * 128 + g * 16 + i;
  }

  /** Packing what was unpacked restores the twelve octets: the header codec loses nothing. */
  lemma EncodeDecode(b: seq<byte>)
    requires |b| >= DNS_HDR_LEN
    ensures Encode(Decode(b)) == b[..DNS_HDR_LEN]
  {
    var h := Decode(b);
    SumOfFields(U16(b, 2));
    FlagsInRange(U16(b, 2), h);
    hide Octets, U16, Flags, FlagFields, GetBits;
    OctetsOfU16(b, 0); OctetsOfU16(b, 2); OctetsOfU16(b, 4); OctetsOfU16(b, 6); OctetsOfU16(b, 8); OctetsOfU16(b, 10);
    assert b[..12] == b[0..2] + b[2..4] + b[4..6] + b[6..8] + b[8..10] + b[10..12];
  }

  lemma FlagsOfSmall(g: Hdr)
    requires 0 <= g.qr < 2 && 0 <= g.opcode < 16 && 0 <= g.aa < 2 && 0 <= g.tc < 2
    requires 0 <= g.rd < 2 && 0 <= g.ra < 2 && 0 <= g.x3 < 8 && 0 <= g.rcode < 16
    ensures Flags(g) == g.qr * 32768 + g.opcode * 2048 + g.aa * 1024 + g.tc * 512 + g.rd * 256 + g.ra * 128
                        + g.x3 * 16 + g.rcode
  {
    CutIsSame(g.qr, 2); CutIsSame(g.opcode, 16); CutIsSame(g.aa, 2); CutIsSame(g.tc, 2);
    CutIsSame(g.rd, 2); CutIsSame(g.ra, 2); CutIsSame(g.x3, 8); CutIsSame(g.rcode, 16);
  }

  lemma FlagsInRange(u: nat, h: Hdr)
    requires u < 0x10000
    ensures Flags(FlagFields(u, h)) == u
  {
    hide GetBits, Flags;
    SumOfFields(u);
    FlagsOfSmall(FlagFields(u, h));
  }

  lemma CutIsSame(v: int, size: nat)
    requires size > 0
    ensures v % size == v <==> 0 <= v < size
  {}

  lemma CutsAreSame(h: Hdr)
    ensures h == h.(qr := h.qr % 2, opcode := h.opcode % 16, aa := h.aa % 2, tc := h.tc % 2,
                    rd := h.rd % 2, ra := h.ra % 2, x3 := h.x3 % 8, rcode := h.rcode % 16)
      <==> (0 <= h.qr < 2 && 0 <= h.opcode < 16 && 0 <= h.aa < 2 && 0 <= h.tc < 2
            && 0 <= h.rd < 2 && 0 <= h.ra < 2 && 0 <= h.x3 < 8 && 0 <= h.rcode < 16)
  {
    CutIsSame(h.qr, 2); CutIsSame(h.opcode, 16); CutIsSame(h.aa, 2); CutIsSame(h.tc, 2);
    CutIsSame(h.rd, 2); CutIsSame(h.ra, 2); CutIsSame(h.x3, 8); CutIsSame(h.rcode, 16);
  }

  /** Unpacking what was packed gives the header back exactly when every field fits its width. */
  lemma DecodeEncode(h: Hdr)
    ensures Decode(Encode(h)) == h <==> InRange(h)
  {
    hide Flags, GetBits, Encode, U16;
    FieldsOfFlags(h);
    CutsAreSame(h);
    EncodedWords(h);
  }

  lemma EncodedWords(h: Hdr)
    ensures var b := Encode(h);
      && U16(b, 2) == Flags(h)
      && (U16(b, 0) == h.id <==> 0 <= h.id < 0x10000) && (U16(b, 4) == h.qrcount <==> 0 <= h.qrcount < 0x10000)
      && (U16(b, 6) == h.ancount <==> 0 <= h.ancount < 0x10000)
      && (U16(b, 8) == h.nscount <==> 0 <= h.nscount < 0x10000)
      && (U16(b, 10) == h.arcount <==> 0 <= h.arcount < 0x10000)
  {
    FieldsOfFlags(h);
    var b := Encode(h);
    hide Flags, FlagFields, GetBits, U16;
    U16OfOctets(h.id, b, 0); U16OfOctets(Flags(h), b, 2); U16OfOctets(h.qrcount, b, 4);
    U16OfOctets(h.ancount, b, 6); U16OfOctets(h.nscount, b, 8); U16OfOctets(h.arcount, b, 10);
  }

  /** The id of a message, and a message with another id. */
  function MsgId(b: seq<byte>): nat
    requires |b| >= DNS_HDR_LEN
  {
    Decode(b).id
  }

  function WithId(b: seq<byte>, id: int): seq<byte>
    requires |b| >= 2
  {
    Octets(id) + b[2..]
  }

  /** Unpacking a header, changing its id and packing it again changes the two id octets and nothing else. */
  lemma RewriteId(b: seq<byte>, id: int)
    requires |b| >= DNS_HDR_LEN
    ensures Encode(Decode(b).(id := id)) + b[DNS_HDR_LEN..] == WithId(b, id)
  {
    EncodeDecode(b);
    var h := Decode(b);
    hide Octets, Decode, Flags;
    var tail := Octets(Flags(h)) + Octets(h.qrcount) + Octets(h.ancount) + Octets(h.nscount) + Octets(h.arcount);
    EncodeSplit(h);
    EncodeSplit(h.(id := id));
    assert b[..DNS_HDR_LEN][2..] == tail;
    assert b[2..] == b[..DNS_HDR_LEN][2..] + b[DNS_HDR_LEN..];
    Assoc(Octets(id), tail, b[DNS_HDR_LEN..]);
  }

  lemma EncodeSplit(h: Hdr)
    ensures |Octets(h.id)| == 2
    ensures Encode(h) == Octets(h.id)
      + (Octets(Flags(h)) + Octets(h.qrcount) + Octets(h.ancount) + Octets(h.nscount) + Octets(h.arcount))
  {
    hide Flags, High, Low;
  }

  /** Setting a field that is still clear adds it. */
  lemma SetClear(above: nat, host: int, size: nat, unit: nat)
    requires size > 0 && unit > 0
    ensures above * size * unit >= 0
    ensures SetBits(above * size * unit, host, size, unit) == above * size * unit + host % size * unit
  {
    var above': int := above;
    BitsOf(0, size, unit, 0, above');
  }

  /** The eight assignments of the flag word, highest field first. */
  lemma SetAll(h: Hdr)
    ensures var a := SetBits(0, h.qr, 2, 32768);
      a >= 0 && var b := SetBits(a, h.opcode, 16, 2048);
      b >= 0 && var c := SetBits(b, h.aa, 2, 1024);
      c >= 0 && var d := SetBits(c, h.tc, 2, 512);
      d >= 0 && var e := SetBits(d, h.rd, 2, 256);
      e >= 0 && var f := SetBits(e, h.ra, 2, 128);
      f >= 0 && var g := SetBits(f, h.x3, 8, 16);
      g >= 0 && SetBits(g, h.rcode, 16, 1) == Flags(h)
  {
    hide SetBits;
    var a: nat := h.qr % 2;
    var b: nat := a * 16 + h.opcode % 16;
    var c: nat := b * 2 + h.aa % 2;
    var d: nat := c * 2 + h.tc % 2;
    var e: nat := d * 2 + h.rd % 2;
    var f: nat := e * 2 + h.ra % 2;
    var g: nat := f * 8 + h.x3 % 8;
    SetClear(0, h.qr, 2, 32768);
    SetClear(a, h.opcode, 16, 2048);
    SetClear(b, h.aa, 2, 1024);
    SetClear(c, h.tc, 2, 512);
    SetClear(d, h.rd, 2, 256);
    SetClear(e, h.ra, 2, 128);
    SetClear(f, h.x3, 8, 16);
    SetClear(g, h.rcode, 16, 1);
  }

  /** Flag fields and the others do not depend on each other. */
  lemma FlagsApart(u: nat, g: Hdr, q: int, a: int, n: int, r: int)
    ensures FlagFields(u, g).(qrcount := q, ancount := a, nscount := n, arcount := r)
      == FlagFields(u, Hdr(g.id, 0, 0, 0, 0, 0, 0, 0, 0, q, a, n, r))
  {
    hide GetBits;
  }

  lemma PutAll(msg: seq<byte>, h: Hdr)
    requires |msg| >= DNS_HDR_LEN
    ensures var u := Flags(h);
      msg[0 := High(h.id)][1 := Low(h.id)][2 := High(u)][3 := Low(u)]
         [4 := High(h.qrcount)][5 := Low(h.qrcount)][6 := High(h.ancount)][7 := Low(h.ancount)]
         [8 := High(h.nscount)][9 := Low(h.nscount)][10 := High(h.arcount)][11 := Low(h.arcount)]
      == Encode(h) + msg[DNS_HDR_LEN..]
  {
    hide High, Low, Flags;
  }
}
