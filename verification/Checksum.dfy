/** The Internet checksum and its incremental update (netpkt.c:578-716, netpkt_inline.c; RFC 1071, RFC 1624). */
module Checksum {
  import opened Bytes

  type u16 = x: int | 0 <= x < 0x1_0000

  // ---------------------------------------------------------------------------------------------
  // One's-complement arithmetic
  // ---------------------------------------------------------------------------------------------

  /** The one's-complement value of an exact sum: 0 only for 0, else the representative in 1..65535 modulo 65535. */
  function OC(s: nat): (r: u16)
    ensures r == 0 <==> s == 0
  {
    if s == 0 then 0 else 1 + (s - 1) % 65535
  }

  lemma OCUnique(s: nat, x: int, k: int)
    requires s > 0 && 1 <= x <= 65535 && s == x + 65535 * k
    ensures OC(s) == x
  {
    assert (s - 1) % 65535 == x - 1 by {
      assert s - 1 == (x - 1) + 65535 * k;
      ModUnique(s - 1, x - 1, k);
    }
  }

  lemma ModUnique(a: int, r: int, k: int)
    requires 0 <= r < 65535 && a == r + 65535 * k
    ensures a % 65535 == r
  {
    var q := a / 65535;
    assert a == 65535 * q + a % 65535;
    assert 65535 * (k - q) == a % 65535 - r;
  }

  /** Sums that differ by a multiple of 65535 have the same value, unless one of them is zero. */
  lemma OCCongruent(s: nat, t: nat, k: int)
    requires s > 0 && t > 0 && s - t == 65535 * k
    ensures OC(s) == OC(t)
  {
    var q := (t - 1) / 65535;
    assert t == OC(t) + 65535 * q;
    OCUnique(s, OC(t), q + k);
  }

  lemma OCQuotient(s: nat) returns (k: int)
    ensures s == OC(s) + 65535 * k
  {
    k := if s == 0 then 0 else (s - 1) / 65535;
  }

  /** netpkt_cksum_in_final. */
  function Final(sum: nat): (r: u16) {
    var s1 := sum / 65536 + sum % 65536;
    var s2 := s1 + s1 / 65536;
    65535 - s2 % 65536
  }

  /** Two folds are enough for every total an int can hold. */
  lemma FoldIsExact(sum: nat)
    requires sum < 0x8000_0000
    ensures Final(sum) == 65535 - OC(sum)
  {
    var hi, lo := sum / 65536, sum % 65536;
    var s1 := hi + lo;
    if sum > 0 {
      if s1 >= 65536 {
        OCUnique(sum, s1 - 65535, hi + 1);
      } else {
        OCUnique(sum, s1, hi);
      }
    }
  }

  // ---------------------------------------------------------------------------------------------
  // Sums of octets
  // ---------------------------------------------------------------------------------------------

  /** A 16-bit load of two octets on a little- or big-endian machine. */
  function Word(b0: byte, b1: byte, big: bool): (r: u16) {
    if big then 256 * b0 + b1 else b0 + 256 * b1
  }

  /** What netpkt_cksum_in adds up; an odd last octet counts as a word filled with a zero. */
  function WordSum(b: seq<byte>, big: bool): nat {
    if |b| == 0 then 0
    else if |b| == 1 then Word(b[0], 0, big)
    else Word(b[0], b[1], big) + WordSum(b[2..], big)
  }

  lemma {:induction false} WordSumBound(b: seq<byte>, big: bool)
    ensures 2 * WordSum(b, big) <= 65535 * (|b| + 1)
  {
    hide Word;
    if |b| > 1 { WordSumBound(b[2..], big); }
  }

  /** The sums of the two byte orders are the same up to a factor 256 modulo 65535, and vanish together. */
  lemma {:induction false} OrdersCongruent(b: seq<byte>) returns (k: int)
    ensures WordSum(b, true) == 256 * WordSum(b, false) - 65535 * k
    ensures WordSum(b, true) == 0 <==> WordSum(b, false) == 0
  {
    if |b| == 0 {
      k := 0;
    } else {
      var b1: int := if |b| == 1 then 0 else b[1];
      k := b1;
      assert Word(b[0], b1, true) == 256 * Word(b[0], b1, false) - 65535 * b1;
      if |b| > 1 {
        var j := OrdersCongruent(b[2..]);
        k := b1 + j;
      }
    }
  }

  /** The two octets a 16-bit store leaves in memory. */
  function Store(v: u16, big: bool): (r: seq<byte>)
    ensures |r| == 2
  {
    if big then [v / 256, v % 256] else [v % 256, v / 256]
  }

  lemma StoreLoad(v: u16, big: bool)
    ensures Word(Store(v, big)[0], Store(v, big)[1], big) == v
  {}

  lemma OCOfSwapped(s: nat, t: nat, k: int)
    requires t == 256 * s - 65535 * k && (t == 0 <==> s == 0)
    ensures OC(t) == OC(s) % 256 * 256 + OC(s) / 256
  {
    if s > 0 {
      var q := OCQuotient(s);
      var h, l := OC(s) / 256, OC(s) % 256;
      assert OC(s) == 256 * h + l;
      assert 256 * OC(s) == 65535 * h + (l * 256 + h);
      assert t == (l * 256 + h) + 65535 * (h + 256 * q - k);
      OCUnique(t, l * 256 + h, h + 256 * q - k);
    }
  }

  /** The checksum octets stored in a packet do not depend on the byte order of the machine that summed it. */
  lemma ByteOrderIndependent(b: seq<byte>)
    requires |b| <= 65535
    ensures WordSum(b, true) < 0x8000_0000 && WordSum(b, false) < 0x8000_0000
    ensures Store(Final(WordSum(b, true)), true) == Store(Final(WordSum(b, false)), false)
  {
    WordSumBound(b, true);
    WordSumBound(b, false);
    var t, s := WordSum(b, true), WordSum(b, false);
    var k := OrdersCongruent(b);
    OCOfSwapped(s, t, k);
    FoldIsExact(t);
    FoldIsExact(s);
    hide OC, Final, WordSum, Store;
    ComplementSwaps(OC(s));
  }

  lemma ComplementSwaps(x: u16)
    ensures Store(65535 - (x % 256 * 256 + x / 256), true) == Store(65535 - x, false)
  {
    var h, l := x / 256, x % 256;
    assert x == 256 * h + l && 0 <= h <= 255 && 0 <= l <= 255;
    Bytes16(255 - h, 255 - l);
    Bytes16(255 - l, 255 - h);
  }

  lemma Bytes16(h: int, l: int)
    requires 0 <= h <= 255 && 0 <= l <= 255
    ensures (h * 256 + l) / 256 == h && (h * 256 + l) % 256 == l
  {}

  // ---------------------------------------------------------------------------------------------
  // Incremental update
  // ---------------------------------------------------------------------------------------------

  type Addr4 = s: seq<byte> | |s| == 4 witness [0, 0, 0, 0]

  /** The octets of ~a. */
  function Complement(a: Addr4): Addr4 {
    [255 - a[0], 255 - a[1], 255 - a[2], 255 - a[3]]
  }

  /** Adding the high half to the low half, twice. */
  function Fold2(sum: nat): nat {
    var sum1 := sum % 65536 + sum / 65536;
    sum1 % 65536 + sum1 / 65536
  }

  /** netpkt_adjust_cksum, with the addresses as they stand in memory. */
  function Adjust(oldsum: u16, old_: Addr4, new_: Addr4, big: bool): u16 {
    65535 - Fold2((65535 - oldsum) + WordSum(Complement(old_) + new_, big)) % 65536
  }

  lemma WordSum4(a: Addr4, big: bool)
    ensures WordSum(a, big) == Word(a[0], a[1], big) + Word(a[2], a[3], big) <= 131070
  {
    var b := a[2..];
    assert b[0] == a[2] && b[1] == a[3] && b[2..] == [];
    assert WordSum(b, big) == Word(b[0], b[1], big) + WordSum(b[2..], big);
  }

  lemma AdjustSum(old_: Addr4, new_: Addr4, big: bool)
    ensures WordSum(Complement(old_) + new_, big) == 2 * 65535 - WordSum(old_, big) + WordSum(new_, big)
  {
    WordSum4(old_, big);
    WordSum4(new_, big);
    var d := Complement(old_) + new_;
    assert d[2..][2..] == new_;
    assert d[2..][0] == Complement(old_)[2] && d[2..][1] == Complement(old_)[3];
  }

  lemma AdjustIsOC(oldsum: u16, old_: Addr4, new_: Addr4, big: bool)
    ensures var s := (65535 - oldsum) + 2 * 65535 - WordSum(old_, big) + WordSum(new_, big);
      s >= 0 && Adjust(oldsum, old_, new_, big) == 65535 - OC(s)
  {
    WordSum4(old_, big);
    WordSum4(new_, big);
    AdjustSum(old_, new_, big);
    hide WordSum, OC, Word, Fold2;
    AdjustFold((65535 - oldsum) + 2 * 65535 - WordSum(old_, big) + WordSum(new_, big));
  }

  /** Two folds of the small sums of netpkt_adjust_cksum. */
  lemma AdjustFold(s: nat)
    requires s < 6 * 65536
    ensures Fold2(s) == OC(s)
  {
    var hi, lo := s / 65536, s % 65536;
    var s1 := lo + hi;
    if s > 0 {
      if s1 >= 65536 {
        assert s1 / 65536 == 1 && s1 % 65536 == s1 - 65536;
        OCUnique(s, s1 - 65535, hi + 1);
      } else {
        OCUnique(s, s1, hi);
      }
    }
  }

  /** Replacing one address in a non-zero total: the incremental result is the recomputed one. */
  lemma AdjustIsRecompute(total: nat, old_: Addr4, new_: Addr4, big: bool)
    requires total > WordSum(old_, big)
    ensures Adjust(65535 - OC(total), old_, new_, big) == 65535 - OC(total - WordSum(old_, big) + WordSum(new_, big))
  {
    WordSum4(old_, big);
    WordSum4(new_, big);
    hide WordSum, Word, Adjust, OC;
    AdjustIsOC(65535 - OC(total), old_, new_, big);
    OCShift(total, WordSum(old_, big), WordSum(new_, big));
  }

  lemma OCShift(total: nat, a: nat, b: nat)
    requires total > a && a <= 131070
    ensures OC(OC(total) + 131070 - a + b) == OC(total - a + b)
  {
    hide OC;
    var k := OCQuotient(total);
    OCCongruent(OC(total) + 131070 - a + b, total - a + b, 2 - k);
  }

  // ---------------------------------------------------------------------------------------------
  // Packets
  // ---------------------------------------------------------------------------------------------

  datatype Transport = Tcp | Udp | Other

  /** Offset of the checksum field in the transport header. */
  function CheckOffset(t: Transport): nat {
    if t.Tcp? then 16 else 6
  }

  function Zeroed(s: seq<byte>, i: nat): (r: seq<byte>)
    requires i + 2 <= |s|
    ensures |r| == |s|
  {
    s[i := 0][i + 1 := 0]
  }

  function Field(s: seq<byte>, i: nat, big: bool): u16
    requires i + 2 <= |s|
  {
    Word(s[i], s[i + 1], big)
  }

  /** A parsed IP packet: lengths agree, the header is 20 to 60 octets, the transport header fits. */
  ghost predicate Legal(ip: seq<byte>, seg: seq<byte>, t: Transport) {
    && |ip| >= 20 && |ip| == ip[0] % 16 * 4
    && Word(ip[2], ip[3], true) == |ip| + |seg| <= 65535
    && (t.Tcp? ==> |seg| >= 20 && ip[9] == 6) && (t.Udp? ==> |seg| >= 8 && ip[9] == 17)
  }

  /**
   * The exact sum behind the TCP and UDP checksums: segment with a zero checksum field, addresses, protocol, length.
   */
  function TransportTotal(ip: seq<byte>, seg: seq<byte>, off: nat, big: bool): nat
    requires |ip| >= 20 && off + 2 <= |seg| <= 65535
  {
    WordSum(Zeroed(seg, off), big) + WordSum(ip[12..16], big) + WordSum(ip[16..20], big)
    + Word(0, ip[9], big) + Word(|seg| / 256, |seg| % 256, big)
  }

  function TransportSum(ip: seq<byte>, seg: seq<byte>, off: nat, big: bool): u16
    requires |ip| >= 20 && off + 2 <= |seg| <= 65535
  {
    65535 - OC(TransportTotal(ip, seg, off, big))
  }

  function IpSum(ip: seq<byte>, big: bool): u16
    requires |ip| >= 20
  {
    65535 - OC(WordSum(Zeroed(ip, 10), big))
  }

  /** No total of a legal packet reaches the sign bit of an int. */
  lemma NoOverflow(ip: seq<byte>, seg: seq<byte>, t: Transport, big: bool)
    requires Legal(ip, seg, t) && !t.Other?
    ensures TransportTotal(ip, seg, CheckOffset(t), big) < 0x8000_0000
    ensures WordSum(Zeroed(ip, 10), big) < 0x8000_0000
  {
    WordSumBound(Zeroed(seg, CheckOffset(t)), big);
    WordSumBound(ip[12..16], big);
    WordSumBound(ip[16..20], big);
    WordSumBound(Zeroed(ip, 10), big);
  }

  // ---------------------------------------------------------------------------------------------
  // What a receiver adds up
  // ---------------------------------------------------------------------------------------------

  /** The octets weighed by their place in 16-bit words. */
  function Weight(b: seq<byte>, big: bool): nat {
    if b == [] then 0
    else
      var n := |b| - 1;
      Weight(b[..n], big) + (if (n % 2 == 0) == big then 256 else 1) * (b[n] as int)
  }

  /** The test of RFC 1071: the words of the message, checksum and all, add up to a negative zero. */
  ghost predicate AddsUp(b: seq<byte>, big: bool) {
    Weight(b, big) > 0 && Weight(b, big) % 65535 == 0
  }

  /** The segment behind its pseudo header (section 3.1 of RFC 793, RFC 768). */
  function PseudoPacket(ip: seq<byte>, seg: seq<byte>): seq<byte>
    requires |ip| >= 20 && |seg| <= 65535
  {
    ip[12..20] + [0, ip[9], |seg| / 256, |seg| % 256] + seg
  }

  lemma {:induction false} WeightBehind(head: seq<byte>, b: seq<byte>, big: bool)
    requires |head| % 2 == 0
    ensures Weight(head + b, big) == Weight(head, big) + Weight(b, big)
    decreases |b|
  {
    if b == [] {
      assert head + b == head;
    } else {
      var n := |b| - 1;
      WeightBehind(head, b[..n], big);
      assert (head + b)[..|head| + n] == head + b[..n];
    }
  }

  lemma WeightOfWord(b0: byte, b1: byte, big: bool)
    ensures Weight([b0, b1], big) == Word(b0, b1, big) && Weight([b0], big) == Word(b0, 0, big)
  {
    assert [b0, b1][..1] == [b0] && [b0][..0] == [] && Weight([], big) == 0;
    assert Weight([b0], big) == (if big then 256 else 1) * (b0 as int);
    assert Weight([b0, b1], big) == Weight([b0], big) + (if big then 1 else 256) * (b1 as int);
  }

  /** The sum taken word by word is the sum of the octets by their weights. */
  lemma {:induction false} WordSumIsWeight(b: seq<byte>, big: bool)
    ensures WordSum(b, big) == Weight(b, big)
    decreases |b|
  {
    hide Word, Weight;
    if |b| == 0 {
      assert b == [] && Weight([], big) == 0 by { NoWeight(big); }
    } else if |b| == 1 {
      WeightOfWord(b[0], 0, big);
      assert b == [b[0]];
    } else {
      WordSumIsWeight(b[2..], big);
      WeightOfWord(b[0], b[1], big);
      WeightBehind([b[0], b[1]], b[2..], big);
      assert b == [b[0], b[1]] + b[2..];
    }
  }

  lemma NoWeight(big: bool)
    ensures Weight([], big) == 0
  {}

  /** A field at an even place is a term of the sum of its own. */
  lemma FieldApart(b: seq<byte>, i: nat, big: bool)
    requires i % 2 == 0 && i + 2 <= |b|
    ensures Weight(b, big) == Weight(Zeroed(b, i), big) + Field(b, i, big)
  {
    hide Weight, Word;
    var z := Zeroed(b, i);
    WeightBehind(b[..i + 2], b[i + 2..], big);
    WeightBehind(z[..i + 2], z[i + 2..], big);
    WeightBehind(b[..i], [b[i], b[i + 1]], big);
    WeightBehind(b[..i], [0, 0], big);
    WeightOfWord(b[i], b[i + 1], big);
    WeightOfWord(0, 0, big);
    assert b == b[..i + 2] + b[i + 2..] && z == z[..i + 2] + z[i + 2..] && z[i + 2..] == b[i + 2..];
    assert b[..i + 2] == b[..i] + [b[i], b[i + 1]] && z[..i + 2] == b[..i] + [0, 0];
    ZeroWord(big);
  }

  lemma ZeroWord(big: bool)
    ensures Word(0, 0, big) == 0
  {}

  /** A field that completes a sum: with it the sum is a multiple of 65535. */
  lemma Completes(c: u16, total: nat)
    requires total > 0
    ensures c == 65535 - OC(total) <==> (total + c) % 65535 == 0 && c != 65535
    ensures Represents(c, 65535 - OC(total)) <==> (total + c) % 65535 == 0
  {
    var k := OCQuotient(total);
    var o := OC(total);
    hide OC;
    assert total + c == o + c + 65535 * k;
    MultipleShift(o + c, k);
  }

  lemma MultipleShift(a: int, k: int)
    ensures (a + 65535 * k) % 65535 == a % 65535
  {
    ModUnique(a + 65535 * k, a % 65535, k + a / 65535);
  }

  lemma PseudoWeight(ip: seq<byte>, seg: seq<byte>, off: nat, big: bool)
    requires |ip| >= 20 && off % 2 == 0 && off + 2 <= |seg| <= 65535
    ensures Weight(PseudoPacket(ip, seg), big) == TransportTotal(ip, seg, off, big) + Field(seg, off, big)
  {
    hide Weight, Word, WordSum, Zeroed, Field;
    var rest := [0, ip[9], |seg| / 256, |seg| % 256];
    WeightBehind(ip[12..20] + rest, seg, big);
    WeightBehind(ip[12..20], rest, big);
    WeightBehind([0, ip[9]], [|seg| / 256, |seg| % 256], big);
    assert rest == [0, ip[9]] + [|seg| / 256, |seg| % 256];
    WeightOfWord(0, ip[9], big);
    WeightOfWord(|seg| / 256, |seg| % 256, big);
    FieldApart(seg, off, big);
    WordSumIsWeight(Zeroed(seg, off), big);
    AddressesSum(ip, big);
    WordSumIsWeight(ip[12..20], big);
  }

  /** The transport field of a packet is the one the code computes exactly when the receiver's sum adds up. */
  lemma TransportMeans(ip: seq<byte>, seg: seq<byte>, t: Transport, big: bool)
    requires Legal(ip, seg, t) && !t.Other?
    ensures var i := if t.Tcp? then 16 else 6;
      && (Field(seg, i, big) == TransportSum(ip, seg, CheckOffset(t), big) <==>
            AddsUp(PseudoPacket(ip, seg), big) && seg[i..i + 2] != [255, 255])
      && (Represents(Field(seg, i, big), TransportSum(ip, seg, CheckOffset(t), big)) <==>
            AddsUp(PseudoPacket(ip, seg), big))
  {
    var i := if t.Tcp? then 16 else 6;
    var total := TransportTotal(ip, seg, CheckOffset(t), big);
    assert Word(0, ip[9], big) > 0;
    assert seg[i..i + 2] == [seg[i], seg[i + 1]];
    AllOnes(seg[i], seg[i + 1], big);
    hide OC, WordSum, Weight, Word, Represents;
    PseudoWeight(ip, seg, CheckOffset(t), big);
    Completes(Field(seg, i, big), total);
  }

  lemma AllOnes(b0: byte, b1: byte, big: bool)
    ensures Word(b0, b1, big) == 65535 <==> b0 == b1 == 255
  {}

  /** The same for the header. */
  lemma HeaderMeans(ip: seq<byte>, big: bool)
    requires |ip| >= 20 && ip[0] > 0
    ensures Field(ip, 10, big) == IpSum(ip, big) <==> AddsUp(ip, big) && ip[10..12] != [255, 255]
  {
    assert ip[10..12] == [ip[10], ip[11]];
    AllOnes(ip[10], ip[11], big);
    FieldApart(ip, 10, big);
    WordSumIsWeight(Zeroed(ip, 10), big);
    HeaderPositive(Zeroed(ip, 10), big);
    hide OC, WordSum, Weight, Word, Represents;
    Completes(Field(ip, 10, big), WordSum(Zeroed(ip, 10), big));
  }

  /** Only the two octets from i on may differ. */
  ghost predicate OnlyAt(i: nat, before: seq<byte>, after: seq<byte>) {
    |after| == |before| >= i + 2 && after[..i] == before[..i] && after[i + 2..] == before[i + 2..]
  }

  lemma StoredAt(before: seq<byte>, i: nat, v: u16, big: bool)
    requires i + 2 <= |before|
    ensures OnlyAt(i, before, Splice(before, i, Store(v, big)))
  {}

  lemma HeaderPositive(b: seq<byte>, big: bool)
    requires |b| >= 2 && b[0] > 0
    ensures WordSum(b, big) > 0
  {}

  // ---------------------------------------------------------------------------------------------
  // Rewriting the addresses of a packet
  // ---------------------------------------------------------------------------------------------

  /** c stands for the checksum x: the same, or negative zero for zero as UDP transmits it. */
  ghost predicate Represents(c: u16, x: u16) {
    c == x || (c == 65535 && x == 0)
  }

  /** AdjustIsRecompute for either form of zero. */
  lemma AdjustRepresents(c: u16, total: nat, old_: Addr4, new_: Addr4, big: bool)
    requires total > WordSum(old_, big) && Represents(c, 65535 - OC(total))
    ensures Represents(Adjust(c, old_, new_, big), 65535 - OC(total - WordSum(old_, big) + WordSum(new_, big)))
  {
    AdjustIsRecompute(total, old_, new_, big);
    if c != 65535 - OC(total) {
      AdjustIsOC(c, old_, new_, big);
      AdjustIsOC(0, old_, new_, big);
      var s := 2 * 65535 - WordSum(old_, big) + WordSum(new_, big);
      hide WordSum;
      if s > 0 {
        OCCongruent(s + 65535, s, 1);
      } else {
        OCUnique(65535, 65535, 0);
      }
    }
  }

  function WithAddresses(ip: seq<byte>, src: Addr4, dst: Addr4): (r: seq<byte>)
    requires |ip| >= 20
    ensures |r| == |ip|
  {
    Splice(Splice(ip, 12, src), 16, dst)
  }

  /** The checksum field netpkt_adjust_ip_src_dst stores in the transport header. */
  function AdjustedField(c: u16, ip: seq<byte>, src: Addr4, dst: Addr4, t: Transport, big: bool): u16
    requires |ip| >= 20
  {
    var c2 := Adjust(Adjust(c, ip[12..16], src, big), ip[16..20], dst, big);
    if t.Udp? && c2 == 0 then 65535 else c2
  }

  lemma TotalAfter(ip: seq<byte>, seg: seq<byte>, off: nat, src: Addr4, dst: Addr4, big: bool)
    requires |ip| >= 20 && off + 2 <= |seg| <= 65535
    ensures TransportTotal(WithAddresses(ip, src, dst), seg, off, big)
         == TransportTotal(ip, seg, off, big) - WordSum(ip[12..16], big)
           + WordSum(src, big) - WordSum(ip[16..20], big) + WordSum(dst, big)
  {
    var ip' := WithAddresses(ip, src, dst);
    assert ip'[12..16] == src && ip'[16..20] == dst && ip'[9] == ip[9];
  }

  /**
   * A field that was right for the old addresses is adjusted to the one a full recomputation gives for the new ones.
   */
  lemma RewriteIsRecompute(ip: seq<byte>, seg: seq<byte>, t: Transport, c: u16, src: Addr4, dst: Addr4, big: bool)
    requires Legal(ip, seg, t) && !t.Other?
    ensures var off := CheckOffset(t);
      var before, after := TransportSum(ip, seg, off, big), TransportSum(WithAddresses(ip, src, dst), seg, off, big);
      && (t.Tcp? && c == before ==> AdjustedField(c, ip, src, dst, t, big) == after)
      && (t.Udp? && Represents(c, before) ==>
            AdjustedField(c, ip, src, dst, t, big) == if after == 0 then 65535 else after)
  {
    var off := CheckOffset(t);
    var total, old1, old2 := TransportTotal(ip, seg, off, big), ip[12..16], ip[16..20];
    TotalAfter(ip, seg, off, src, dst, big);
    assert Word(0, ip[9], big) > 0;
    TwoAdjusts(c, total, old1, src, old2, dst, big);
  }

  lemma TwoAdjusts(c: u16, total: nat, old1: Addr4, new1: Addr4, old2: Addr4, new2: Addr4, big: bool)
    requires total > WordSum(old1, big) + WordSum(old2, big)
    ensures var c2 := Adjust(Adjust(c, old1, new1, big), old2, new2, big);
      var t2 := total - WordSum(old1, big) + WordSum(new1, big) - WordSum(old2, big) + WordSum(new2, big);
      && (c == 65535 - OC(total) ==> c2 == 65535 - OC(t2))
      && (Represents(c, 65535 - OC(total)) ==> Represents(c2, 65535 - OC(t2)))
  {
    hide WordSum, OC, Adjust, Represents;
    var t1 := total - WordSum(old1, big) + WordSum(new1, big);
    if c == 65535 - OC(total) {
      AdjustIsRecompute(total, old1, new1, big);
      AdjustIsRecompute(t1, old2, new2, big);
    }
    if Represents(c, 65535 - OC(total)) {
      AdjustRepresents(c, total, old1, new1, big);
      AdjustRepresents(Adjust(c, old1, new1, big), t1, old2, new2, big);
    }
  }

  lemma OCEqual(s: nat, t: nat)
    requires s > 0 && t > 0
    ensures OC(s) == OC(t) <==> (s - t) % 65535 == 0
  {
    hide OC;
    var d := s - t;
    if OC(s) == OC(t) {
      var j := OCQuotient(s);
      var k := OCQuotient(t);
      ModUnique(d, 0, j - k);
    }
    if d % 65535 == 0 {
      assert d == 65535 * (d / 65535);
      OCCongruent(s, t, d / 65535);
    }
  }

  /**
   * Two adjustments of any field at all: the result stands for the new total exactly when the field did for the old.
   */
  lemma AdjustsKeepError(c: u16, total: nat, old1: Addr4, new1: Addr4, old2: Addr4, new2: Addr4, big: bool)
    requires total > WordSum(old1, big) + WordSum(old2, big)
    ensures var c2 := Adjust(Adjust(c, old1, new1, big), old2, new2, big);
      var t2 := total - WordSum(old1, big) + WordSum(new1, big) - WordSum(old2, big) + WordSum(new2, big);
      Represents(c2, 65535 - OC(t2)) <==> Represents(c, 65535 - OC(total))
  {
    hide WordSum, Adjust, OC;
    WordSum4(old1, big);
    WordSum4(old2, big);
    var claimed := 65535 - c + 65535 * 10;
    var d := WordSum(new1, big) - WordSum(old1, big) + WordSum(new2, big) - WordSum(old2, big);
    ClaimedTotal(c, claimed);
    TwoAdjusts(c, claimed, old1, new1, old2, new2, big);
    OCEqual(claimed, total);
    OCEqual(claimed + d, total + d);
    assert claimed + d - (total + d) == claimed - total;
  }

  /** Every field is the checksum of some large total; all ones is that of a total that is a multiple of 65535. */
  lemma ClaimedTotal(c: u16, total: nat)
    requires total == 65535 - c + 65535 * 10
    ensures Represents(c, 65535 - OC(total)) && (c < 65535 ==> c == 65535 - OC(total))
  {
    if c < 65535 { OCUnique(total, 65535 - c, 10); } else { OCUnique(total, 65535, 9); }
  }

  /**
   * A rewrite neither repairs nor breaks a field: it is right for the new addresses exactly when it was for the old.
   */
  lemma RewriteKeepsError(ip: seq<byte>, seg: seq<byte>, t: Transport, c: u16, src: Addr4, dst: Addr4, big: bool)
    requires Legal(ip, seg, t) && !t.Other?
    ensures var off := CheckOffset(t);
      var before, after := TransportSum(ip, seg, off, big), TransportSum(WithAddresses(ip, src, dst), seg, off, big);
      Represents(AdjustedField(c, ip, src, dst, t, big), after) <==> Represents(c, before)
  {
    var off := CheckOffset(t);
    var total, old1, old2 := TransportTotal(ip, seg, off, big), ip[12..16], ip[16..20];
    TotalAfter(ip, seg, off, src, dst, big);
    assert Word(0, ip[9], big) > 0;
    AdjustsKeepError(c, total, old1, src, old2, dst, big);
  }

  /** A UDP packet sent without a checksum gets one, and it is right only if the sum happened to be zero. */
  lemma UnsummedUdp(ip: seq<byte>, seg: seq<byte>, src: Addr4, dst: Addr4, big: bool)
    requires Legal(ip, seg, Udp) && Field(seg, CheckOffset(Udp), big) == 0
    ensures var off := CheckOffset(Udp);
      var before, after := TransportSum(ip, seg, off, big), TransportSum(WithAddresses(ip, src, dst), seg, off, big);
      var field := AdjustedField(0, ip, src, dst, Udp, big);
      field != 0 && (Represents(field, after) <==> before == 0)
  {
    hide Legal, TransportSum, Adjust;
    RewriteKeepsError(ip, seg, Udp, 0, src, dst, big);
  }

  // ---------------------------------------------------------------------------------------------
  // The code
  // ---------------------------------------------------------------------------------------------

  /** netpkt_cksum_in over len octets. */
  method CksumIn(buf: array<byte>, off: nat, len: nat, big: bool) returns (sum: int)
    requires off + len <= buf.Length && len <= 65535
    ensures sum == WordSum(buf[off..off + len], big) < 0x8000_0000
  {
    sum := 0;
    var sp, left := off, len;
    WordSumBound(buf[off..off + len], big);
    while left >= 2
      invariant off <= sp && sp + left == off + len
      invariant sum + WordSum(buf[sp..off + len], big) == WordSum(buf[off..off + len], big)
    {
      assert buf[sp..off + len][2..] == buf[sp + 2..off + len];
      sum := sum + Word(buf[sp], buf[sp + 1], big);
      sp, left := sp + 2, left - 2;
    }
    if left > 0 { sum := sum + Word(buf[sp], 0, big); }
  }

  /** A parsed packet in memory: the IP header with its options, and the transport segment. */
  class Pkt {
    const ip: array<byte>
    const seg: array<byte>
    const t: Transport
    const big: bool

    ghost predicate Valid()
      reads ip, seg
    {
      ip != seg && Legal(ip[..], seg[..], t)
    }

    constructor (ip: array<byte>, seg: array<byte>, t: Transport, big: bool)
      requires ip != seg && Legal(ip[..], seg[..], t)
      ensures Valid() && this.ip == ip && this.seg == seg && this.t == t && this.big == big
    {
      this.ip, this.seg, this.t, this.big := ip, seg, t, big;
    }

    ghost predicate IpRight()
      requires Valid()
      reads ip, seg
    {
      Field(ip[..], 10, big) == IpSum(ip[..], big)
    }

    ghost predicate TransportRight()
      requires Valid()
      reads ip, seg
    {
      !t.Other? ==> Field(seg[..], CheckOffset(t), big) == TransportSum(ip[..], seg[..], CheckOffset(t), big)
    }

    method Put16(a: array<byte>, i: nat, v: u16)
      requires i + 2 <= a.Length
      modifies a
      ensures a[..] == Splice(old(a[..]), i, Store(v, big))
    {
      if big { a[i], a[i + 1] := v / 256, v % 256; } else { a[i], a[i + 1] := v % 256, v / 256; }
    }

    /** netpkt_cksum_ip: the field is zeroed for the sum and put back. */
    method CksumIp() returns (sum: u16)
      requires Valid()
      modifies ip
      ensures ip[..] == old(ip[..]) && sum == IpSum(ip[..], big)
    {
      hide WordSum, OC;
      ghost var b := ip[..];
      NoOverflowIp(b, big);
      var old0, old1 := ip[10], ip[11];
      ip[10], ip[11] := 0, 0;
      assert ip[..] == Zeroed(b, 10);
      assert ip[0..ip.Length] == ip[..];
      var s := CksumIn(ip, 0, ip[0] % 16 * 4, big);
      FoldIsExact(s);
      sum := Final(s);
      ip[10], ip[11] := old0, old1;
      assert ip[..] == b;
    }

    /** The segment's part of the sum, with the checksum field zeroed and put back. */
    method SegmentSum(off: nat) returns (s: int)
      requires ip != seg && off + 2 <= seg.Length <= 65535
      modifies seg
      ensures seg[..] == old(seg[..]) && s == WordSum(Zeroed(seg[..], off), big)
    {
      ghost var b := seg[..];
      var old0, old1 := seg[off], seg[off + 1];
      seg[off], seg[off + 1] := 0, 0;
      assert seg[..] == Zeroed(b, off);
      assert seg[0..seg.Length] == seg[..];
      s := CksumIn(seg, 0, seg.Length, big);
      seg[off], seg[off + 1] := old0, old1;
      assert seg[..] == b;
    }

    /** The pseudo header's part. */
    method HeaderSum() returns (hdr: int)
      requires 20 <= ip.Length && seg.Length <= 65535
      ensures hdr == WordSum(ip[12..16], big) + WordSum(ip[16..20], big) + Word(0, ip[9], big)
                     + Word(seg.Length / 256, seg.Length % 256, big)
    {
      AddressesSum(ip[..], big);
      assert ip[..][12..20] == ip[12..20] && ip[..][12..16] == ip[12..16] && ip[..][16..20] == ip[16..20];
      hdr := CksumIn(ip, 12, 8, big);
      hdr := hdr + Word(0, ip[9], big);
      hdr := hdr + Word(seg.Length / 256, seg.Length % 256, big);
    }

    /** netpkt_cksum_tcp and netpkt_cksum_udp, which differ in the offset of the field. */
    method CksumTransport() returns (sum: u16)
      requires Valid() && !t.Other?
      modifies seg
      ensures seg[..] == old(seg[..]) && sum == TransportSum(ip[..], seg[..], CheckOffset(t), big)
    {
      hide WordSum, OC, Final, Word;
      ghost var b, h := seg[..], ip[..];
      NoOverflow(h, b, t, big);
      var s := SegmentSum(CheckOffset(t));
      var hdr := HeaderSum();
      assert ip[..] == h && h[12..16] == ip[12..16] && h[16..20] == ip[16..20];
      FoldIsExact(s + hdr);
      sum := Final(s + hdr);
    }

    /** netpkt_cksum_set. */
    method CksumSet()
      requires Valid()
      modifies ip, seg
      ensures Valid() && IpRight() && TransportRight()
      ensures seg[..] == if t.Other? then old(seg[..])
        else Splice(old(seg[..]), CheckOffset(t),
          Store(TransportSum(old(ip[..]), old(seg[..]), CheckOffset(t), big), big))
      ensures ip[..] == Splice(old(ip[..]), 10, Store(IpSum(old(ip[..]), big), big))
      ensures OnlyAt(10, old(ip[..]), ip[..]) && AddsUp(ip[..], big)
      ensures t.Tcp? ==> OnlyAt(16, old(seg[..]), seg[..])
      ensures t.Udp? ==> OnlyAt(6, old(seg[..]), seg[..])
      ensures t.Other? ==> seg[..] == old(seg[..])
      ensures !t.Other? ==> AddsUp(PseudoPacket(ip[..], seg[..]), big)
    {
      hide OC, WordSum, Word, AddsUp, PseudoPacket, OnlyAt;
      ghost var ip0, seg0 := ip[..], seg[..];
      if !t.Other? {
        var off := CheckOffset(t);
        var sum := CksumTransport();
        SumIgnoresField(ip[..], seg[..], off, sum, big);
        StoredAt(seg0, off, sum, big);
        Put16(seg, off, sum);
      }
      var sum := CksumIp();
      IpSumIgnoresField(ip[..], seg[..], CheckOffset(t), sum, big);
      StoredAt(ip0, 10, sum, big);
      Put16(ip, 10, sum);
      RightAddsUp(ip[..], seg[..], t, big);
    }

    /** netpkt_cksum_check: 0 exactly when every checksum present is right. */
    method CksumCheck() returns (r: int)
      requires Valid()
      modifies ip, seg
      ensures ip[..] == old(ip[..]) && seg[..] == old(seg[..])
      ensures r == if !IpRight() then -1 else if TransportRight() then 0 else if t.Tcp? then -2 else -3
      ensures r ==
        if !AddsUp(ip[..], big) || ip[10..12] == [255, 255] then -1
        else if t.Other? then 0
        else if AddsUp(PseudoPacket(ip[..], seg[..]), big)
          && (if t.Tcp? then seg[16..18] else seg[6..8]) != [255, 255] then 0
        else if t.Tcp? then -2 else -3
    {
      hide OC, WordSum, Word, AddsUp, PseudoPacket;
      CheckMeans(ip[..], seg[..], t, big);
      assert ip[..][10..12] == ip[10..12];
      assert t.Tcp? ==> seg[..][16..18] == seg[16..18];
      assert t.Udp? ==> seg[..][6..8] == seg[6..8];
      var sum := CksumIp();
      if Word(ip[10], ip[11], big) != sum { return -1; }
      if !t.Other? {
        var off := CheckOffset(t);
        sum := CksumTransport();
        if Word(seg[off], seg[off + 1], big) != sum { return if t.Tcp? then -2 else -3; }
      }
      return 0;
    }

    /** netpkt_adjust_ip_src_dst. */
    method AdjustIpSrcDst(src: Addr4, dst: Addr4)
      requires Valid()
      modifies ip, seg
      ensures Valid() && IpRight()
      ensures var ip1 := WithAddresses(old(ip[..]), src, dst);
        ip[..] == Splice(ip1, 10, Store(IpSum(ip1, big), big))
      ensures if t.Other? then seg[..] == old(seg[..])
        else var off := CheckOffset(t);
          seg[..] == Splice(old(seg[..]), off,
            Store(AdjustedField(Field(old(seg[..]), off, big), old(ip[..]), src, dst, t, big), big))
      ensures AddsUp(ip[..], big) && ip[..10] == old(ip[..10]) && ip[12..] == src + dst + old(ip[20..])
      ensures t.Tcp? ==> OnlyAt(16, old(seg[..]), seg[..])
      ensures t.Udp? ==> OnlyAt(6, old(seg[..]), seg[..])
      ensures !t.Other? ==>
        (AddsUp(PseudoPacket(ip[..], seg[..]), big) <==> AddsUp(PseudoPacket(old(ip[..]), old(seg[..])), big))
    {
      hide OC, WordSum, Word, Adjust, AddsUp, PseudoPacket, OnlyAt;
      ghost var ip0, seg0 := ip[..], seg[..];
      if !t.Other? {
        var off := CheckOffset(t);
        var check := Word(seg[off], seg[off + 1], big);
        check := Adjust(check, ip[12..16], src, big);
        check := Adjust(check, ip[16..20], dst, big);
        if check == 0 && t.Udp? { check := 65535; }
        assert ip[..][12..16] == ip[12..16] && ip[..][16..20] == ip[16..20];
        StoredAt(seg0, off, check, big);
        Put16(seg, off, check);
      }
      SetAddresses(src, dst);
      var sum := CksumIp();
      IpSumIgnoresField(ip[..], seg[..], CheckOffset(t), sum, big);
      Put16(ip, 10, sum);
      RewriteAddsUp(ip0, seg0, t, src, dst, big);
      AddressesOnly(ip0, src, dst, sum, big);
      assert ip[..][..10] == ip[..10] && ip[..][12..] == ip[12..];
    }

    method SetAddresses(src: Addr4, dst: Addr4)
      requires 20 <= ip.Length
      modifies ip
      ensures ip[..] == WithAddresses(old(ip[..]), src, dst)
    {
      forall i | 0 <= i < 4 { ip[12 + i] := src[i]; }
      forall i | 0 <= i < 4 { ip[16 + i] := dst[i]; }
    }
  }

  /** What checksums that are right mean for a receiver. */
  lemma CheckMeans(ip: seq<byte>, seg: seq<byte>, t: Transport, big: bool)
    requires Legal(ip, seg, t)
    ensures Field(ip, 10, big) == IpSum(ip, big) <==> AddsUp(ip, big) && ip[10..12] != [255, 255]
    ensures !t.Other? ==>
      var i := if t.Tcp? then 16 else 6;
      Field(seg, CheckOffset(t), big) == TransportSum(ip, seg, CheckOffset(t), big) <==>
        AddsUp(PseudoPacket(ip, seg), big) && seg[i..i + 2] != [255, 255]
  {
    hide AddsUp, PseudoPacket, TransportSum, IpSum, Field;
    HeaderMeans(ip, big);
    if !t.Other? { TransportMeans(ip, seg, t, big); }
  }

  lemma RightAddsUp(ip: seq<byte>, seg: seq<byte>, t: Transport, big: bool)
    requires Legal(ip, seg, t) && Field(ip, 10, big) == IpSum(ip, big)
    requires !t.Other? ==> Field(seg, CheckOffset(t), big) == TransportSum(ip, seg, CheckOffset(t), big)
    ensures AddsUp(ip, big) && (!t.Other? ==> AddsUp(PseudoPacket(ip, seg), big))
  {
    hide AddsUp, PseudoPacket, TransportSum, IpSum, Field;
    CheckMeans(ip, seg, t, big);
  }

  lemma AddressesOnly(ip: seq<byte>, src: Addr4, dst: Addr4, sum: u16, big: bool)
    requires |ip| >= 20
    ensures var ip' := Splice(WithAddresses(ip, src, dst), 10, Store(sum, big));
      ip'[..10] == ip[..10] && ip'[12..] == src + dst + ip[20..]
  {}

  /** A receiver finds the transport checksum right after a rewrite exactly when it would have before. */
  lemma RewriteAddsUp(ip: seq<byte>, seg: seq<byte>, t: Transport, src: Addr4, dst: Addr4, big: bool)
    requires Legal(ip, seg, t)
    ensures var off := CheckOffset(t);
      var ip1 := WithAddresses(ip, src, dst);
      var ip' := Splice(ip1, 10, Store(IpSum(ip1, big), big));
      && AddsUp(ip', big)
      && (!t.Other? ==>
            var seg' := Splice(seg, off, Store(AdjustedField(Field(seg, off, big), ip, src, dst, t, big), big));
            AddsUp(PseudoPacket(ip', seg'), big) <==> AddsUp(PseudoPacket(ip, seg), big))
  {
    hide OC, WordSum, Word, Adjust, AdjustedField, TransportSum, AddsUp, PseudoPacket, Represents, Weight;
    var off, ip1 := CheckOffset(t), WithAddresses(ip, src, dst);
    var ip' := Splice(ip1, 10, Store(IpSum(ip1, big), big));
    IpSumIgnoresField(ip1, seg, off, IpSum(ip1, big), big);
    assert ip'[0] == ip[0];
    HeaderMeans(ip', big);
    if !t.Other? {
      var field := AdjustedField(Field(seg, off, big), ip, src, dst, t, big);
      var seg' := Splice(seg, off, Store(field, big));
      RewriteKeepsError(ip, seg, t, Field(seg, off, big), src, dst, big);
      SumIgnoresField(ip1, seg, off, field, big);
      IpSumIgnoresField(ip1, seg', off, IpSum(ip1, big), big);
      TransportMeans(ip, seg, t, big);
      TransportMeans(ip', seg', t, big);
    }
  }

  /** The sums do not read the fields they are stored in. */
  lemma SumIgnoresField(ip: seq<byte>, seg: seq<byte>, off: nat, v: u16, big: bool)
    requires |ip| >= 20 && off + 2 <= |seg| <= 65535
    ensures var seg' := Splice(seg, off, Store(v, big));
      && TransportSum(ip, seg', off, big) == TransportSum(ip, seg, off, big) && Field(seg', off, big) == v
  {
    var seg' := Splice(seg, off, Store(v, big));
    assert Zeroed(seg', off) == Zeroed(seg, off);
    StoreLoad(v, big);
  }

  lemma IpSumIgnoresField(ip: seq<byte>, seg: seq<byte>, off: nat, v: u16, big: bool)
    requires |ip| >= 20
    ensures var ip' := Splice(ip, 10, Store(v, big));
      && IpSum(ip', big) == IpSum(ip, big) && Field(ip', 10, big) == v
      && (off + 2 <= |seg| <= 65535 ==> TransportSum(ip', seg, off, big) == TransportSum(ip, seg, off, big))
      && forall t :: Legal(ip, seg, t) ==> Legal(ip', seg, t)
  {
    var ip' := Splice(ip, 10, Store(v, big));
    assert Zeroed(ip', 10) == Zeroed(ip, 10);
    assert ip'[12..16] == ip[12..16] && ip'[16..20] == ip[16..20];
    StoreLoad(v, big);
  }

  lemma NoOverflowIp(ip: seq<byte>, big: bool)
    requires 20 <= |ip| <= 60
    ensures WordSum(Zeroed(ip, 10), big) < 0x8000_0000
  {
    WordSumBound(Zeroed(ip, 10), big);
  }

  /** Both addresses in one sum. */
  lemma AddressesSum(ip: seq<byte>, big: bool)
    requires |ip| >= 20
    ensures WordSum(ip[12..20], big) == WordSum(ip[12..16], big) + WordSum(ip[16..20], big)
  {
    var b := ip[12..20];
    WordSum4(ip[12..16], big);
    assert b[2..][2..] == ip[16..20];
    assert b[2..][0] == ip[14] && b[2..][1] == ip[15];
  }

  /**
   * After a rewrite, a TCP packet that passed the check passes it again; so does a UDP packet, also one whose zero
   * checksum was sent as all ones, exactly when the recomputed checksum is not zero, which the rewrite stores as all
   * ones.
   */
  lemma RewriteKeepsCheck(ip: seq<byte>, seg: seq<byte>, t: Transport, src: Addr4, dst: Addr4, big: bool)
    requires Legal(ip, seg, t) && !t.Other?
    ensures var off := CheckOffset(t);
      var seg' := Splice(seg, off, Store(AdjustedField(Field(seg, off, big), ip, src, dst, t, big), big));
      var ip1 := WithAddresses(ip, src, dst);
      var ip' := Splice(ip1, 10, Store(IpSum(ip1, big), big));
      var after := TransportSum(ip', seg', off, big);
      && Legal(ip', seg', t)
      && (t.Tcp? && Field(seg, off, big) == TransportSum(ip, seg, off, big) ==> Field(seg', off, big) == after)
      && (t.Udp? && Represents(Field(seg, off, big), TransportSum(ip, seg, off, big)) ==>
            Represents(Field(seg', off, big), after) && (Field(seg', off, big) == after <==> after != 0))
  {
    hide OC, WordSum, Word, Adjust, AdjustedField, TransportSum;
    var off := CheckOffset(t);
    var field := AdjustedField(Field(seg, off, big), ip, src, dst, t, big);
    var ip1, seg' := WithAddresses(ip, src, dst), Splice(seg, off, Store(field, big));
    RewriteIsRecompute(ip, seg, t, Field(seg, off, big), src, dst, big);
    SumIgnoresField(ip1, seg, off, field, big);
    IpSumIgnoresField(ip1, seg', off, IpSum(ip1, big), big);
  }
}
