/** Names packed into one message are recovered from it (dns.c:117-253). */
module DnsRoundTrip {
  import opened Bytes
  import opened DnsHeader
  import opened DnsName

  /** Labels the packing loop splits a text into. */
  function LabelCount(s: Text): nat
    decreases |s|
  {
    if s == [] then 0 else 1 + LabelCount(Rest(s))
  }

  ghost predicate ShortLabels(s: Text)
    decreases |s|
  {
    s != [] ==> DotIndex(s) <= 63 && ShortLabels(Rest(s))
  }

  /** The labels before the first empty one: an empty label is written as the octet that ends a name. */
  function Kept(s: Text): seq<Text>
    decreases |s|
  {
    if s == [] || DotIndex(s) == 0 then [] else [s[..DotIndex(s)]] + Kept(Rest(s))
  }

  /** Every label has 1 to 63 characters and the text does not end in a dot. */
  ghost predicate WellFormed(s: Text)
    decreases |s|
  {
    s != [] ==> 1 <= DotIndex(s) <= 63 && (DotIndex(s) < |s| ==> Rest(s) != [] && WellFormed(Rest(s)))
  }

  /** Every back-reference followed from pos targets an offset before the reference itself. */
  ghost predicate Backward(msg: seq<byte>, pos: nat, jumps: nat)
    decreases jumps, if pos < |msg| then |msg| - pos else 0
  {
    pos < |msg| && msg[pos] != 0 ==>
      if msg[pos] < 64 then Backward(msg, pos + 1 + msg[pos], jumps)
      else jumps > 0 && pos + 1 < |msg| ==>
        var off := Offset(msg[pos], msg[pos + 1]);
        off < pos && Backward(msg, off, jumps - 1)
  }

  /** At pos stands s, up to its first empty label, within the given number of jumps. */
  ghost predicate Resolves(msg: seq<byte>, pos: nat, jumps: nat, s: Text) {
    Walk(msg, pos, |msg|, jumps) == Done(Kept(s)) && Backward(msg, pos, jumps)
  }

  ghost predicate EntryOk(msg: seq<byte>, at: nat, key: Text) {
    0 < at < |msg| && key != [] && (ShortLabels(key) ==> Resolves(msg, at, LabelCount(key) - 1, key))
  }

  /** Each sound dictionary key is found at its offset. */
  ghost predicate DictOk(msg: seq<byte>, dict: Dict, sound: set<Text>) {
    forall k :: k in sound ==> k in dict && EntryOk(msg, dict[k], k)
  }

  /** The first suffix of src that the dictionary holds: where packing ends with a back-reference. */
  function Hit(src: Text, dict: Dict): (h: Option<Text>)
    ensures h.Some? ==> h.value in dict && h.value != [] && |h.value| <= |src|
    decreases |src|
  {
    if src == [] then None else if src in dict then Some(src) else Hit(Rest(src), dict)
  }

  /** The back-reference packing src ends with, if any, goes to a sound entry within 14 bits. */
  predicate Traceable(src: Text, dict: Dict, sound: set<Text>) {
    Hit(src, dict).Some? ==> Hit(src, dict).value in sound && dict[Hit(src, dict).value] < 0x4000
  }

  lemma {:induction false} HitApart(src: Text, dict: Dict, key: Text, at: nat)
    requires |key| > |src|
    ensures Hit(src, dict[key := at]) == Hit(src, dict)
    decreases |src|
  {
    hide Rest;
    if src != [] && src !in dict { RestShorter(src); HitApart(Rest(src), dict, key, at); }
  }

  lemma RestShorter(src: Text)
    requires src != []
    ensures |Rest(src)| < |src| && (0 !in src ==> 0 !in Rest(src))
  {}

  // ---------------------------------------------------------------------------------------------
  // Appending to the message does not disturb the names in it
  // ---------------------------------------------------------------------------------------------

  lemma {:induction false} WalkExtends(msg: seq<byte>, ext: seq<byte>, pos: nat, jumps: nat)
    requires Walk(msg, pos, |msg|, jumps).Done?
    ensures Walk(msg + ext, pos, |msg + ext|, jumps) == Walk(msg, pos, |msg|, jumps)
    ensures Backward(msg, pos, jumps) ==> Backward(msg + ext, pos, jumps)
    decreases jumps, |msg| - pos
  {
    hide StrNCopy;
    var n: int := msg[pos];
    if n >= 64 {
      WalkExtends(msg, ext, Offset(msg[pos], msg[pos + 1]), jumps - 1);
    } else if n > 0 {
      WalkExtends(msg, ext, pos + 1 + n, jumps);
      assert (msg + ext)[pos + 1..pos + 1 + n] == msg[pos + 1..pos + 1 + n];
    }
  }

  lemma {:induction false} MoreJumps(msg: seq<byte>, pos: nat, jumps: nat, more: nat)
    requires Walk(msg, pos, |msg|, jumps).Done? && jumps <= more
    ensures Walk(msg, pos, |msg|, more) == Walk(msg, pos, |msg|, jumps)
    decreases jumps, |msg| - pos
  {
    var n: int := msg[pos];
    if n >= 64 {
      MoreJumps(msg, Offset(msg[pos], msg[pos + 1]), jumps - 1, more - 1);
    } else if n > 0 {
      MoreJumps(msg, pos + 1 + n, jumps, more);
    }
  }

  lemma DictExtends(msg: seq<byte>, ext: seq<byte>, dict: Dict, sound: set<Text>)
    requires DictOk(msg, dict, sound)
    ensures DictOk(msg + ext, dict, sound)
  {
    forall k | k in sound ensures k in dict && EntryOk(msg + ext, dict[k], k) {
      assert EntryOk(msg, dict[k], k);
      if ShortLabels(k) { WalkExtends(msg, ext, dict[k], LabelCount(k) - 1); }
    }
  }

  // ---------------------------------------------------------------------------------------------
  // Packing keeps the dictionary right
  // ---------------------------------------------------------------------------------------------

  lemma {:induction false} PackKeeps(src: Text, at: nat, room: int, limit: nat, dict: Dict)
    ensures var p := Pack(src, at, room, limit, dict);
      && (p.ok ==> |p.out| >= 1)
      && forall k :: k in dict ==> k in p.dict && p.dict[k] == dict[k]
    decreases |src|
  {
    hide Pack, DotIndex, Rest;
    PackEnds(src, at, room, limit, dict);
    if 0 < |src| < DNS_NAME_MAX && src !in dict && at < limit && room > DotIndex(src) + 1 {
      PackLabel(src, at, room, limit, dict);
      PackKeeps(Rest(src), at + 1 + DotIndex(src), room - 1 - DotIndex(src), limit, dict[src := at]);
    }
  }

  /**
   * A back-reference decodes to the offset it was made for exactly when the offset fits in 14 bits and, where char is
   * signed, its low octet is below 128.
   */
  lemma PointerDecodes(i: nat, signed: bool)
    ensures var b := PointerBytes(i);
      && b[0] >= 64 && Offset(b[0], b[1]) == i % 0x4000
      && (ReadOffset(b[0], b[1], signed) == i <==> i < 0x4000 && (signed ==> i % 256 < 128))
      && (signed && i % 256 >= 128 ==> ReadOffset(b[0], b[1], signed) < 0)
      && ((signed ==> i % 256 < 128) ==> ReadOffset(b[0], b[1], signed) == i % 0x4000)
  {
    PointerOctets(i);
    RemainderIs(i, i / 256 / 64, i / 256 % 64 * 256 + i % 256);
  }

  lemma PointerOctets(i: nat)
    ensures var b, q := PointerBytes(i), i / 256;
      |b| == 2 && b[0] == 192 + q % 64 && b[1] == i % 256 && Offset(b[0], b[1]) == q % 64 * 256 + i % 256
  {}

  lemma RemainderIs(i: nat, k: nat, r: nat)
    requires i == k * 0x4000 + r && r < 0x4000
    ensures i % 0x4000 == r && (i == r <==> i < 0x4000)
  {}

  lemma SmallPointer(i: nat)
    requires i < 0x4000
    ensures var b := PointerBytes(i); |b| == 2 && b[0] >= 64 && Offset(b[0], b[1]) == i
  {
    hide PointerBytes;
    PointerDecodes(i, false);
    PointerOctets(i);
  }

  lemma ResolvesPointer(msg: seq<byte>, at: nat, i: nat, s: Text, jumps: nat)
    requires at + 1 < |msg| && msg[at] >= 64 && Offset(msg[at], msg[at + 1]) == i && 0 < i < at
    requires Resolves(msg, i, jumps, s)
    ensures Resolves(msg, at, jumps + 1, s)
  {}

  lemma ResolvesLabel(msg: seq<byte>, at: nat, n: nat, s: Text, jumps: nat)
    requires s != [] && 0 !in s && n == DotIndex(s) <= 63
    requires at + 1 + n < |msg| && msg[at] == n && msg[at + 1..at + 1 + n] == s[..n]
    requires n > 0 ==> Resolves(msg, at + 1 + n, jumps, Rest(s))
    ensures Resolves(msg, at, jumps, s)
  {
    hide DotIndex, Rest;
  }

  lemma PackHit(msg: seq<byte>, src: Text, i: nat)
    requires EntryOk(msg, i, src) && i < 0x4000 && ShortLabels(src)
    ensures Resolves(msg + PointerBytes(i), |msg|, LabelCount(src), src)
  {
    hide Walk, Backward, Kept, ShortLabels;
    var final, b := msg + PointerBytes(i), PointerBytes(i);
    WalkExtends(msg, b, i, LabelCount(src) - 1);
    SmallPointer(i);
    hide PointerBytes, LabelCount;
    assert final[|msg|] == b[0] && final[|msg| + 1] == b[1];
    ResolvesPointer(final, |msg|, i, src, LabelCount(src) - 1);
  }

  lemma PackMiss(final: seq<byte>, at: nat, n: nat, src: Text)
    requires src != [] && 0 !in src && ShortLabels(src) && n == DotIndex(src)
    requires at + 1 + n < |final| && final[at] == n && final[at + 1..at + 1 + n] == src[..n]
    requires Resolves(final, at + 1 + n, LabelCount(Rest(src)), Rest(src))
    ensures Resolves(final, at, LabelCount(src) - 1, src)
    ensures Resolves(final, at, LabelCount(src), src)
  {
    hide Resolves, Rest, DotIndex;
    var jumps := LabelCount(Rest(src));
    ResolvesLabel(final, at, n, src, jumps);
    ResolvesMoreJumps(final, at, jumps, src);
  }

  lemma LabelAt(msg: seq<byte>, src: Text, out: seq<byte>)
    requires |src| < DNS_NAME_MAX
    ensures var n, final := DotIndex(src), msg + LabelBytes(src) + out;
      final[|msg|] == n && final[|msg| + 1..|msg| + 1 + n] == src[..n]
  {
    hide DotIndex;
    var n, l := DotIndex(src), LabelBytes(src);
    assert l[0] == n && l[1..] == src[..n];
    hide LabelBytes;
    var final := msg + l + out;
    assert final[|msg|] == l[0];
    assert final[|msg| + 1..|msg| + 1 + n] == l[1..];
  }

  lemma {:induction false} BackwardMoreJumps(msg: seq<byte>, pos: nat, jumps: nat)
    requires Walk(msg, pos, |msg|, jumps).Done? && Backward(msg, pos, jumps)
    ensures Backward(msg, pos, jumps + 1)
    decreases jumps, |msg| - pos
  {
    var n: int := msg[pos];
    if n >= 64 {
      BackwardMoreJumps(msg, Offset(msg[pos], msg[pos + 1]), jumps - 1);
    } else if n > 0 {
      BackwardMoreJumps(msg, pos + 1 + n, jumps);
    }
  }

  lemma ResolvesMoreJumps(msg: seq<byte>, pos: nat, jumps: nat, s: Text)
    requires Resolves(msg, pos, jumps, s)
    ensures Resolves(msg, pos, jumps + 1, s)
  {
    MoreJumps(msg, pos, jumps, jumps + 1);
    BackwardMoreJumps(msg, pos, jumps);
  }

  /** Packing a traceable name makes every suffix it writes sound. */
  lemma {:induction false} PackSound(msg: seq<byte>, dict: Dict, sound: set<Text>, src: Text, room: int, limit: nat)
    requires |msg| >= 1 && 0 !in src && DictOk(msg, dict, sound)
    requires Pack(src, |msg|, room, limit, dict).ok && Traceable(src, dict, sound)
    ensures var p := Pack(src, |msg|, room, limit, dict);
      && DictOk(msg + p.out, p.dict, sound + (p.dict.Keys - dict.Keys))
      && (ShortLabels(src) ==> Resolves(msg + p.out, |msg|, LabelCount(src), src))
    decreases |src|
  {
    hide Pack, Resolves, LabelCount, Rest, DotIndex, LabelBytes, PointerBytes;
    var p := Pack(src, |msg|, room, limit, dict);
    PackEnds(src, |msg|, room, limit, dict);
    if src == [] {
      DictExtends(msg, [0], dict, sound);
      PackRoot(msg);
    } else if src in dict {
      DictExtends(msg, p.out, dict, sound);
      if ShortLabels(src) { PackHit(msg, src, dict[src]); }
    } else {
      PackLabel(src, |msg|, room, limit, dict);
      PackMissSound(msg, dict, sound, src, room, limit);
    }
  }

  lemma PackRoot(msg: seq<byte>)
    ensures Resolves(msg + [0], |msg|, LabelCount([]), [])
  {}

  lemma {:induction false} PackMissSound(msg: seq<byte>, dict: Dict, sound: set<Text>, src: Text, room: int, limit: nat)
    requires |msg| >= 1 && 0 !in src && DictOk(msg, dict, sound)
    requires 0 < |src| < DNS_NAME_MAX && src !in dict && |msg| < limit && room > DotIndex(src) + 1
    requires Pack(src, |msg|, room, limit, dict).ok && Traceable(src, dict, sound)
    ensures var p := Pack(src, |msg|, room, limit, dict);
      && DictOk(msg + p.out, p.dict, sound + (p.dict.Keys - dict.Keys))
      && (ShortLabels(src) ==> Resolves(msg + p.out, |msg|, LabelCount(src), src))
    decreases |src|, 0
  {
    hide Pack, Resolves, LabelCount, Rest, DotIndex, LabelBytes;
    var p := Pack(src, |msg|, room, limit, dict);
    var at, n, rest := |msg|, DotIndex(src), Rest(src);
    PackLabel(src, at, room, limit, dict);
    var head, dict' := msg + LabelBytes(src), dict[src := at];
    var q := Pack(rest, at + 1 + n, room - 1 - n, limit, dict');
    PackKeeps(rest, at + 1 + n, room - 1 - n, limit, dict');
    DictExtends(msg, LabelBytes(src), dict, sound);
    assert DictOk(head, dict', sound);
    RestShorter(src);
    HitApart(rest, dict, src, at);
    PackSound(head, dict', sound, rest, room - 1 - n, limit);
    assert msg + p.out == head + q.out;
    if ShortLabels(src) {
      LabelAt(msg, src, q.out);
      PackMiss(msg + p.out, at, n, src);
    }
    assert EntryOk(msg + p.out, at, src);
  }

  // ---------------------------------------------------------------------------------------------
  // Which texts come back
  // ---------------------------------------------------------------------------------------------

  lemma DottedCancels(l: Text, u: Text, v: Text)
    ensures l + [DOT] + u == l + [DOT] + v <==> u == v
  {
    if l + [DOT] + u == l + [DOT] + v {
      assert u == (l + [DOT] + u)[|l| + 1..] == (l + [DOT] + v)[|l| + 1..] == v;
    }
  }

  lemma JoinCons(l: Text, ls: seq<Text>)
    ensures Join([l] + ls) == if ls == [] then l else l + [DOT] + Join(ls)
  {}

  lemma KeptStep(s: Text)
    requires s != []
    ensures Kept(s) == if DotIndex(s) == 0 then [] else [s[..DotIndex(s)]] + Kept(Rest(s))
  {}

  lemma WellFormedStep(s: Text)
    requires s != []
    ensures WellFormed(s) <==> 1 <= DotIndex(s) <= 63 && (DotIndex(s) < |s| ==> Rest(s) != [] && WellFormed(Rest(s)))
    ensures ShortLabels(s) ==> DotIndex(s) <= 63 && ShortLabels(Rest(s))
  {}

  lemma TextStep(s: Text)
    ensures var n := DotIndex(s);
      if n < |s| then s == s[..n] + [DOT] + Rest(s) else Rest(s) == [] && s[..n] == s
  {
    hide DotIndex;
    if DotIndex(s) < |s| { SplitAround(s, DotIndex(s)); }
  }

  /** The labels kept are the text itself exactly when it is well formed. */
  lemma {:induction false} KeptIsText(s: Text)
    requires ShortLabels(s)
    ensures Join(Kept(s)) == s <==> WellFormed(s)
    decreases |s|
  {
    if s != [] {
      var n, rest := DotIndex(s), Rest(s);
      KeptStep(s);
      WellFormedStep(s);
      TextStep(s);
      if n > 0 {
        KeptIsText(rest);
        hide DotIndex, Rest, ShortLabels, Kept, WellFormed, Join;
        JoinCons(s[..n], Kept(rest));
        DottedCancels(s[..n], Join(Kept(rest)), rest);
        if rest != [] {
          KeptStep(rest);
          WellFormedStep(rest);
        } else { assert Kept([]) == [] by { NothingKept(); } }
        JoinNothing();
      }
    }
  }

  lemma NothingKept()
    ensures Kept([]) == []
  {}

  /** 64 consecutive characters without a dot. */
  ghost predicate LongRunAt(s: Text, i: nat) {
    i + 64 <= |s| && DOT !in s[i..i + 64]
  }

  ghost predicate NoLongRun(s: Text) {
    forall i: nat :: !LongRunAt(s, i)
  }

  lemma {:induction false} LongLabelIsLongRun(s: Text)
    requires !ShortLabels(s)
    ensures !NoLongRun(s)
    decreases |s|
  {
    var n := DotIndex(s);
    if n >= 64 {
      assert forall k :: 0 <= k < 64 ==> s[0..64][k] == s[..n][k];
      assert LongRunAt(s, 0);
    } else {
      LongLabelIsLongRun(Rest(s));
      var i: nat :| LongRunAt(Rest(s), i);
      assert s[n + 1 + i..n + 1 + i + 64] == Rest(s)[i..i + 64];
      assert LongRunAt(s, n + 1 + i);
    }
  }

  lemma {:induction false} JoinHasNoLongRun(ls: seq<Text>)
    requires forall l :: l in ls ==> |l| <= 63
    ensures NoLongRun(Join(ls))
  {
    if |ls| > 1 {
      JoinHasNoLongRun(ls[1..]);
      var u, n, t := Join(ls), |ls[0]|, Join(ls[1..]);
      forall i: nat ensures !LongRunAt(u, i) {
        if i + 64 <= |u| {
          if i <= n {
            assert u[i..i + 64][n - i] == DOT;
          } else {
            assert u[i..i + 64] == t[i - n - 1..i - n - 1 + 64];
            assert !LongRunAt(t, i - n - 1);
          }
        }
      }
    }
  }

  lemma {:induction false} WalkLabelsShort(msg: seq<byte>, pos: nat, stop: nat, jumps: nat)
    requires stop <= |msg| && Walk(msg, pos, stop, jumps).Done?
    ensures forall l :: l in Walk(msg, pos, stop, jumps).labels ==> |l| <= 63
    decreases jumps, stop - pos
  {
    hide StrNCopy;
    var n: int := msg[pos];
    if n >= 64 {
      WalkLabelsShort(msg, Offset(msg[pos], msg[pos + 1]), |msg|, jumps - 1);
    } else if n > 0 {
      WalkLabelsShort(msg, pos + 1 + n, stop, jumps);
    }
  }

  /** No message whatever unpacks to a text with a label of 64 characters or more. */
  lemma LongLabelsNeverUnpack(msg: seq<byte>, pos: nat, stop: nat, dstlen: int, signed: bool, s: Text)
    requires stop <= |msg| && !ShortLabels(s)
    ensures Unpacked(msg, pos, stop, dstlen, signed) != Some(s)
  {
    if signed { SignedWalk(msg, pos, stop, 99); }
    if Walk(msg, pos, stop, 99).Done? {
      WalkLabelsShort(msg, pos, stop, 99);
      JoinHasNoLongRun(Walk(msg, pos, stop, 99).labels);
      LongLabelIsLongRun(s);
    }
  }

  // ---------------------------------------------------------------------------------------------
  // The jump budget
  // ---------------------------------------------------------------------------------------------

  /** Back-references followed from pos. */
  function JumpCount(msg: seq<byte>, pos: nat, fuel: nat): nat
    decreases fuel, if pos < |msg| then |msg| - pos else 0
  {
    if pos >= |msg| || msg[pos] == 0 then 0
    else if msg[pos] < 64 then JumpCount(msg, pos + 1 + msg[pos], fuel)
    else if fuel == 0 || pos + 1 >= |msg| then 0
    else 1 + JumpCount(msg, Offset(msg[pos], msg[pos + 1]), fuel - 1)
  }

  /** A walk that can finish finishes exactly when it is allowed as many jumps as there are references on its way. */
  lemma {:induction false} BudgetIsJumpCount(msg: seq<byte>, pos: nat, fuel: nat, jumps: nat)
    requires Walk(msg, pos, |msg|, fuel).Done?
    ensures JumpCount(msg, pos, fuel) <= fuel
    ensures Walk(msg, pos, |msg|, jumps).Done? <==> JumpCount(msg, pos, fuel) <= jumps
    ensures Walk(msg, pos, |msg|, jumps).Done? ==> Walk(msg, pos, |msg|, jumps) == Walk(msg, pos, |msg|, fuel)
    decreases fuel, |msg| - pos
  {
    var n: int := msg[pos];
    if n >= 64 {
      BudgetIsJumpCount(msg, Offset(msg[pos], msg[pos + 1]), fuel - 1, if jumps == 0 then 0 else jumps - 1);
    } else if n > 0 {
      BudgetIsJumpCount(msg, pos + 1 + n, fuel, jumps);
    }
  }

  // ---------------------------------------------------------------------------------------------
  // Where a name ends
  // ---------------------------------------------------------------------------------------------

  lemma {:induction false} NameEndExtends(msg: seq<byte>, ext: seq<byte>, pos: nat, jumps: nat)
    requires Walk(msg, pos, |msg|, jumps).Done?
    ensures NameEnd(msg + ext, pos) == NameEnd(msg, pos)
    decreases |msg| - pos
  {
    if 0 < msg[pos] < 64 { NameEndExtends(msg, ext, pos + 1 + msg[pos], jumps); }
  }

  lemma {:induction false} PackNameEnd(msg: seq<byte>, src: Text, room: int, limit: nat, dict: Dict)
    requires WellFormed(src) && Pack(src, |msg|, room, limit, dict).ok
    ensures var p := Pack(src, |msg|, room, limit, dict);
      NameEnd(msg + p.out, |msg|) == |msg| + |p.out|
    decreases |src|
  {
    hide Pack, Rest, DotIndex, NameEnd;
    var p, n, rest := Pack(src, |msg|, room, limit, dict), DotIndex(src), Rest(src);
    PackEnds(src, |msg|, room, limit, dict);
    if 0 < |src| && src !in dict {
      PackLabel(src, |msg|, room, limit, dict);
      var head := msg + LabelBytes(src);
      var q := Pack(rest, |head|, room - 1 - n, limit, dict[src := |msg|]);
      WellFormedRest(src);
      PackNameEnd(head, rest, room - 1 - n, limit, dict[src := |msg|]);
      assert msg + p.out == head + q.out;
      assert (msg + p.out)[|msg|] == n;
    } else if 0 < |src| {
      assert (msg + p.out)[|msg|] == PointerBytes(dict[src])[0];
    } else {
      assert (msg + p.out)[|msg|] == 0;
    }
    NameEndCases(msg + p.out, |msg|);
  }

  lemma WellFormedRest(src: Text)
    requires src != [] && WellFormed(src)
    ensures WellFormed(Rest(src)) && 1 <= DotIndex(src) <= 63
  {}

  lemma NameEndCases(msg: seq<byte>, pos: nat)
    requires pos < |msg|
    ensures NameEnd(msg, pos) ==
      if msg[pos] == 0 then pos + 1 else if msg[pos] >= 64 then pos + 2 else NameEnd(msg, pos + 1 + msg[pos])
  {}

  // ---------------------------------------------------------------------------------------------
  // Whole messages
  // ---------------------------------------------------------------------------------------------

  /** What a message is built from: octets of other fields, and names. */
  datatype Part = Raw(octets: seq<byte>) | Name(text: Text)

  /** A message, its dictionary, and the keys whose entries hold what they should. */
  datatype Message = Message(octets: seq<byte>, dict: Dict, sound: set<Text>)

  /** A name that does not pack adds no octets, but the suffixes entered on the way stay in the dictionary. */
  function Append(m: Message, part: Part, size: nat): Message {
    match part
    case Raw(octets) => m.(octets := m.octets + octets)
    case Name(text) =>
      var p := PackAt(m, text, size);
      if !p.ok then m.(dict := p.dict)
      else Message(m.octets + p.out, p.dict,
                   if Traceable(text, m.dict, m.sound) then m.sound + (p.dict.Keys - m.dict.Keys) else m.sound)
  }

  function PackAt(m: Message, text: Text, size: nat): Packed {
    Pack(text, |m.octets|, size - |m.octets|, size, m.dict)
  }

  /** All parts in order, whether or not each of them packs. */
  function Build(m: Message, parts: seq<Part>, size: nat): Message
    decreases |parts|
  {
    if parts == [] then m else Build(Append(m, parts[0], size), parts[1..], size)
  }

  ghost predicate CStrings(parts: seq<Part>) {
    forall part :: part in parts && part.Name? ==> 0 !in part.text
  }

  ghost predicate MessageOk(m: Message) {
    |m.octets| >= 1 && DictOk(m.octets, m.dict, m.sound)
  }

  lemma AppendSound(m: Message, part: Part, size: nat)
    requires MessageOk(m) && CStrings([part])
    ensures var r := Append(m, part, size);
      && MessageOk(r) && m.octets <= r.octets && m.sound <= r.sound
      && forall k :: k in m.dict ==> k in r.dict && r.dict[k] == m.dict[k]
  {
    hide Pack, EntryOk, Traceable;
    match part {
      case Raw(octets) => DictExtends(m.octets, octets, m.dict, m.sound);
      case Name(text) =>
        assert part in [part];
        var p := PackAt(m, text, size);
        PackKeeps(text, |m.octets|, size - |m.octets|, size, m.dict);
        DictExtends(m.octets, p.out, m.dict, m.sound);
        if p.ok && Traceable(text, m.dict, m.sound) {
          PackSound(m.octets, m.dict, m.sound, text, size - |m.octets|, size);
        }
    }
  }

  /** Sound entries stay sound while a message grows, through any mixture of names and other octets. */
  lemma {:induction false} BuildSound(m: Message, parts: seq<Part>, size: nat)
    requires MessageOk(m) && CStrings(parts)
    ensures var r := Build(m, parts, size);
      && MessageOk(r) && m.octets <= r.octets && m.sound <= r.sound
      && forall k :: k in m.dict ==> k in r.dict && r.dict[k] == m.dict[k]
    decreases |parts|
  {
    hide MessageOk, Append;
    if parts != [] {
      assert parts[0] in parts;
      AppendSound(m, parts[0], size);
      BuildSound(Append(m, parts[0], size), parts[1..], size);
    }
  }

  /**
   * A traceable name packed anywhere in a message is read back from the finished message exactly when it is well
   * formed, the chain of references it ends in is at most 99 long, and, where char is signed, their low octets are
   * below 128.
   */
  lemma NameRoundTrip(m: Message, name: Text, after: seq<Part>, size: nat, signed: bool)
    requires MessageOk(m) && CStrings([Name(name)] + after)
    requires PackAt(m, name, size).ok && Traceable(name, m.dict, m.sound)
    ensures var start, m' := |m.octets|, Append(m, Name(name), size);
      var r := Build(m', after, size).octets;
      && (Unpacked(r, start, |r|, DNS_NAME_MAX, signed) == Some(name) <==>
            WellFormed(name) && JumpCount(r, start, LabelCount(name)) <= 99
            && (signed ==> LowReferences(r, start, |r|, 99)))
      && (WellFormed(name) ==>
            && JumpCount(r, start, LabelCount(name)) <= LabelCount(name)
            && NameEnd(r, start) == |m'.octets|
            && Backward(r, start, LabelCount(name)))
  {
    hide Pack, Walk, Backward, JumpCount, NameEnd, WellFormed, ShortLabels, Kept, Join, LabelCount, DictOk, Traceable;
    hide LowReferences;
    var start := |m.octets|;
    var p := PackAt(m, name, size);
    var m' := Append(m, Name(name), size);
    var r := Build(m', after, size).octets;
    assert Name(name) in [Name(name)] + after;
    assert CStrings(after) && CStrings([Name(name)]);
    AppendSound(m, Name(name), size);
    PackSound(m.octets, m.dict, m.sound, name, size - start, size);
    BuildSound(m', after, size);
    var ext := r[|m'.octets|..];
    assert r == m'.octets + ext;
    if ShortLabels(name) {
      WalkExtends(m'.octets, ext, start, LabelCount(name));
      BudgetIsJumpCount(r, start, LabelCount(name), 99);
      KeptIsText(name);
      NameFits(name, start, size, m.dict);
      SignedWalk(r, start, |r|, 99);
      if WellFormed(name) {
        PackNameEnd(m.octets, name, size - start, size, m.dict);
        NameEndExtends(m'.octets, ext, start, LabelCount(name));
      }
    } else {
      LongLabelsNeverUnpack(r, start, |r|, DNS_NAME_MAX, signed, name);
      if WellFormed(name) { WellFormedIsShort(name); }
    }
  }

  lemma {:induction false} BuildConcat(m: Message, first: seq<Part>, second: seq<Part>, size: nat)
    ensures Build(m, first + second, size) == Build(Build(m, first, size), second, size)
    decreases |first|
  {
    if first == [] {
      assert first + second == second;
    } else {
      assert (first + second)[1..] == first[1..] + second;
      BuildConcat(Append(m, first[0], size), first[1..], second, size);
    }
  }

  /** A header and no names yet. */
  function Begun(header: seq<byte>): Message { Message(header, map[], {}) }

  /**
   * NameRoundTrip for a message begun with its header and an empty dictionary, whatever was packed, or failed to pack,
   * before and after the name; 99 labels or fewer always meet the jump budget.
   */
  lemma MessageRoundTrip(header: seq<byte>, before: seq<Part>, name: Text, after: seq<Part>, size: nat, signed: bool)
    requires |header| == DNS_HDR_LEN && CStrings(before) && CStrings([Name(name)] + after)
    requires var m := Build(Begun(header), before, size);
      PackAt(m, name, size).ok && Traceable(name, m.dict, m.sound)
    ensures var start := |Build(Begun(header), before, size).octets|;
      var r := Build(Begun(header), before + ([Name(name)] + after), size).octets;
      && start <= |r| && header <= r
      && (Unpacked(r, start, |r|, DNS_NAME_MAX, signed) == Some(name) <==>
            WellFormed(name) && JumpCount(r, start, LabelCount(name)) <= 99
            && (signed ==> LowReferences(r, start, |r|, 99)))
      && (WellFormed(name) && LabelCount(name) <= 99 ==>
            Unpacked(r, start, |r|, DNS_NAME_MAX, false) == Some(name))
      && (WellFormed(name) ==> Backward(r, start, LabelCount(name)))
  {
    hide Append, Unpacked, WellFormed, JumpCount, LabelCount, Backward, Traceable, LowReferences, MessageOk, PackAt;
    var m0 := Begun(header);
    BuildConcat(m0, before, [Name(name)] + after, size);
    var m := Build(m0, before, size);
    assert ([Name(name)] + after)[1..] == after;
    BegunOk(header);
    BuildSound(m0, before, size);
    BuildSound(m, [Name(name)] + after, size);
    NameRoundTrip(m, name, after, size, signed);
    NameRoundTrip(m, name, after, size, false);
  }

  lemma BegunOk(header: seq<byte>)
    requires |header| == DNS_HDR_LEN
    ensures MessageOk(Begun(header))
  {}

  // ---------------------------------------------------------------------------------------------
  // Which names are traceable
  // ---------------------------------------------------------------------------------------------

  ghost predicate Addressable(dict: Dict) {
    forall k :: k in dict ==> dict[k] < 0x4000
  }

  /** Every name among the parts packs. */
  ghost predicate AllPack(m: Message, parts: seq<Part>, size: nat)
    decreases |parts|
  {
    parts != [] ==>
      && (parts[0].Name? ==> PackAt(m, parts[0].text, size).ok)
      && AllPack(Append(m, parts[0], size), parts[1..], size)
  }

  /** As long as every name packs and no offset leaves 14 bits, every entry is sound and every name is traceable. */
  lemma {:induction false} CleanIsTraceable(m: Message, parts: seq<Part>, size: nat, name: Text)
    requires MessageOk(m) && m.sound == m.dict.Keys && CStrings(parts) && AllPack(m, parts, size)
    requires Addressable(Build(m, parts, size).dict)
    ensures var r := Build(m, parts, size);
      r.sound == r.dict.Keys && Traceable(name, r.dict, r.sound)
    decreases |parts|
  {
    hide MessageOk, Pack, Hit;
    if parts != [] {
      var m' := Append(m, parts[0], size);
      assert parts[0] in parts;
      AppendSound(m, parts[0], size);
      BuildSound(m', parts[1..], size);
      if parts[0].Name? { PackKeeps(parts[0].text, |m.octets|, size - |m.octets|, size, m.dict); }
      CleanIsTraceable(m', parts[1..], size, name);
    }
  }

  /** The text at pos, within the given number of jumps. */
  function TextAt(msg: seq<byte>, pos: nat, jumps: nat, signed: bool): Option<Text> {
    match Walk(msg, pos, |msg|, jumps, signed) case Done(ls) => Some(Join(ls)) case Stuck => None
  }

  /** What the reference a name ends with leads to, for any entry whatever, sound or not. */
  function Reached(msg: seq<byte>, i: nat, jumps: nat, signed: bool): Option<Text> {
    if jumps == 0 || i % 0x4000 == 0 || (signed && i % 256 >= 128) then None
    else TextAt(msg, i % 0x4000, jumps - 1, signed)
  }

  lemma ReferenceReads(msg: seq<byte>, i: nat, ext: seq<byte>, jumps: nat, signed: bool)
    ensures var final := msg + PointerBytes(i) + ext;
      TextAt(final, |msg|, jumps, signed) == Reached(final, i, jumps, signed)
  {
    hide Join, StrNCopy;
    var b, final := PointerBytes(i), msg + PointerBytes(i) + ext;
    PointerDecodes(i, signed);
    assert |b| == 2;
    assert final[|msg|] == b[0] && final[|msg| + 1] == b[1];
  }

  lemma LabelReads(msg: seq<byte>, pos: nat, l: Text, rest: Text, jumps: nat, signed: bool)
    requires 1 <= |l| <= 63 && 0 !in l && pos + 1 + |l| < |msg| && rest != []
    requires msg[pos] == |l| && msg[pos + 1..pos + 1 + |l|] == l
    ensures TextAt(msg, pos, jumps, signed) == Some(l + [DOT] + rest) <==>
      TextAt(msg, pos + 1 + |l|, jumps, signed) == Some(rest)
  {
    hide Join;
    var w := Walk(msg, pos + 1 + |l|, |msg|, jumps, signed);
    if w.Done? {
      JoinCons(l, w.labels);
      JoinNothing();
      DottedCancels(l, Join(w.labels), rest);
    }
  }

  /**
   * For any dictionary at all: a well-formed name that ends in a back-reference is read back exactly when the place its
   * entry points at, cut to 14 bits, reads as the suffix of the entry.
   */
  lemma {:induction false} ReadBackExactly(msg: seq<byte>, dict: Dict, src: Text, room: int, limit: nat, ext: seq<byte>,
                                           jumps: nat, signed: bool)
    requires 0 !in src && WellFormed(src) && Pack(src, |msg|, room, limit, dict).ok && Hit(src, dict).Some?
    ensures var final, h := msg + Pack(src, |msg|, room, limit, dict).out + ext, Hit(src, dict).value;
      TextAt(final, |msg|, jumps, signed) == Some(src) <==> Reached(final, dict[h], jumps, signed) == Some(h)
    decreases |src|
  {
    hide Pack, Rest, DotIndex, TextAt, Reached, LabelBytes, PointerBytes;
    var p, at, n, rest := Pack(src, |msg|, room, limit, dict), |msg|, DotIndex(src), Rest(src);
    PackEnds(src, at, room, limit, dict);
    if src in dict {
      ReferenceReads(msg, dict[src], ext, jumps, signed);
    } else {
      PackLabel(src, at, room, limit, dict);
      var head, dict' := msg + LabelBytes(src), dict[src := at];
      var q := Pack(rest, at + 1 + n, room - 1 - n, limit, dict');
      RestShorter(src);
      HitApart(rest, dict, src, at);
      WellFormedRest(src);
      assert |head| == at + 1 + n;
      ReadBackExactly(head, dict', rest, room - 1 - n, limit, ext, jumps, signed);
      PackKeeps(rest, at + 1 + n, room - 1 - n, limit, dict');
      assert msg + p.out + ext == head + q.out + ext;
      TextStep(src);
      LabelAt(msg, src, q.out + ext);
      Assoc(msg + LabelBytes(src), q.out, ext);
      PrefixClean(src, n);
      LabelReads(msg + p.out + ext, at, src[..n], rest, jumps, signed);
    }
  }

  lemma PrefixClean(src: Text, n: nat)
    requires n <= |src| && 0 !in src
    ensures 0 !in src[..n]
  {}

  lemma NameFits(name: Text, at: nat, size: nat, dict: Dict)
    requires Pack(name, at, size - at, size, dict).ok
    ensures |name| < DNS_NAME_MAX
  {}

  lemma {:induction false} WellFormedIsShort(s: Text)
    requires WellFormed(s)
    ensures ShortLabels(s)
    decreases |s|
  {
    if s != [] { WellFormedIsShort(Rest(s)); }
  }

  // ---------------------------------------------------------------------------------------------
  // The bound on labels cannot be dropped: names a, a.a, a.a.a, ... packed one after the other
  // ---------------------------------------------------------------------------------------------

  function Chain(k: nat): (s: Text)
    ensures |s| == if k == 0 then 0 else 2 * k - 1
  {
    if k == 0 then [] else if k == 1 then [97] else [97, DOT] + Chain(k - 1)
  }

  function ChainStart(k: nat): nat {
    if k <= 1 then 12 else 4 * k + 7
  }

  /** What packing the k-th name writes. */
  function ChainPiece(k: nat): (r: seq<byte>)
    ensures |r| == if k <= 1 then 3 else 4
  {
    [1, 97] + if k <= 1 then [0] else PointerBytes(ChainStart(k - 1))
  }

  /** The message after the first k names. */
  function ChainMessage(k: nat): (m: Message)
    ensures |m.octets| == ChainStart(k + 1) && m.sound == m.dict.Keys
    ensures forall s :: s in m.dict ==> |s| < 2 * k
    ensures k >= 1 ==> Chain(k) in m.dict && m.dict[Chain(k)] == ChainStart(k)
  {
    if k == 0 then Begun(seq(12, _ => 0))
    else
      var m := ChainMessage(k - 1);
      var dict := m.dict[Chain(k) := ChainStart(k)];
      Message(m.octets + ChainPiece(k), dict, dict.Keys)
  }

  lemma ChainSplits(k: nat)
    requires k >= 1
    ensures DotIndex(Chain(k)) == 1 && Rest(Chain(k)) == Chain(k - 1)
    ensures k <= 128 ==> LabelBytes(Chain(k)) == [1, 97]
  {
    assert Chain(k)[0] == 97 && (k > 1 ==> Chain(k)[1] == DOT);
  }

  lemma ChainOut(k: nat, out: seq<byte>)
    requires 1 <= k <= 128 && out == if k == 1 then [0] else PointerBytes(ChainStart(k - 1))
    ensures LabelBytes(Chain(k)) + out == ChainPiece(k)
  {
    ChainSplits(k);
  }

  lemma ChainHit(k: nat)
    requires 1 <= k <= 128
    ensures var m := ChainMessage(k - 1); Traceable(Chain(k), m.dict, m.sound) && Chain(k) !in m.dict
  {
    ChainSplits(k);
    var m := ChainMessage(k - 1);
    assert Hit(Chain(k), m.dict) == Hit(Chain(k - 1), m.dict);
    if k > 1 { assert Hit(Chain(k - 1), m.dict) == Some(Chain(k - 1)); }
  }

  /** Packing a name whose first suffix is in the dictionary, or that is a single label. */
  lemma PackLink(s: Text, at: nat, room: int, limit: nat, dict: Dict)
    requires 0 < |s| < DNS_NAME_MAX && s !in dict && at < limit && room > DotIndex(s) + 3
    requires Rest(s) != [] ==> Rest(s) in dict && dict[Rest(s)] < 0xC000
    ensures Pack(s, at, room, limit, dict)
      == Packed(true, LabelBytes(s) + (if Rest(s) == [] then [0] else PointerBytes(dict[Rest(s)])), dict[s := at])
  {
    hide Pack, DotIndex, LabelBytes, PointerBytes;
    PackLabel(s, at, room, limit, dict);
    PackEnds(Rest(s), at + 1 + DotIndex(s), room - 1 - DotIndex(s), limit, dict[s := at]);
    RestShorter(s);
  }

  lemma ChainPack(k: nat)
    requires 1 <= k <= 128
    ensures var m := ChainMessage(k - 1);
      PackAt(m, Chain(k), 4096) == Packed(true, ChainPiece(k), m.dict[Chain(k) := ChainStart(k)])
  {
    hide Pack, Chain, ChainMessage, DotIndex, Rest, LabelBytes, PointerBytes, ChainPiece;
    var m, s := ChainMessage(k - 1), Chain(k);
    ChainSplits(k);
    ChainFresh(k);
    PackLink(s, |m.octets|, 4096 - |m.octets|, 4096, m.dict);
    ChainOut(k, if k == 1 then [0] else PointerBytes(ChainStart(k - 1)));
  }

  lemma ChainFresh(k: nat)
    requires k >= 1
    ensures Chain(k) !in ChainMessage(k - 1).dict && |Chain(k)| == 2 * k - 1 && (Chain(k - 1) == [] <==> k == 1)
  {
    hide Chain, ChainMessage;
  }

  lemma ChainStep(k: nat)
    requires 1 <= k <= 128
    ensures Append(ChainMessage(k - 1), Name(Chain(k)), 4096) == ChainMessage(k)
  {
    hide PackAt, Chain, ChainPiece, Traceable;
    ChainHit(k);
    ChainPack(k);
    var m, s := ChainMessage(k - 1), Chain(k);
    var dict := m.dict[s := ChainStart(k)];
    assert m.sound + (dict.Keys - m.dict.Keys) == dict.Keys;
  }

  lemma ChainOctets(k: nat, ext: seq<byte>)
    requires 1 <= k <= 128
    ensures var msg, at := ChainMessage(k).octets + ext, ChainStart(k);
      && msg == ChainMessage(k - 1).octets + (ChainPiece(k) + ext)
      && at + 2 < |msg| && msg[at] == 1
      && (k == 1 ==> msg[at + 2] == 0)
      && (k > 1 ==> at + 3 < |msg| && msg[at + 2] >= 64 && Offset(msg[at + 2], msg[at + 3]) == ChainStart(k - 1))
  {
    var msg, at, before := ChainMessage(k).octets + ext, ChainStart(k), ChainMessage(k - 1).octets;
    assert msg == before + (ChainPiece(k) + ext);
    assert msg[at..at + |ChainPiece(k)|] == ChainPiece(k);
    assert msg[at] == ChainPiece(k)[0] && msg[at + 2] == ChainPiece(k)[2];
    if k > 1 {
      assert msg[at + 3] == ChainPiece(k)[3];
      SmallPointer(ChainStart(k - 1));
    }
  }

  /** Each name of the chain needs one jump more than the one before. */
  lemma {:induction false} ChainWalk(k: nat, ext: seq<byte>, jumps: nat)
    requires 1 <= k <= 128
    ensures var msg := ChainMessage(k).octets + ext;
      Walk(msg, ChainStart(k), |msg|, jumps).Done? <==> jumps >= k - 1
    decreases k
  {
    hide Walk, ChainMessage, ChainPiece;
    var msg, at := ChainMessage(k).octets + ext, ChainStart(k);
    ChainOctets(k, ext);
    WalkCases(msg, at, |msg|, jumps, [], false);
    WalkCases(msg, at + 2, |msg|, jumps, [], false);
    if k > 1 && jumps > 0 { ChainWalk(k - 1, ChainPiece(k) + ext, jumps - 1); }
  }

  function ChainParts(k: nat): seq<Part> {
    if k == 0 then [] else ChainParts(k - 1) + [Name(Chain(k))]
  }

  lemma {:induction false} ChainBuilds(k: nat)
    requires k <= 128
    ensures Build(ChainMessage(0), ChainParts(k), 4096) == ChainMessage(k)
    decreases k
  {
    hide ChainMessage, Append;
    if k > 0 {
      ChainBuilds(k - 1);
      ChainStep(k);
      BuildConcat(ChainMessage(0), ChainParts(k - 1), [Name(Chain(k))], 4096);
    }
  }

  lemma {:induction false} ChainWellFormed(k: nat)
    requires 1 <= k
    ensures WellFormed(Chain(k)) && LabelCount(Chain(k)) == k
    decreases k
  {
    ChainSplits(k);
    if k > 1 { ChainWellFormed(k - 1); }
  }

  /**
   * A well-formed name of 100 one-letter labels, packed a second time after itself and its suffixes, needs 100 jumps
   * and is not read back: the 99 labels of MessageRoundTrip are the most that always work.
   */
  lemma JumpBudgetIsTight()
    ensures var m, name := Build(ChainMessage(0), ChainParts(100), 4096), Chain(100);
      var r := Append(m, Name(name), 4096).octets;
      && WellFormed(name) && |name| == 199 && LabelCount(name) == 100
      && PackAt(m, name, 4096).ok && Traceable(name, m.dict, m.sound)
      && Unpacked(r, |m.octets|, |r|, DNS_NAME_MAX, false) == None
  {
    hide ChainMessage, ChainParts, PackAt, Append, Walk, Join, Chain, Traceable, WellFormed, LabelCount;
    ChainBuilds(100);
    ChainWellFormed(100);
    var m, name := ChainMessage(100), Chain(100);
    PackKnown(m, name, 4096);
    var b := PointerBytes(ChainStart(100));
    ChainWalk(100, b, 98);
    var final := m.octets + b;
    assert final + [] == final;
    ReferenceReads(m.octets, ChainStart(100), [], 99, false);
  }

  /** A name the dictionary holds packs to a reference, and is traceable when its entry is. */
  lemma PackKnown(m: Message, name: Text, size: nat)
    requires 0 < |name| < DNS_NAME_MAX && name in m.sound && name in m.dict
    requires m.dict[name] < 0x4000 && |m.octets| + 2 <= size
    ensures PackAt(m, name, size) == Packed(true, PointerBytes(m.dict[name]), m.dict)
      && Traceable(name, m.dict, m.sound)
    ensures Append(m, Name(name), size).octets == m.octets + PointerBytes(m.dict[name])
  {
    hide Pack, PointerBytes;
    PackEnds(name, |m.octets|, size - |m.octets|, size, m.dict);
  }

  // ---------------------------------------------------------------------------------------------
  // The conditions for a traceable name cannot be dropped either
  // ---------------------------------------------------------------------------------------------

  /** What a well-formed name reads as in the finished message when its reference goes to any entry whatever. */
  lemma NameReadsExactly(m: Message, name: Text, after: seq<Part>, size: nat, signed: bool)
    requires MessageOk(m) && CStrings([Name(name)] + after) && WellFormed(name)
    requires PackAt(m, name, size).ok && Hit(name, m.dict).Some?
    ensures var r, h := Build(Append(m, Name(name), size), after, size).octets, Hit(name, m.dict).value;
      |m.octets| <= |r|
      && (Unpacked(r, |m.octets|, |r|, DNS_NAME_MAX, signed) == Some(name) <==>
            Reached(r, m.dict[h], 99, signed) == Some(h))
  {
    hide Pack, Walk, Join, Reached, DictOk, WellFormed, Traceable;
    var m' := Append(m, Name(name), size);
    var r := Build(m', after, size).octets;
    assert Name(name) in [Name(name)] + after;
    assert CStrings(after) && CStrings([Name(name)]);
    AppendSound(m, Name(name), size);
    BuildSound(m', after, size);
    var ext := r[|m'.octets|..];
    assert r == m'.octets + ext;
    ReadBackExactly(m.octets, m.dict, name, size - |m.octets|, size, ext, 99, signed);
    NameFits(name, |m.octets|, size, m.dict);
  }

  /**
   * A failed pack does harm: a.b is cut off in a message of 15 octets, but its suffix b stays in the dictionary at 14,
   * so that b packs to a reference behind the end of the message.
   */
  lemma FailedPackMisleads()
    ensures var a_b: Text, b: Text := [97, DOT, 98], [98];
      var m := Build(Begun(seq(12, _ => 0)), [Name(a_b)], 15);
      var r := Append(m, Name(b), 15).octets;
      && !PackAt(Begun(seq(12, _ => 0)), a_b, 15).ok && |m.octets| == 12
      && WellFormed(b) && PackAt(m, b, 15).ok && !Traceable(b, m.dict, m.sound)
      && Unpacked(r, 12, |r|, DNS_NAME_MAX, false) == None
  {
    var a_b: Text, b: Text := [97, DOT, 98], [98];
    var m0 := Begun(seq(12, _ => 0));
    TwoLabels();
    PackLabel(a_b, 12, 3, 15, map[]);
    PackEnds(b, 14, 1, 15, map[a_b := 12]);
    var m := Append(m0, Name(a_b), 15);
    assert m.dict == map[a_b := 12][b := 14] && m.octets == m0.octets;
    assert [Name(a_b)][1..] == [];
    assert Build(m0, [Name(a_b)], 15) == m;
    PackEnds(b, 12, 3, 15, m.dict);
    var r := Append(m, Name(b), 15).octets;
    assert r == m.octets + [192, 14];
    assert r[12] == 192 && r[13] == 14;
  }

  lemma TwoLabels()
    ensures var a_b: Text, b: Text := [97, DOT, 98], [98];
      && DotIndex(a_b) == 1 && Rest(a_b) == b && DotIndex(b) == 1 && Rest(b) == [] && WellFormed(b)
  {
    var a_b: Text, b: Text := [97, DOT, 98], [98];
    assert a_b[1..] == [DOT, 98] && a_b[2..] == b && b[1..] == [];
  }

  /** Nor do offsets beyond 14 bits: the second a is a reference to 0x4000, which is read as the start of the header. */
  lemma FarOffsetMisleads(header: seq<byte>)
    requires |header| == 0x4000
    ensures var a: Text := [97];
      var m := Append(Begun(header), Name(a), 0x5000);
      var r := Append(m, Name(a), 0x5000).octets;
      && WellFormed(a) && PackAt(m, a, 0x5000).ok && m.dict == map[a := 0x4000]
      && Unpacked(r, 0x4003, |r|, DNS_NAME_MAX, false) == None
  {
    var a: Text := [97];
    assert a[1..] == [] && DotIndex(a) == 1 && Rest(a) == [];
    PackLabel(a, 0x4000, 0x1000, 0x5000, map[]);
    PackEnds([], 0x4002, 0xffe, 0x5000, map[a := 0x4000]);
    var m := Append(Begun(header), Name(a), 0x5000);
    assert m.dict == map[a := 0x4000] && |m.octets| == 0x4003;
    PackEnds(a, 0x4003, 0xffd, 0x5000, m.dict);
    var r := Append(m, Name(a), 0x5000).octets;
    assert r == m.octets + [192, 0];
    assert r[0x4003] == 192 && r[0x4004] == 0;
  }
}
