/** Enumerating TCP options and removing SACK-permitted in place (netpkt.c:252-296, 929-952; section 2 of RFC 2018). */
module TcpOptions {
  import opened Bytes

  const TCP_OPT_SACKOK: byte := 4

  datatype Opt = Opt(kind: byte, data: seq<byte>)

  /** An option length read through a char, which may be signed. */
  function Length(b: byte, signed: bool): int {
    if signed && b >= 128 then b - 256 else b
  }

  /** An option with a length octet that fits in s. */
  predicate Sized(s: seq<byte>, signed: bool) {
    |s| >= 2 && 2 <= Length(s[1], signed) <= |s|
  }

  /**
   * Every option the enumeration yields from the start of s, no-operations included, up to the end or the first
   * defect.
   */
  function Options(s: seq<byte>, signed: bool): seq<Opt> {
    if s == [] || s[0] == 0 then []
    else if s[0] == 1 then [Opt(1, [])] + Options(s[1..], signed)
    else if !Sized(s, signed) then []
    else
      var len := Length(s[1], signed);
      [Opt(s[0], s[2..len])] + Options(s[len..], signed)
  }

  function Without(os: seq<Opt>, kind: byte): seq<Opt> {
    if os == [] then [] else (if os[0].kind == kind then [] else [os[0]]) + Without(os[1..], kind)
  }

  function Nops(n: nat): (r: seq<byte>)
    ensures |r| == n && forall i :: 0 <= i < n ==> r[i] == 1
  {
    seq(n, _ => 1)
  }

  /** The option area with every SACK-permitted option the enumeration reaches overwritten. */
  function Blanked(s: seq<byte>, signed: bool): (r: seq<byte>)
    ensures |r| == |s|
  {
    if s == [] || s[0] == 0 then s
    else if s[0] == 1 then [s[0]] + Blanked(s[1..], signed)
    else if !Sized(s, signed) then s
    else
      var len := Length(s[1], signed);
      (if s[0] == TCP_OPT_SACKOK then Nops(len) else s[..len]) + Blanked(s[len..], signed)
  }

  lemma {:induction false} NopsAddNothing(n: nat, t: seq<byte>, signed: bool)
    ensures Without(Options(Nops(n) + t, signed), 1) == Without(Options(t, signed), 1)
    decreases n
  {
    var s := Nops(n) + t;
    if n == 0 {
      assert s == t;
    } else {
      assert s[1..] == Nops(n - 1) + t;
      NopsAddNothing(n - 1, t, signed);
      var os := Options(s, signed);
      assert os[0] == Opt(1, []) && os[1..] == Options(s[1..], signed);
    }
  }

  /** An option that is left alone is enumerated in front of what follows it. */
  lemma OptionKept(head: seq<byte>, t: seq<byte>, signed: bool)
    requires Sized(head, signed) && Length(head[1], signed) == |head| && head[0] > 1
    ensures Options(head + t, signed) == [Opt(head[0], head[2..])] + Options(t, signed)
  {
    var s := head + t;
    assert s[0] == head[0] && s[1] == head[1] && s[|head|..] == t && s[2..|head|] == head[2..];
  }

  /** An option as section 3.1 of RFC 793 lays it out: kind, length of the whole, data. */
  lemma OptionLaidOut(kind: byte, data: seq<byte>, t: seq<byte>, signed: bool)
    requires kind >= 2 && |data| + 2 < if signed then 128 else 256
    ensures Options([kind, |data| + 2] + data + t, signed) == [Opt(kind, data)] + Options(t, signed)
  {
    var head := [kind, |data| + 2] + data;
    assert head[2..] == data;
    OptionKept(head, t, signed);
  }

  /** A length octet that is too small, too large for the area, or negative as a char, ends the enumeration. */
  lemma BrokenLength(kind: byte, n: byte, t: seq<byte>, signed: bool)
    requires kind >= 2 && (n < 2 || n > |t| + 2 || (signed && n >= 128))
    ensures Options([kind, n] + t, signed) == [] == Options([kind], signed)
  {}

  /** End of list and no-operation are one octet each. */
  lemma OneOctetOptions(t: seq<byte>, signed: bool)
    ensures Options([1] + t, signed) == [Opt(1, [])] + Options(t, signed)
    ensures Options([0] + t, signed) == [] == Options([], signed)
  {
    assert ([1] + t)[1..] == t;
  }

  /** Removal deletes exactly the SACK-permitted options from what a receiver sees, and nothing else. */
  lemma {:induction false} BlankedOptions(s: seq<byte>, signed: bool)
    ensures Without(Options(Blanked(s, signed), signed), 1) == Without(Without(Options(s, signed), 1), 4)
    decreases |s|
  {
    if s == [] || s[0] == 0 {
    } else if s[0] == 1 {
      BlankedOptions(s[1..], signed);
      var r := Blanked(s, signed);
      assert r[1..] == Blanked(s[1..], signed);
      NopSkipped(r, signed);
      NopSkipped(s, signed);
    } else if Sized(s, signed) {
      var len := Length(s[1], signed);
      var rest, o := Blanked(s[len..], signed), Opt(s[0], s[2..len]);
      BlankedOptions(s[len..], signed);
      assert Options(s, signed)[1..] == Options(s[len..], signed);
      WithoutOther(o, Options(s[len..], signed));
      if s[0] == TCP_OPT_SACKOK {
        NopsAddNothing(len, rest, signed);
      } else {
        assert s[..len][2..] == s[2..len];
        OptionKept(s[..len], rest, signed);
        WithoutOther(o, Options(rest, signed));
      }
    }
  }

  lemma NopSkipped(s: seq<byte>, signed: bool)
    requires s != [] && s[0] == 1
    ensures Without(Options(s, signed), 1) == Without(Options(s[1..], signed), 1)
  {
    assert Options(s, signed)[0] == Opt(1, []) && Options(s, signed)[1..] == Options(s[1..], signed);
  }

  lemma WithoutOther(o: Opt, os: seq<Opt>)
    requires o.kind != 1
    ensures Without([o] + os, 1) == [o] + Without(os, 1)
    ensures Without([o] + Without(os, 1), TCP_OPT_SACKOK)
         == (if o.kind == TCP_OPT_SACKOK then [] else [o]) + Without(Without(os, 1), TCP_OPT_SACKOK)
  {
    assert ([o] + os)[1..] == os && ([o] + Without(os, 1))[1..] == Without(os, 1);
  }

  ghost predicate HasSackOk(os: seq<Opt>) {
    exists o :: o in os && o.kind == 4
  }

  /** What the enumeration and the blanking do with the front of an area. */
  lemma FrontOption(s: seq<byte>, signed: bool)
    ensures s == [] || s[0] == 0 || (s[0] != 1 && !Sized(s, signed)) ==>
      Options(s, signed) == [] && Blanked(s, signed) == s
    ensures s != [] && s[0] == 1 ==>
      && Options(s, signed) == [Opt(1, [])] + Options(s[1..], signed)
      && Blanked(s, signed) == [s[0]] + Blanked(s[1..], signed)
    ensures s != [] && s[0] > 1 && Sized(s, signed) ==>
      var len := Length(s[1], signed);
      && Options(s, signed) == [Opt(s[0], s[2..len])] + Options(s[len..], signed)
      && Blanked(s, signed) == (if s[0] == TCP_OPT_SACKOK then Nops(len) else s[..len]) + Blanked(s[len..], signed)
  {}

  /** One call of netpkt_ip_opt_next at p: the type (0 at the end), where the data lies, and the new position. */
  method OptNext(opts: array<byte>, p: nat, signed: bool) returns (kind: byte, data: nat, len: int, next: nat)
    requires p <= opts.Length
    ensures 0 <= data <= data + len <= opts.Length && next <= opts.Length
    ensures var s := opts[p..];
      (kind == 0 ==> Options(s, signed) == [] && Blanked(s, signed) == s)
      && (kind != 0 ==>
            && p < next && kind == s[0]
            && Options(s, signed) == [Opt(kind, opts[data..data + len])] + Options(opts[next..], signed)
            && Blanked(s, signed) ==
                  (if kind == TCP_OPT_SACKOK then Nops(next - p) else opts[p..next]) + Blanked(opts[next..], signed))
      && (kind == TCP_OPT_SACKOK ==> data == p + 2 && next == p + 2 + len)
  {
    hide Options, Blanked, Nops;
    kind, data, len, next := 0, 0, 0, opts.Length;
    ghost var s := opts[p..];
    FrontOption(s, signed);
    if p >= opts.Length { return; }
    kind := opts[p];
    if kind == 0 { return; }
    if kind == 1 {
      next := p + 1;
      assert s[1..] == opts[next..] && [s[0]] == opts[p..next] && opts[0..0] == [];
      return;
    }
    if p + 1 >= opts.Length || Length(opts[p + 1], signed) < 2 || p + Length(opts[p + 1], signed) > opts.Length {
      kind := 0;
      return;
    }
    len := Length(opts[p + 1], signed);
    data, next := p + 2, p + len;
    assert s[len..] == opts[next..] && s[..len] == opts[p..next] && s[2..len] == opts[data..next];
    len := len - 2;
  }

  /** netpkt_tcp_remove_sack on the option area of a TCP segment. */
  method RemoveSack(opts: array<byte>, tcp_syn: bool, signed: bool) returns (ret: int)
    modifies opts
    ensures !tcp_syn ==> ret == 0 && opts[..] == old(opts[..])
    ensures tcp_syn ==> opts[..] == Blanked(old(opts[..]), signed)
    ensures tcp_syn ==> ret == if HasSackOk(Options(old(opts[..]), signed)) then 1 else 0
  {
    hide Options, Blanked, HasSackOk, Nops, Without;
    ret := 0;
    if !tcp_syn { return; }
    NothingSeen();
    ghost var area := opts[..];
    ghost var seen: seq<Opt> := [];
    var p := 0;
    assert opts[0..] == area;
    while true
      invariant 0 <= p <= opts.Length == |area| && opts[p..] == area[p..]
      invariant opts[..p] + Blanked(area[p..], signed) == Blanked(area, signed)
      invariant seen + Options(area[p..], signed) == Options(area, signed)
      invariant ret == if HasSackOk(seen) then 1 else 0
      decreases opts.Length - p
    {
      var kind, data, n, next := OptNext(opts, p, signed);
      if kind == 0 { break; }
      assert opts[p..][next - p..] == opts[next..] && area[p..][next - p..] == area[next..];
      ghost var head, rest, o := opts[..p], Blanked(area[next..], signed), Opt(kind, opts[data..data + n]);
      if kind == TCP_OPT_SACKOK {
        forall i | data - 2 <= i < data + n { opts[i] := 1; }
        ret := 1;
        assert opts[..next] == head + Nops(next - p);
      } else {
        assert opts[..next] == head + opts[p..next];
      }
      SeenOne(seen, o);
      Assoc(seen, [o], Options(area[next..], signed));
      Assoc(head, if kind == TCP_OPT_SACKOK then Nops(next - p) else opts[p..next], rest);
      seen := seen + [o];
      p := next;
    }
    assert opts[..p] + opts[p..] == opts[..];
    assert seen + [] == seen;
  }

  lemma NothingSeen()
    ensures !HasSackOk([])
  {}

  lemma SeenOne(seen: seq<Opt>, o: Opt)
    ensures HasSackOk(seen + [o]) <==> HasSackOk(seen) || o.kind == TCP_OPT_SACKOK
  {
    assert o in seen + [o];
    assert forall x :: x in seen ==> x in seen + [o];
  }
}
