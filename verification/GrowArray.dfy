/** Growable arrays (array.c, array_inline.c). */
module GrowArray {
  import opened Bytes

  const ARRAY_DEFAULT_BLOCKSZ := 10

  /** array_get: negative indices count from the end, anything out of range is null. */
  function At<T>(s: seq<T>, i: int): Option<T> {
    var j := if i < 0 then |s| + i else i;
    if 0 <= j < |s| then Some(s[j]) else None
  }

  /** Index 0 is the first element and -1 the last, and there are no others than these. */
  lemma AtCounts<T>(a: seq<T>, x: T, b: seq<T>, i: int)
    ensures At(a + [x] + b, |a|) == Some(x) == At(a + [x] + b, -1 - |b|)
    ensures At(a, i) == None <==> i >= |a| || i < -|a|
  {}

  /**
   * The indices array_remove_idx can be called with. array_get adds the count to a negative index a second time, so
   * that between -2 and -1 times the count it finds an element, from which the code moves memory behind the end.
   */
  predicate Removable<T>(s: seq<T>, i: int) {
    -|s| <= i || i < -2 * |s|
  }

  /** What array_remove_idx leaves. */
  function Removed<T>(s: seq<T>, i: int, len: int): seq<T>
    requires Removable(s, i)
  {
    var j := if i < 0 then i + |s| else i;
    if j < 0 || j >= |s| then s
    else Cut(s, j, if len <= 0 || j + len > |s| then |s| - j else len)
  }

  /** The index array_remove_idx hands to array_get is right, or finds nothing, exactly for these. */
  lemma RemovableExactly<T>(s: seq<T>, i: int)
    ensures Removable(s, i) <==> i >= -|s| || At(s, i + |s|) == None
  {}

  /** Index -2 of a single element is out of range, but array_remove_idx finds the element there. */
  lemma FindsOutOfRange<T>(x: T)
    ensures At([x], -2) == None && !Removable([x], -2) && At([x], -2 + |[x]|) == Some(x)
  {}

  /** What is removed: the run in the middle, or all from its first element on when len is not positive or too long. */
  lemma RemovedIs<T>(a: seq<T>, run: seq<T>, b: seq<T>, len: int)
    requires run != []
    ensures var s, i := a + run + b, |a|;
      && Removed(s, i, |run|) == Removed(s, i - |s|, |run|) == a + b
      && (len <= 0 || len > |run + b| ==> Removed(s, i, len) == Removed(s, i - |s|, len) == a)
  {}

  /** Moving the elements behind a run down over it. */
  lemma MovedDown<T>(before: seq<T>, after: seq<T>, j: nat, n: nat)
    requires j + n <= |before| <= |after| && after[..j] == before[..j]
    requires forall k :: j <= k < |before| - n ==> after[k] == before[k + n]
    ensures after[..|before| - n] == Cut(before, j, n)
  {}

  class Array<T(0,==)> {
    var m_array: array<T>
    var m_count: nat
    const m_blocksz: nat
    const zero: T

    ghost predicate Valid()
      reads this
    {
      m_count <= m_array.Length
    }

    ghost function Contents(): seq<T>
      requires Valid()
      reads this, m_array
    {
      m_array[..m_count]
    }

    constructor (blocksz: int, zero: T)
      ensures Valid() && Contents() == [] && fresh(m_array) && m_array.Length == 0 && this.zero == zero
      ensures m_blocksz == if blocksz <= 0 then 10 else blocksz
    {
      m_array := new T[0];
      m_count := 0;
      m_blocksz := if blocksz <= 0 then ARRAY_DEFAULT_BLOCKSZ else blocksz;
      this.zero := zero;
    }

    method Get(i: int) returns (r: Option<T>)
      requires Valid()
      ensures r == At(Contents(), i)
    {
      var j := if i < 0 then m_count + i else i;
      if j < 0 || j >= m_count { return None; }
      return Some(m_array[j]);
    }

    /** array_add: returns the index of the first new element; the elements kept do not move. */
    method Add(num: int) returns (first: Option<nat>)
      requires Valid()
      modifies this, m_array
      ensures Valid() && (m_array == old(m_array) || fresh(m_array))
      ensures Contents() == old(Contents()) + seq(if num < 0 then 0 else num, _ => zero)
      ensures first == if num > 0 then Some(old(m_count)) else None
      ensures m_array.Length == if old(m_count) + num <= old(m_array.Length) then old(m_array.Length)
                                else old(m_count) + if num > m_blocksz then num else m_blocksz
    {
      ghost var before := Contents();
      if !(m_count + num <= m_array.Length) {
        var max := m_count + if num > m_blocksz then num else m_blocksz;
        var bigger := new T[max](_ => zero);
        forall i | 0 <= i < m_count { bigger[i] := m_array[i]; }
        m_array := bigger;
      }
      assert Contents() == before;
      if num <= 0 { return None; }
      forall i | m_count <= i < m_count + num { m_array[i] := zero; }
      first := Some(m_count);
      m_count := m_count + num;
      assert Contents()[..|before|] == before;
      assert Contents() == before + seq(num, _ => zero);
    }

    method RemoveIdx(i: int, len: int)
      requires Valid() && Removable(Contents(), i)
      modifies this`m_count, m_array
      ensures Valid() && Contents() == Removed(old(Contents()), i, len)
    {
      var j := if i < 0 then i + m_count else i;
      var n := if len <= 0 || j + len > m_count then m_count - j else len;
      var p := Get(j);
      if p == None { return; }
      ghost var before := Contents();
      hide At, Removable, Cut;
      if j < m_count - 1 {
        forall k | j <= k < m_count - n { m_array[k] := m_array[k + n]; }
      }
      assert m_array[..][..j] == before[..j];
      MovedDown(before, m_array[..], j, n);
      m_count := m_count - n;
      assert m_array[..m_count] == m_array[..][..m_count];
    }
  }

  // ---------------------------------------------------------------------------------------------
  // array_bsearch
  // ---------------------------------------------------------------------------------------------

  /** The needle compares monotonically along the array: what sortedness means for one search. */
  ghost predicate Monotone<N, T>(s: seq<T>, cmp: (N, T) -> int, needle: N) {
    forall i, j :: 0 <= i <= j < |s| ==>
      (cmp(needle, s[i]) < 0 ==> cmp(needle, s[j]) < 0) && (cmp(needle, s[j]) > 0 ==> cmp(needle, s[i]) > 0)
  }

  /** The first element equal to the needle, else the last one smaller; -1 when there is neither. */
  method Bsearch<N, T>(s: seq<T>, cmp: (N, T) -> int, needle: N) returns (r: int)
    requires Monotone(s, cmp, needle)
    ensures -1 <= r < |s|
    ensures r == -1 <==> forall i :: 0 <= i < |s| ==> cmp(needle, s[i]) < 0
    ensures r >= 0 ==> cmp(needle, s[r]) >= 0
    ensures r >= 0 && cmp(needle, s[r]) == 0 ==> forall i :: 0 <= i < r ==> cmp(needle, s[i]) > 0
    ensures r >= 0 && cmp(needle, s[r]) > 0 ==> forall i :: r < i < |s| ==> cmp(needle, s[i]) < 0
  {
    var a, b := 0, |s| - 1;
    if b < 0 || cmp(needle, s[0]) < 0 { return -1; }
    while true
      invariant 0 <= a <= b < |s| && cmp(needle, s[a]) >= 0
      invariant b == |s| - 1 || cmp(needle, s[b]) < 0
      decreases b - a
    {
      var m := (a + b) / 2;
      if a >= b { break; }
      var i := cmp(needle, s[m]);
      if i == 0 {
        a := m;
        break;
      }
      if i < 0 {
        if b == m {
          a := b;
          break;
        }
        b := m;
      }
      if i > 0 {
        if a == m {
          if cmp(needle, s[b]) >= 0 { a := b; }
          break;
        }
        a := m;
      }
    }
    while a > 0 && cmp(needle, s[a - 1]) == 0
      invariant 0 <= a < |s| && cmp(needle, s[a]) >= 0
      invariant cmp(needle, s[a]) > 0 ==> forall i :: a < i < |s| ==> cmp(needle, s[i]) < 0
    {
      a := a - 1;
    }
    return a;
  }
}
