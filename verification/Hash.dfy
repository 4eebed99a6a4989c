/** The chained hash table (hash.c) as a refinement of a finite map. */
module Hash {
  import opened Bytes
  import GrowArray

  const HASH_DEFAULT_BUCKETS := 17

  /** The hash and comparison functions a table is created with. */
  datatype Hashing<!K> = Hashing(hash: K -> nat, eq: (K, K) -> bool)

  /** All the code asks of them: an equivalence, and equal keys have equal hashes. */
  ghost predicate Lawful<K(!new)>(h: Hashing<K>) {
    && (forall a :: h.eq(a, a))
    && (forall a, b :: h.eq(a, b) ==> h.eq(b, a) && h.hash(a) == h.hash(b))
    && (forall a, b, c :: h.eq(a, b) && h.eq(b, c) ==> h.eq(a, c))
  }

  datatype Node<K, V> = Node(key: K, val: V, hash: nat)

  type Bucket<K, V> = seq<Node<K, V>>

  // ---------------------------------------------------------------------------------------------
  // The table as a value
  // ---------------------------------------------------------------------------------------------

  /** Every node is in bucket hash mod count and carries its key's hash. */
  ghost predicate Placed<K(!new), V(!new)>(h: Hashing<K>, b: seq<Bucket<K, V>>) {
    |b| > 0 && forall i, x :: 0 <= i < |b| && x in b[i] ==> x.hash == h.hash(x.key) && x.hash % |b| == i
  }

  ghost predicate Distinct<K, V>(h: Hashing<K>, bucket: Bucket<K, V>) {
    forall i, j :: 0 <= i < j < |bucket| ==> !h.eq(bucket[i].key, bucket[j].key)
  }

  function NodeCount<K, V>(b: seq<Bucket<K, V>>): nat {
    if b == [] then 0 else NodeCount(b[..|b| - 1]) + |b[|b| - 1]|
  }

  ghost predicate WellFormed<K(!new), V(!new)>(h: Hashing<K>, b: seq<Bucket<K, V>>) {
    Lawful(h) && Placed(h, b) && forall i :: 0 <= i < |b| ==> Distinct(h, b[i])
  }

  /** Index of the node hash_get returns in its bucket, searching from the end; |bucket| when there is none. */
  function Find<K, V>(h: Hashing<K>, bucket: Bucket<K, V>, key: K): (r: nat)
    ensures r <= |bucket|
    ensures r < |bucket| ==> bucket[r].hash == h.hash(key) && h.eq(key, bucket[r].key)
    ensures forall j :: 0 <= j < |bucket| && (r < j || r == |bucket|) ==>
      !(bucket[j].hash == h.hash(key) && h.eq(key, bucket[j].key))
  {
    if bucket == [] then 0
    else
      var n := |bucket| - 1;
      if bucket[n].hash == h.hash(key) && h.eq(key, bucket[n].key) then n
      else
        var r := Find(h, bucket[..n], key);
        if r == n then |bucket| else r
  }

  /** The map the table stands for; keys are told apart by the comparison function. */
  function Lookup<K, V>(h: Hashing<K>, b: seq<Bucket<K, V>>, key: K): Option<V>
    requires |b| > 0
  {
    var bucket := b[h.hash(key) % |b|];
    var r := Find(h, bucket, key);
    if r < |bucket| then Some(bucket[r].val) else None
  }

  ghost predicate Holds<K, V>(b: seq<Bucket<K, V>>, x: Node<K, V>) {
    |b| > 0 && x in b[x.hash % |b|]
  }

  /** In a well-formed table a key maps to a value exactly when some node with an equal key holds it. */
  lemma LookupIsHolds<K(!new), V(!new)>(h: Hashing<K>, b: seq<Bucket<K, V>>, x: Node<K, V>, key: K)
    requires WellFormed(h, b) && Holds(b, x) && h.eq(key, x.key)
    ensures Lookup(h, b, key) == Some(x.val)
  {
    var i := x.hash % |b|;
    assert x.hash == h.hash(x.key) == h.hash(key);
    var j :| 0 <= j < |b[i]| && b[i][j] == x;
    var r := Find(h, b[i], key);
    if r != j {
      assert r < |b[i]|;
      assert h.eq(b[i][r].key, key) && h.eq(b[i][r].key, x.key) && h.eq(x.key, b[i][r].key);
    }
  }

  lemma LookupFinds<K(!new), V(!new)>(h: Hashing<K>, b: seq<Bucket<K, V>>, key: K) returns (x: Node<K, V>)
    requires WellFormed(h, b) && Lookup(h, b, key).Some?
    ensures Holds(b, x) && h.eq(key, x.key) && Lookup(h, b, key) == Some(x.val)
  {
    var bucket := b[h.hash(key) % |b|];
    x := bucket[Find(h, bucket, key)];
  }

  /** Tables that hold the same nodes stand for the same map, however the nodes are spread. */
  lemma SameNodesSameMap<K(!new), V(!new)>(h: Hashing<K>, b: seq<Bucket<K, V>>, b': seq<Bucket<K, V>>, key: K)
    requires WellFormed(h, b) && WellFormed(h, b')
    requires forall x :: Holds(b, x) <==> Holds(b', x)
    ensures Lookup(h, b, key) == Lookup(h, b', key)
  {
    if Lookup(h, b, key).Some? {
      var x := LookupFinds(h, b, key);
      LookupIsHolds(h, b', x, key);
    } else if Lookup(h, b', key).Some? {
      var x := LookupFinds(h, b', key);
      LookupIsHolds(h, b, x, key);
    }
  }

  lemma {:induction false} CountUpdate<K, V>(b: seq<Bucket<K, V>>, i: nat, bucket: Bucket<K, V>)
    requires i < |b|
    ensures NodeCount(b[i := bucket]) == NodeCount(b) - |b[i]| + |bucket|
    decreases |b|
  {
    var n := |b| - 1;
    if i < n {
      CountUpdate(b[..n], i, bucket);
      assert b[i := bucket][..n] == b[..n][i := bucket];
    } else {
      assert b[i := bucket][..n] == b[..n];
    }
  }

  // ---------------------------------------------------------------------------------------------
  // Puts and removals on the value
  // ---------------------------------------------------------------------------------------------

  function Without<K, V>(b: seq<Bucket<K, V>>, i: nat, j: nat): (r: seq<Bucket<K, V>>)
    requires i < |b| && j < |b[i]|
    ensures |r| == |b|
  {
    b[i := b[i][..j] + b[i][j + 1..]]
  }

  function With<K, V>(b: seq<Bucket<K, V>>, x: Node<K, V>): (r: seq<Bucket<K, V>>)
    requires |b| > 0
    ensures |r| == |b|
  {
    var i := x.hash % |b|;
    b[i := b[i] + [x]]
  }

  lemma WithoutIsRemoval<K(!new), V(!new)>(h: Hashing<K>, b: seq<Bucket<K, V>>, i: nat, j: nat)
    requires WellFormed(h, b) && i < |b| && j < |b[i]|
    ensures var b', x := Without(b, i, j), b[i][j];
      && WellFormed(h, b') && NodeCount(b') == NodeCount(b) - 1
      && forall y :: Holds(b', y) <==> Holds(b, y) && y != x
  {
    var b', x := Without(b, i, j), b[i][j];
    CountUpdate(b, i, b'[i]);
    assert x in b[i];
    forall y ensures Holds(b', y) <==> Holds(b, y) && y != x {
      if y.hash % |b| == i {
        if y in b[i] && y != x {
          var k :| 0 <= k < |b[i]| && b[i][k] == y;
          assert b'[i][if k < j then k else k - 1] == y;
        }
      }
    }
    forall k, y | 0 <= k < |b'| && y in b'[k] ensures y in b[k] {}
  }

  lemma WithIsInsertion<K(!new), V(!new)>(h: Hashing<K>, b: seq<Bucket<K, V>>, x: Node<K, V>)
    requires WellFormed(h, b) && x.hash == h.hash(x.key) && Lookup(h, b, x.key) == None
    ensures var b' := With(b, x);
      && WellFormed(h, b') && NodeCount(b') == NodeCount(b) + 1
      && forall y :: Holds(b', y) <==> Holds(b, y) || y == x
  {
    var b', i := With(b, x), x.hash % |b|;
    CountUpdate(b, i, b'[i]);
    assert Distinct(h, b'[i]);
    assert b'[i][|b[i]|] == x;
  }

  // ---------------------------------------------------------------------------------------------
  // Traversal order
  // ---------------------------------------------------------------------------------------------

  /** Buckets in order, each from its last node to its first. */
  function VisitOrder<K, V>(b: seq<Bucket<K, V>>): seq<Node<K, V>> {
    if b == [] then [] else VisitOrder(b[..|b| - 1]) + Reversed(b[|b| - 1])
  }

  lemma {:induction false} ReversedElements<T>(s: seq<T>)
    ensures multiset(Reversed(s)) == multiset(s)
  {
    if s != [] {
      ReversedElements(s[1..]);
      assert s == [s[0]] + s[1..];
    }
  }

  lemma {:induction false} DistinctOnce<K, V>(h: Hashing<K>, bucket: Bucket<K, V>, x: Node<K, V>)
    requires Distinct(h, bucket) && forall a :: a in bucket ==> h.eq(a.key, a.key)
    ensures multiset(bucket)[x] == if x in bucket then 1 else 0
  {
    if bucket != [] {
      DistinctOnce(h, bucket[1..], x);
      assert bucket == [bucket[0]] + bucket[1..];
      assert bucket[0] == x ==> forall k :: 1 <= k < |bucket| ==> bucket[k] != x;
    }
  }

  /** The traversal meets every node of the table exactly once and nothing else. */
  lemma VisitsOnce<K(!new), V(!new)>(h: Hashing<K>, b: seq<Bucket<K, V>>, x: Node<K, V>)
    requires WellFormed(h, b)
    ensures multiset(VisitOrder(b))[x] == if Holds(b, x) then 1 else 0
  {
    VisitsOnceUpTo(h, b, |b|, x);
    assert b[..|b|] == b;
  }

  lemma BucketOnce<K(!new), V(!new)>(h: Hashing<K>, b: seq<Bucket<K, V>>, i: nat, x: Node<K, V>)
    requires WellFormed(h, b) && i < |b|
    ensures multiset(Reversed(b[i]))[x] == if Holds(b, x) && x.hash % |b| == i then 1 else 0
  {
    hide Reversed;
    ReversedElements(b[i]);
    DistinctOnce(h, b[i], x);
  }

  lemma VisitOrderSplits<K, V>(b: seq<Bucket<K, V>>, n: nat)
    requires 0 < n <= |b|
    ensures VisitOrder(b[..n]) == VisitOrder(b[..n - 1]) + Reversed(b[n - 1])
  {
    assert b[..n][..n - 1] == b[..n - 1];
  }

  lemma {:induction false} VisitsOnceUpTo<K(!new), V(!new)>(h: Hashing<K>, b: seq<Bucket<K, V>>, n: nat, x: Node<K, V>)
    requires WellFormed(h, b) && n <= |b|
    ensures multiset(VisitOrder(b[..n]))[x] == if Holds(b, x) && x.hash % |b| < n then 1 else 0
    decreases n
  {
    assert |b| > 0;
    hide WellFormed, Reversed, Holds;
    if n > 0 {
      VisitsOnceUpTo(h, b, n - 1, x);
      BucketOnce(h, b, n - 1, x);
      VisitOrderSplits(b, n);
      hide VisitOrder;
    }
  }

  /** A callback decides from the nodes met so far whether to free the last of them and what to return. */
  type Callback<!K, !V> = seq<Node<K, V>> -> (bool, int)

  ghost function Freed<K, V>(cb: Callback<K, V>, visited: seq<Node<K, V>>): set<Node<K, V>> {
    if visited == [] then {}
    else Freed(cb, visited[..|visited| - 1]) + if cb(visited).0 then {visited[|visited| - 1]} else {}
  }

  /** Some node of the set has this key. */
  ghost predicate FreesKey<K, V>(h: Hashing<K>, gone: set<Node<K, V>>, key: K) {
    exists y :: y in gone && h.eq(key, y.key)
  }

  /** A traversal frees only nodes of the table. */
  lemma FreedHeld<K(!new), V(!new)>(h: Hashing<K>, b: seq<Bucket<K, V>>, cb: Callback<K, V>, visited: seq<Node<K, V>>)
    requires WellFormed(h, b) && visited <= VisitOrder(b)
    ensures forall y :: y in Freed(cb, visited) ==> Holds(b, y)
  {
    hide VisitOrder, WellFormed, Holds;
    forall y | y in Freed(cb, visited) ensures Holds(b, y) {
      FreedVisited(cb, visited, y);
      VisitsOnce(h, b, y);
      assert multiset(VisitOrder(b))[y] > 0;
    }
  }

  lemma {:induction false} FreedVisited<K, V>(cb: Callback<K, V>, visited: seq<Node<K, V>>, y: Node<K, V>)
    requires y in Freed(cb, visited)
    ensures y in visited
    decreases |visited|
  {
    var n := |visited| - 1;
    if y != visited[n] { FreedVisited(cb, visited[..n], y); }
  }

  /** Removing a set of nodes removes exactly their keys from the map. */
  lemma MapWithout<K(!new), V(!new)>(h: Hashing<K>, b: seq<Bucket<K, V>>, b': seq<Bucket<K, V>>,
                                     gone: set<Node<K, V>>, key: K)
    requires WellFormed(h, b) && WellFormed(h, b')
    requires forall y :: Holds(b', y) <==> Holds(b, y) && y !in gone
    requires forall y :: y in gone ==> Holds(b, y)
    ensures Lookup(h, b', key) == if FreesKey(h, gone, key) then None else Lookup(h, b, key)
  {
    if Lookup(h, b', key).Some? {
      var x := LookupFinds(h, b', key);
      LookupIsHolds(h, b, x, key);
      if y :| y in gone && h.eq(key, y.key) {
        assert h.eq(y.key, key) && h.eq(y.key, x.key);
        LookupIsHolds(h, b, y, key);
        SameKeySameNode(h, b, x, y);
      }
    } else if Lookup(h, b, key).Some? {
      var x := LookupFinds(h, b, key);
      if x !in gone { LookupIsHolds(h, b', x, key); }
    }
  }

  lemma SameKeySameNode<K(!new), V(!new)>(h: Hashing<K>, b: seq<Bucket<K, V>>, x: Node<K, V>, y: Node<K, V>)
    requires WellFormed(h, b) && Holds(b, x) && Holds(b, y) && h.eq(y.key, x.key)
    ensures x == y
  {
    var i := x.hash % |b|;
    assert x.hash == h.hash(x.key) == h.hash(y.key) == y.hash;
    var j :| 0 <= j < |b[i]| && b[i][j] == x;
    var k :| 0 <= k < |b[i]| && b[i][k] == y;
  }

  // ---------------------------------------------------------------------------------------------
  // Sizes
  // ---------------------------------------------------------------------------------------------

  /** What growth depends on: bucket and node counts, puts so far, nodes copied by all resizes so far. */
  datatype Size = Size(buckets: nat, nodes: nat, puts: nat, copied: nat)

  /** What a 32-bit int keeps of a number. */
  function Int32(i: int): (r: int)
    ensures -0x8000_0000 <= i < 0x8000_0000 ==> r == i
  {
    var d := i % 0x1_0000_0000;
    if d >= 0x8000_0000 then d - 0x1_0000_0000 else d
  }

  function FirstPow2Above(i: int, b: int): (r: int)
    requires i > 0
    ensures r > b && r >= i
    decreases b - i
  {
    if i > b then i else FirstPow2Above(2 * i, b)
  }

  /** hash_resize_next: one more than the next power of two, or than the count itself once doubling overflows. */
  function NextBuckets(b: int): (r: int)
    ensures r > b && r > 0
  {
    if b >= 0x4000_0000 then b + 1 else FirstPow2Above(1, b) + 1
  }

  function PutSize(s: Size, hit: bool): Size {
    var n := if hit && s.nodes > 0 then s.nodes - 1 else s.nodes;
    if n > Int32(3 * s.buckets) then Size(NextBuckets(s.buckets), n + 1, s.puts + 1, s.copied + n)
    else Size(s.buckets, n + 1, s.puts + 1, s.copied)
  }

  function RemoveSize(s: Size, hit: bool): Size {
    if hit && s.nodes > 0 then s.(nodes := s.nodes - 1) else s
  }

  function Pow2(k: nat): nat {
    if k == 0 then 1 else 2 * Pow2(k - 1)
  }

  datatype SizeStep = PutStep(hit: bool) | RemoveStep(hit: bool)

  function SizeRun(s: Size, steps: seq<SizeStep>): Size
    decreases |steps|
  {
    if steps == [] then s else SizeRun(Stepped(s, steps[0]), steps[1..])
  }

  /** k doublings after 17 buckets; the copies are those of the k - 4 resizes. */
  ghost predicate SizeInv(s: Size, k: nat) {
    && k >= 4 && s.buckets == Pow2(k) + 1
    && s.nodes <= 3 * s.buckets + 1 && s.nodes <= s.puts
    && s.copied == 3 * (Pow2(k) - 16) + 4 * (k - 4)
    && (k > 4 ==> 2 * s.puts >= 3 * Pow2(k) + 10)
  }

  lemma {:induction false} Pow2Facts(k: nat)
    requires k >= 4
    ensures Pow2(k) >= 16 && Pow2(k) >= 3 * k
  {
    if k > 4 { Pow2Facts(k - 1); } else { assert Pow2(4) == 2 * Pow2(3) == 4 * Pow2(2) == 8 * Pow2(1) == 16; }
  }

  lemma {:induction false} NextOfPow2(k: nat, i: nat)
    requires i <= k && k >= 1
    ensures Pow2(i) > 0 && FirstPow2Above(Pow2(i), Pow2(k) + 1) == Pow2(k + 1)
    decreases k - i
  {
    Pow2Monotone(i, k);
    if i < k { NextOfPow2(k, i + 1); }
  }

  lemma {:induction false} Pow2Monotone(i: nat, k: nat)
    requires i <= k
    ensures 1 <= Pow2(i) <= Pow2(k) && (k >= 1 ==> Pow2(k) >= 2)
    decreases k
  {
    if i < k { Pow2Monotone(i, k - 1); } else if k > 0 { Pow2Monotone(i - 1, k - 1); }
  }

  function Stepped(s: Size, step: SizeStep): Size {
    if step.PutStep? then PutSize(s, step.hit) else RemoveSize(s, step.hit)
  }

  /** One put or removal keeps the growth invariant, for as long as three times the bucket count fits an int. */
  lemma SizeStepKeeps(s: Size, k: nat, step: SizeStep) returns (k': nat)
    requires SizeInv(s, k) && (k <= 29 || step.RemoveStep?)
    ensures SizeInv(Stepped(s, step), k')
    ensures k' == k || (k' == k + 1 && step.PutStep?)
  {
    k' := k;
    if step.PutStep? {
      Pow2At30(k);
      hide Int32;
      var n := if step.hit && s.nodes > 0 then s.nodes - 1 else s.nodes;
      if n > 3 * s.buckets {
        k' := k + 1;
        NextOfPow2(k, 0);
        Pow2Facts(k);
      }
    }
  }

  /** A run from the default table. */
  function Grown(steps: seq<SizeStep>): Size {
    SizeRun(Size(HASH_DEFAULT_BUCKETS, 0, 0, 0), steps)
  }

  /** The largest default table for which three times the bucket count still fits an int. */
  const LAST_BUCKETS := 0x2000_0001

  /** No put finds a table of more than 2^29+1 buckets. */
  ghost predicate Fine(steps: seq<SizeStep>) {
    forall i :: 0 <= i < |steps| && steps[i].PutStep? ==> Grown(steps[..i]).buckets <= LAST_BUCKETS
  }

  /**
   * From the default table, after any puts and removals: the bucket count is a power of two plus one, the load stays at
   * most three nodes a bucket plus one, and all resizes together copied at most three nodes a put.
   */
  lemma GrowthIsAmortised(steps: seq<SizeStep>)
    requires Fine(steps)
    ensures var s := Grown(steps);
      && (exists k: nat :: s.buckets == Pow2(k) + 1)
      && s.nodes <= 3 * s.buckets + 1
      && s.copied <= 3 * s.puts
  {
    var k := GrowthInv(steps);
    Pow2Facts(k);
  }

  lemma {:induction false} GrowthInv(steps: seq<SizeStep>) returns (k: nat)
    requires Fine(steps)
    ensures SizeInv(Grown(steps), k) && k <= 30
    ensures Grown(steps).buckets <= LAST_BUCKETS <==> k <= 29
    decreases |steps|
  {
    var n := |steps| - 1;
    if steps == [] {
      k := 4;
      Pow2Facts(4);
      assert Pow2(4) == 2 * Pow2(3) == 4 * Pow2(2) == 8 * Pow2(1) == 16;
    } else {
      FineFront(steps);
      var k0 := GrowthInv(steps[..n]);
      GrownLast(steps);
      hide SizeRun, PutSize, RemoveSize, Grown;
      k := SizeStepKeeps(Grown(steps[..n]), k0, steps[n]);
      Pow2At30(k);
      Pow2At30(29);
    }
  }

  lemma GrownLast(steps: seq<SizeStep>)
    requires steps != []
    ensures var n := |steps| - 1; Grown(steps) == Stepped(Grown(steps[..n]), steps[n])
  {
    SizeRunLast(Size(HASH_DEFAULT_BUCKETS, 0, 0, 0), steps);
  }

  lemma FineFront(steps: seq<SizeStep>)
    requires steps != []
    ensures var n := |steps| - 1;
      Fine(steps) <==> Fine(steps[..n]) && (steps[n].PutStep? ==> Grown(steps[..n]).buckets <= LAST_BUCKETS)
  {
    hide Grown;
    var n := |steps| - 1;
    assert forall i :: 0 <= i <= n ==> steps[..n][..i] == steps[..i];
  }

  ghost predicate PowerOfTwoPlusOne(buckets: nat) {
    exists k: nat :: buckets == Pow2(k) + 1
  }

  /** All along the run the bucket count is 2^k+1. */
  ghost predicate GrowsInPowers(steps: seq<SizeStep>) {
    forall n :: 0 <= n <= |steps| ==> PowerOfTwoPlusOne(Grown(steps[..n]).buckets)
  }

  /** A run keeps to 2^k+1 buckets if and only if no put finds more than 2^29+1 of them. */
  lemma {:induction false} GrowthExactly(steps: seq<SizeStep>)
    ensures GrowsInPowers(steps) <==> Fine(steps)
    decreases |steps|
  {
    hide Grown, Stepped, SizeInv;
    if steps == [] {
      assert forall n :: 0 <= n <= |steps| ==> steps[..n] == steps;
      LastPower(steps);
    } else {
      GrowthExactly(steps[..|steps| - 1]);
      FineFront(steps);
      PowersFront(steps);
      if Fine(steps[..|steps| - 1]) { LastPower(steps); }
    }
  }

  lemma PowersFront(steps: seq<SizeStep>)
    requires steps != []
    ensures GrowsInPowers(steps) <==>
      GrowsInPowers(steps[..|steps| - 1]) && PowerOfTwoPlusOne(Grown(steps).buckets)
  {
    hide Grown, PowerOfTwoPlusOne;
    var n := |steps| - 1;
    assert steps[..|steps|] == steps;
    assert forall i :: 0 <= i <= n ==> steps[..n][..i] == steps[..i];
  }

  /** The last step of a run that was fine before it. */
  lemma LastPower(steps: seq<SizeStep>)
    requires steps != [] ==> Fine(steps[..|steps| - 1])
    ensures PowerOfTwoPlusOne(Grown(steps).buckets) <==> Fine(steps)
  {
    if steps != [] { FineFront(steps); }
    if Fine(steps) {
      var k := GrowthInv(steps);
      assert Grown(steps).buckets == Pow2(k) + 1;
    } else {
      var n := |steps| - 1;
      var k := GrowthInv(steps[..n]);
      GrownLast(steps);
      hide Grown, SizeRun, PutSize;
      Pow2At30(30);
      EveryPutCopies(Grown(steps[..n]), steps[n].hit);
      NoPower();
    }
  }

  lemma NoPower()
    ensures NextBuckets(0x4000_0001) == 0x4000_0002 && forall k: nat :: 0x4000_0002 != Pow2(k) + 1
  {
    forall k: nat ensures 0x4000_0002 != Pow2(k) + 1 {
      if k <= 30 { Pow2At30(k); } else { Pow2At30(30); Pow2Monotone(31, k); }
    }
  }

  /** The fewest puts after which a table can exceed 2^29+1 buckets. */
  const ENOUGH_PUTS := 3 * LAST_BUCKETS + 2

  /** With so many puts or fewer every run is fine, whatever it removes. */
  lemma {:induction false} FewPutsAreFine(steps: seq<SizeStep>)
    requires Grown(steps).puts <= ENOUGH_PUTS
    ensures Fine(steps)
    decreases |steps|
  {
    if steps != [] {
      var n := |steps| - 1;
      GrownLast(steps);
      FewPutsAreFine(steps[..n]);
      var k := GrowthInv(steps[..n]);
      FineFront(steps);
      hide Grown, Fine;
      Pow2At30(30);
    }
  }

  lemma {:induction false} FreshPuts(n: nat)
    ensures Grown(seq(n, _ => PutStep(false))).nodes == n == Grown(seq(n, _ => PutStep(false))).puts
  {
    if n > 0 {
      FreshPuts(n - 1);
      GrownLast(seq(n, _ => PutStep(false)));
      assert seq(n, _ => PutStep(false))[..n - 1] == seq(n - 1, _ => PutStep(false));
    }
  }

  /** So many new keys, then any removals that may come, and the put of one more leaves 2^30+2 buckets. */
  lemma GrowthFails(removals: nat)
    ensures var run := seq(ENOUGH_PUTS, _ => PutStep(false)) + seq(removals, _ => RemoveStep(true));
      Fine(run) && Grown(run + [PutStep(false)]).buckets == 0x4000_0002
  {
    var run := seq(ENOUGH_PUTS, _ => PutStep(false)) + seq(removals, _ => RemoveStep(true));
    Removals(removals);
    FewPutsAreFine(run);
    GrownLast(run + [PutStep(false)]);
    assert (run + [PutStep(false)])[..|run|] == run;
    hide Grown;
    EveryPutCopies(Grown(run), false);
    NoPower();
  }

  lemma {:induction false} Removals(removals: nat)
    ensures var s := Grown(seq(ENOUGH_PUTS, _ => PutStep(false)) + seq(removals, _ => RemoveStep(true)));
      s.puts == ENOUGH_PUTS && s.buckets == 0x4000_0001
  {
    var puts := seq(ENOUGH_PUTS, _ => PutStep(false));
    if removals == 0 {
      assert puts + seq(0, _ => RemoveStep(true)) == puts;
      FreshPuts(ENOUGH_PUTS);
      FewPutsAreFine(puts);
      var k := GrowthInv(puts);
      hide Grown, Fine;
      Pow2At30(k);
    } else {
      Removals(removals - 1);
      var run := puts + seq(removals, _ => RemoveStep(true));
      GrownLast(run);
      assert run[..|run| - 1] == puts + seq(removals - 1, _ => RemoveStep(true));
    }
  }

  /**
   * Past 715827882 buckets the test of hash_put compares with an int that has overflowed: up to 0x5555_5555 buckets
   * every put resizes and copies the whole table, however few its nodes.
   */
  lemma EveryPutCopies(s: Size, hit: bool)
    requires 0x2aaa_aaab <= s.buckets <= 0x5555_5555
    ensures PutSize(s, hit).buckets == NextBuckets(s.buckets)
    ensures PutSize(s, hit).copied == s.copied + if hit && s.nodes > 0 then s.nodes - 1 else s.nodes
  {
    assert Int32(3 * s.buckets) == 3 * s.buckets - 0x1_0000_0000;
  }

  lemma {:induction false} SizeRunLast(s: Size, steps: seq<SizeStep>)
    requires steps != []
    ensures var n := |steps| - 1;
      var last := SizeRun(s, steps[..n]);
      SizeRun(s, steps) == Stepped(last, steps[n])
    decreases |steps|
  {
    if |steps| > 1 {
      SizeRunLast(Stepped(s, steps[0]), steps[1..]);
      assert steps[1..][..|steps| - 2] == steps[..|steps| - 1][1..];
    }
  }

  // ---------------------------------------------------------------------------------------------
  // The code
  // ---------------------------------------------------------------------------------------------

  /** A node pointer: its bucket and its index there. */
  datatype Pos = Pos(bucket: nat, index: nat)

  lemma Pow2At30(k: nat)
    requires k <= 30
    ensures Pow2(k) <= Pow2(30) == 0x4000_0000
    ensures k < 30 ==> Pow2(k) < 0x4000_0000 && Pow2(k + 1) == 2 * Pow2(k) <= 0x4000_0000
    ensures Pow2(0) == 1
  {
    assert Pow2(10) == 2 * Pow2(9) == 4 * Pow2(8) == 8 * Pow2(7) == 16 * Pow2(6) == 32 * Pow2(5) == 1024;
    assert Pow2(20) == 2 * Pow2(19) == 4 * Pow2(18) == 8 * Pow2(17) == 16 * Pow2(16) == 32 * Pow2(15);
    assert Pow2(15) == 2 * Pow2(14) == 4 * Pow2(13) == 8 * Pow2(12) == 16 * Pow2(11) == 32 * Pow2(10);
    assert Pow2(30) == 2 * Pow2(29) == 4 * Pow2(28) == 8 * Pow2(27) == 16 * Pow2(26) == 32 * Pow2(25);
    assert Pow2(25) == 2 * Pow2(24) == 4 * Pow2(23) == 8 * Pow2(22) == 16 * Pow2(21) == 32 * Pow2(20);
    Pow2Monotone(k, 30);
    if k < 30 { Pow2Monotone(k + 1, 30); }
  }

  lemma Doubled(i: int)
    ensures 0 <= i < 0x4000_0000 ==> Int32(2 * i) == 2 * i
    ensures i == 0x4000_0000 ==> Int32(2 * i) == -0x8000_0000
    ensures i == -0x8000_0000 ==> Int32(2 * i) == 0
  {}

  lemma DoublingStep(i: int, b: int)
    requires i > 0
    ensures FirstPow2Above(i, b) == if i > b then i else FirstPow2Above(2 * i, b)
  {}

  method ResizeNext(buckets: int) returns (r: int)
    requires -0x8000_0000 <= buckets < 0x7fff_ffff
    ensures r == NextBuckets(buckets)
  {
    var i := 1;
    ghost var k: nat := 0;
    Pow2At30(30);
    hide Pow2, FirstPow2Above, Int32;
    while i != 0 && i <= buckets
      invariant i == 0 || i == -0x8000_0000 || (k <= 30 && i == Pow2(k) > 0)
      invariant i > 0 && buckets < 0x4000_0000 ==> FirstPow2Above(i, buckets) == FirstPow2Above(1, buckets)
      invariant i <= 0 ==> buckets >= 0x4000_0000
      decreases if i > 0 then 0x8000_0000 - i else if i < 0 then 1 else 0
    {
      if i > 0 {
        Pow2At30(k);
        DoublingStep(i, buckets);
        k := k + 1;
      }
      Doubled(i);
      i := Int32(2 * i);
    }
    if k <= 30 { Pow2At30(k); }
    if i > 0 { DoublingStep(i, buckets); }
    if i == 0 { i := buckets; }
    return i + 1;
  }

  class Table<K(!new), V(!new)> {
    const h: Hashing<K>
    var m_bucket: array<Bucket<K, V>>
    var m_node_count: int
    ghost var puts: nat
    ghost var copied: nat

    ghost predicate Valid()
      reads this, m_bucket
    {
      WellFormed(h, m_bucket[..]) && m_node_count == NodeCount(m_bucket[..])
    }

    ghost function Get?(key: K): Option<V>
      requires Valid()
      reads this, m_bucket
    {
      Lookup(h, m_bucket[..], key)
    }

    ghost function Sizes(): Size
      requires Valid()
      reads this, m_bucket
    {
      Size(m_bucket.Length, m_node_count, puts, copied)
    }

    ghost predicate At(p: Pos)
      reads this, m_bucket
    {
      p.bucket < m_bucket.Length && p.index < |m_bucket[p.bucket]|
    }

    constructor (h: Hashing<K>, buckets: int)
      requires Lawful(h)
      ensures Valid() && fresh(m_bucket) && this.h == h
      ensures forall key :: Get?(key) == None
      ensures Sizes() == Size(if buckets <= 0 then 17 else buckets, 0, 0, 0)
    {
      this.h := h;
      m_bucket := new Bucket<K, V>[if buckets <= 0 then HASH_DEFAULT_BUCKETS else buckets](_ => []);
      m_node_count, puts, copied := 0, 0, 0;
      new;
      EmptyCount(m_bucket[..]);
    }

    /** hash_get. */
    method Get(key: K) returns (p: Option<Pos>)
      requires Valid()
      ensures p.Some? ==> At(p.value) && h.eq(key, m_bucket[p.value.bucket][p.value.index].key)
      ensures p.Some? ==> Get?(key) == Some(m_bucket[p.value.bucket][p.value.index].val)
      ensures p == None ==> Get?(key) == None
    {
      var hv := h.hash(key);
      var bucket := m_bucket[hv % m_bucket.Length];
      var i := |bucket| - 1;
      while i >= 0
        invariant -1 <= i < |bucket|
        invariant forall j :: i < j < |bucket| ==> !(bucket[j].hash == hv && h.eq(key, bucket[j].key))
      {
        if hv == bucket[i].hash {
          if h.eq(key, bucket[i].key) { return Some(Pos(hv % m_bucket.Length, i)); }
        }
        i := i - 1;
      }
      return None;
    }

    /** hash_free on a node pointer. */
    method Free(p: Pos)
      requires Valid() && At(p)
      modifies this`m_node_count, m_bucket
      ensures Valid() && m_bucket[..] == Without(old(m_bucket[..]), p.bucket, p.index)
      ensures m_node_count == old(m_node_count) - 1
      ensures forall y :: Holds(m_bucket[..], y) <==>
        Holds(old(m_bucket[..]), y) && y != old(m_bucket[p.bucket][p.index])
    {
      ghost var b := m_bucket[..];
      WithoutIsRemoval(h, b, p.bucket, p.index);
      assert m_bucket[p.bucket][p.index] in b[p.bucket];
      var i := m_bucket[p.bucket][p.index].hash % m_bucket.Length;
      m_bucket[i] := GrowArray.Removed(m_bucket[i], p.index, 1);
      assert m_bucket[..] == Without(b, p.bucket, p.index);
      m_node_count := m_node_count - 1;
    }

    /** hash_remove. */
    method Remove(key: K)
      requires Valid()
      modifies this`m_node_count, m_bucket
      ensures Valid() && forall k :: Get?(k) == if h.eq(key, k) then None else old(Get?(k))
      ensures Sizes() == RemoveSize(old(Sizes()), old(Get?(key)).Some?)
    {
      hide NodeCount, Find, Without;
      ghost var b := m_bucket[..];
      var p := Get(key);
      if p.Some? {
        ghost var x := m_bucket[p.value.bucket][p.value.index];
        CountPositive(b, p.value.bucket);
        assert Holds(b, x);
        hide WellFormed, Lookup;
        Free(p.value);
        forall k ensures Get?(k) == if h.eq(key, k) then None else Lookup(h, b, k) {
          RemovedKey(h, b, m_bucket[..], x, key, k);
        }
      } else {
        forall k | h.eq(key, k) ensures Lookup(h, b, k) == None { EqualKeys(h, b, key, k); }
      }
    }

    /** hash_resize: rehashes every node into a fresh table. */
    method Resize(buckets: nat)
      requires Valid() && buckets > 0
      modifies this`m_bucket, this`copied
      ensures Valid() && fresh(m_bucket) && m_bucket.Length == buckets
      ensures forall y :: Holds(m_bucket[..], y) <==> Holds(old(m_bucket[..]), y)
      ensures copied == old(copied) + m_node_count
    {
      var old_bucket := m_bucket;
      ghost var b := old_bucket[..];
      m_bucket := new Bucket<K, V>[buckets](_ => []);
      EmptyCount(m_bucket[..]);
      assert WellFormed(h, m_bucket[..]) && forall y :: Holds(m_bucket[..], y) <==> Moved(b, 0, [], y);
      hide WellFormed, Holds, Moved, Lookup;
      var i := 0;
      while i < old_bucket.Length
        invariant 0 <= i <= |b| && old_bucket[..] == b && fresh(m_bucket) && m_bucket.Length == buckets
        invariant WellFormed(h, m_bucket[..])
        invariant NodeCount(m_bucket[..]) == NodeCount(b[..i])
        invariant copied == old(copied) + NodeCount(b[..i])
        invariant forall y :: Holds(m_bucket[..], y) <==> Moved(b, i, [], y)
      {
        var j := |old_bucket[i]| - 1;
        while j >= 0
          invariant -1 <= j < |b[i]| && old_bucket[..] == b && fresh(m_bucket) && m_bucket.Length == buckets
          invariant WellFormed(h, m_bucket[..])
          invariant NodeCount(m_bucket[..]) == NodeCount(b[..i]) + |b[i]| - 1 - j
          invariant copied == old(copied) + NodeCount(b[..i]) + |b[i]| - 1 - j
          invariant forall y :: Holds(m_bucket[..], y) <==> Moved(b, i, b[i][j + 1..], y)
        {
          var x := old_bucket[i][j];
          ghost var nb := m_bucket[..];
          MoveKeeps(h, b, nb, i, j);
          m_bucket[x.hash % m_bucket.Length] := m_bucket[x.hash % m_bucket.Length] + [x];
          assert m_bucket[..] == With(nb, x);
          copied := copied + 1;
          j := j - 1;
        }
        assert b[i][0..] == b[i];
        assert b[..i + 1][..i] == b[..i];
        MovedNext(h, b, i);
        i := i + 1;
      }
      assert b[..|b|] == b;
    }

    /** The growth test of hash_put (hash.c:131-134). */
    method Grow()
      requires Valid() && m_bucket.Length < 0x7fff_ffff
      modifies this`m_bucket, this`copied
      ensures Valid() && (m_bucket == old(m_bucket) || fresh(m_bucket))
      ensures forall k :: Get?(k) == old(Get?(k))
      ensures if m_node_count > Int32(3 * old(m_bucket.Length))
        then m_bucket.Length == NextBuckets(old(m_bucket.Length)) && copied == old(copied) + m_node_count
        else m_bucket.Length == old(m_bucket.Length) && copied == old(copied)
    {
      ghost var b := m_bucket[..];
      if m_node_count > Int32(3 * m_bucket.Length) {
        var i := ResizeNext(m_bucket.Length);
        Resize(i);
        forall k ensures Get?(k) == Lookup(h, b, k) { SameNodesSameMap(h, b, m_bucket[..], k); }
      }
    }

    /** Appending a node for a key the table lacks (hash.c:136-157). */
    method Insert(key: K, val: V)
      requires Valid() && Get?(key) == None
      modifies this`m_node_count, this`puts, m_bucket
      ensures Valid() && m_node_count == old(m_node_count) + 1 && puts == old(puts) + 1
      ensures forall k :: Get?(k) == if h.eq(key, k) then Some(val) else old(Get?(k))
    {
      ghost var b := m_bucket[..];
      var hv := h.hash(key);
      var i := hv % m_bucket.Length;
      var x := Node(key, val, hv);
      WithIsInsertion(h, b, x);
      m_bucket[i] := m_bucket[i] + [x];
      assert m_bucket[..] == With(b, x);
      m_node_count := m_node_count + 1;
      puts := puts + 1;
      forall k ensures Get?(k) == if h.eq(key, k) then Some(val) else Lookup(h, b, k) {
        AddedKey(h, b, m_bucket[..], x, k);
      }
    }

    /** hash_put: replaces any node with an equal key, growing the table first when it is full. */
    method Put(key: K, val: V)
      requires Valid() && m_bucket.Length < 0x7fff_ffff && m_node_count < 0x7fff_ffff
      modifies this, m_bucket
      ensures Valid() && (m_bucket == old(m_bucket) || fresh(m_bucket))
      ensures forall k :: Get?(k) == if h.eq(key, k) then Some(val) else old(Get?(k))
      ensures Sizes() == PutSize(old(Sizes()), old(Get?(key)).Some?)
    {
      hide Lookup, NextBuckets;
      assert h.eq(key, key);
      hide WellFormed;
      Remove(key);
      Grow();
      Insert(key, val);
    }

    /** One bucket of hash_foreach, from its last node to its first. */
    method VisitBucket(cb: Callback<K, V>, i: nat, start: seq<Node<K, V>>, ghost b: seq<Bucket<K, V>>)
      returns (n: int, visited: seq<Node<K, V>>)
      requires Valid() && i < m_bucket.Length == |b| && m_bucket[i..] == b[i..]
      requires forall y :: Holds(m_bucket[..], y) <==> Holds(b, y) && y !in Freed(cb, start)
      requires forall k :: 0 < k <= |start| ==> cb(start[..k]).1 == 0
      modifies this`m_node_count, m_bucket
      ensures Valid() && m_bucket[i + 1..] == b[i + 1..]
      ensures visited <= start + Reversed(b[i])
      ensures if n == 0 then visited == start + Reversed(b[i]) else visited != [] && n == cb(visited).1
      ensures forall k :: 0 < k < |visited| || (k == |visited| > 0 && n == 0) ==> cb(visited[..k]).1 == 0
      ensures forall y :: Holds(m_bucket[..], y) <==> Holds(b, y) && y !in Freed(cb, visited)
    {
      hide Freed, Reversed, WellFormed, NodeCount, Without, Holds;
      visited := start;
      var j := |m_bucket[i]| - 1;
      ReversedEnd(b[i]);
      assert m_bucket[i] == b[i];
      assert start + [] == start;
      while j >= 0
        invariant Valid() && m_bucket.Length == |b|
        invariant -1 <= j < |b[i]| && visited == start + Reversed(b[i][j + 1..])
        invariant forall k :: 0 < k <= |visited| ==> cb(visited[..k]).1 == 0
        invariant j < |m_bucket[i]| && m_bucket[i][..j + 1] == b[i][..j + 1]
        invariant m_bucket[i + 1..] == b[i + 1..]
        invariant forall y :: Holds(m_bucket[..], y) <==> Holds(b, y) && y !in Freed(cb, visited)
      {
        var x := m_bucket[i][j];
        assert x == m_bucket[i][..j + 1][j];
        ghost var seen := visited;
        visited := visited + [x];
        VisitStep(b, i, j, start);
        FreedStep(cb, seen, x);
        var (free, r) := cb(visited);
        if free {
          ghost var m := m_bucket[..];
          Free(Pos(i, j));
          WithoutParts(m, m_bucket[..], i, j);
        }
        assert forall k :: 0 < k <= |seen| ==> visited[..k] == seen[..k];
        assert visited[..|visited|] == visited;
        if r != 0 {
          ReversedPrefix(b[i], j);
          return r, visited;
        }
        j := j - 1;
      }
      assert b[i][0..] == b[i];
      return 0, visited;
    }

    /** The loops of hash_foreach: the callback may free the node it is given; a nonzero result ends the traversal. */
    method Traverse(cb: Callback<K, V>) returns (n: int, visited: seq<Node<K, V>>)
      requires Valid()
      modifies this`m_node_count, m_bucket
      ensures Valid()
      ensures visited <= VisitOrder(old(m_bucket[..]))
      ensures if n == 0 then visited == VisitOrder(old(m_bucket[..])) else visited != [] && n == cb(visited).1
      ensures forall k :: 0 < k < |visited| ==> cb(visited[..k]).1 == 0
      ensures forall y :: Holds(m_bucket[..], y) <==> Holds(old(m_bucket[..]), y) && y !in Freed(cb, visited)
    {
      hide Freed, VisitOrder, Reversed, WellFormed, NodeCount, Holds;
      ghost var b := m_bucket[..];
      visited := [];
      NothingFreed(cb, b);
      var i := 0;
      while i < m_bucket.Length
        invariant Valid() && 0 <= i <= m_bucket.Length == |b|
        invariant visited == VisitOrder(b[..i])
        invariant forall k :: 0 < k <= |visited| ==> cb(visited[..k]).1 == 0
        invariant m_bucket[i..] == b[i..]
        invariant forall y :: Holds(m_bucket[..], y) <==> Holds(b, y) && y !in Freed(cb, visited)
      {
        VisitOrderSplits(b, i + 1);
        VisitOrderGrows(b, i + 1);
        n, visited := VisitBucket(cb, i, visited, b);
        if n != 0 { return n, visited; }
        i := i + 1;
      }
      assert b[..|b|] == b;
      return 0, visited;
    }

    /** hash_foreach; the map it leaves is the old one without exactly the keys of the nodes freed. */
    method Foreach(cb: Callback<K, V>) returns (n: int, visited: seq<Node<K, V>>)
      requires Valid()
      modifies this`m_node_count, m_bucket
      ensures Valid()
      ensures visited <= VisitOrder(old(m_bucket[..]))
      ensures if n == 0 then visited == VisitOrder(old(m_bucket[..])) else visited != [] && n == cb(visited).1
      ensures forall k :: 0 < k < |visited| ==> cb(visited[..k]).1 == 0
      ensures forall y :: Holds(m_bucket[..], y) <==> Holds(old(m_bucket[..]), y) && y !in Freed(cb, visited)
      ensures forall key :: Get?(key) == if FreesKey(h, Freed(cb, visited), key) then None else old(Get?(key))
    {
      hide Freed, VisitOrder, WellFormed, NodeCount, Holds, Lookup, FreesKey;
      ghost var b := m_bucket[..];
      n, visited := Traverse(cb);
      FreedHeld(h, b, cb, visited);
      forall key ensures Get?(key) == if FreesKey(h, Freed(cb, visited), key) then None else old(Get?(key)) {
        MapWithout(h, b, m_bucket[..], Freed(cb, visited), key);
      }
    }
  }

  lemma {:induction false} EmptyCount<K, V>(b: seq<Bucket<K, V>>)
    requires forall i :: 0 <= i < |b| ==> b[i] == []
    ensures NodeCount(b) == 0
  {
    if b != [] { EmptyCount(b[..|b| - 1]); }
  }

  lemma {:induction false} CountPositive<K, V>(b: seq<Bucket<K, V>>, i: nat)
    requires i < |b| && b[i] != []
    ensures NodeCount(b) > 0
    decreases |b|
  {
    if i < |b| - 1 { CountPositive(b[..|b| - 1], i); }
  }

  lemma EqualKeys<K(!new), V(!new)>(h: Hashing<K>, b: seq<Bucket<K, V>>, key: K, k: K)
    requires WellFormed(h, b) && h.eq(key, k)
    ensures Lookup(h, b, k) == Lookup(h, b, key)
  {
    if Lookup(h, b, k).Some? {
      var x := LookupFinds(h, b, k);
      LookupIsHolds(h, b, x, key);
    } else if Lookup(h, b, key).Some? {
      var x := LookupFinds(h, b, key);
      assert h.eq(k, key);
      LookupIsHolds(h, b, x, k);
    }
  }

  lemma RemovedKey<K(!new), V(!new)>(h: Hashing<K>, b: seq<Bucket<K, V>>, b': seq<Bucket<K, V>>,
                                     x: Node<K, V>, key: K, k: K)
    requires WellFormed(h, b) && WellFormed(h, b') && Holds(b, x) && h.eq(key, x.key)
    requires forall y :: Holds(b', y) <==> Holds(b, y) && y != x
    ensures Lookup(h, b', k) == if h.eq(key, k) then None else Lookup(h, b, k)
  {
    MapWithout(h, b, b', {x}, k);
    assert h.eq(key, k) <==> h.eq(k, x.key) by {
      if h.eq(key, k) { assert h.eq(k, key); }
      if h.eq(k, x.key) { assert h.eq(x.key, k); }
    }
  }

  lemma AddedKey<K(!new), V(!new)>(h: Hashing<K>, b: seq<Bucket<K, V>>, b': seq<Bucket<K, V>>, x: Node<K, V>, k: K)
    requires WellFormed(h, b) && WellFormed(h, b')
    requires forall y :: Holds(b', y) <==> Holds(b, y) || y == x
    ensures Lookup(h, b', k) == if h.eq(x.key, k) then Some(x.val) else Lookup(h, b, k)
  {
    if h.eq(x.key, k) {
      LookupIsHolds(h, b', x, k);
    } else if Lookup(h, b, k).Some? {
      var y := LookupFinds(h, b, k);
      LookupIsHolds(h, b', y, k);
    } else if Lookup(h, b', k).Some? {
      var y := LookupFinds(h, b', k);
      LookupIsHolds(h, b, y, k);
    }
  }

  /** Nodes already rehashed: the first i buckets and the given rest of bucket i. */
  ghost predicate Moved<K, V>(b: seq<Bucket<K, V>>, i: nat, rest: Bucket<K, V>, y: Node<K, V>) {
    (Holds(b, y) && y.hash % |b| < i) || y in rest
  }

  lemma MovedStep<K(!new), V(!new)>(b: seq<Bucket<K, V>>, i: nat, j: nat)
    requires i < |b| && j < |b[i]|
    ensures forall y :: Moved(b, i, b[i][j..], y) <==> Moved(b, i, b[i][j + 1..], y) || y == b[i][j]
  {
    assert b[i][j..] == [b[i][j]] + b[i][j + 1..];
  }

  lemma MovedNext<K(!new), V(!new)>(h: Hashing<K>, b: seq<Bucket<K, V>>, i: nat)
    requires WellFormed(h, b) && i < |b|
    ensures forall y :: Moved(b, i, b[i], y) <==> Moved(b, i + 1, [], y)
  {}

  lemma NotYetMoved<K(!new), V(!new)>(h: Hashing<K>, b: seq<Bucket<K, V>>, nb: seq<Bucket<K, V>>, i: nat, j: nat)
    requires WellFormed(h, b) && WellFormed(h, nb) && i < |b| && j < |b[i]|
    requires forall y :: Holds(nb, y) <==> Moved(b, i, b[i][j + 1..], y)
    ensures b[i][j].hash == h.hash(b[i][j].key) && Lookup(h, nb, b[i][j].key) == None
  {
    var x := b[i][j];
    assert x in b[i];
    if Lookup(h, nb, x.key).Some? {
      var y := LookupFinds(h, nb, x.key);
    }
  }

  /** One turn of the inner loop of hash_resize. */
  lemma MoveKeeps<K(!new), V(!new)>(h: Hashing<K>, b: seq<Bucket<K, V>>, nb: seq<Bucket<K, V>>, i: nat, j: nat)
    requires WellFormed(h, b) && WellFormed(h, nb) && i < |b| && j < |b[i]|
    requires forall y :: Holds(nb, y) <==> Moved(b, i, b[i][j + 1..], y)
    ensures var nb' := With(nb, b[i][j]);
      && WellFormed(h, nb') && NodeCount(nb') == NodeCount(nb) + 1
      && forall y :: Holds(nb', y) <==> Moved(b, i, b[i][j..], y)
  {
    hide NodeCount, Holds, Moved;
    NotYetMoved(h, b, nb, i, j);
    WithIsInsertion(h, nb, b[i][j]);
    MovedStep(b, i, j);
  }

  lemma NothingFreed<K, V>(cb: Callback<K, V>, b: seq<Bucket<K, V>>)
    ensures Freed(cb, []) == {} && VisitOrder(b[..0]) == []
  {}

  lemma FreedStep<K, V>(cb: Callback<K, V>, seen: seq<Node<K, V>>, x: Node<K, V>)
    ensures Freed(cb, seen + [x]) == Freed(cb, seen) + if cb(seen + [x]).0 then {x} else {}
  {
    assert (seen + [x])[..|seen|] == seen;
  }

  lemma ReversedEnd<K, V>(bucket: Bucket<K, V>)
    ensures Reversed(bucket[|bucket|..]) == []
  {}

  lemma VisitStep<K, V>(b: seq<Bucket<K, V>>, i: nat, j: nat, start: seq<Node<K, V>>)
    requires i < |b| && j < |b[i]|
    ensures start + Reversed(b[i][j..]) == start + Reversed(b[i][j + 1..]) + [b[i][j]]
  {
    assert b[i][j..][1..] == b[i][j + 1..];
  }

  lemma {:induction false} ReversedPrefix<T>(s: seq<T>, j: nat)
    requires j <= |s|
    ensures Reversed(s[j..]) <= Reversed(s)
    decreases j
  {
    if j == 0 { assert s[0..] == s; } else {
      ReversedPrefix(s, j - 1);
      assert s[j - 1..][1..] == s[j..];
    }
  }

  lemma {:induction false} VisitOrderGrows<K, V>(b: seq<Bucket<K, V>>, n: nat)
    requires n <= |b|
    ensures VisitOrder(b[..n]) <= VisitOrder(b)
    decreases |b| - n
  {
    if n < |b| {
      VisitOrderSplits(b, n + 1);
      VisitOrderGrows(b, n + 1);
    } else {
      assert b[..n] == b;
    }
  }

  lemma WithoutParts<K, V>(m: seq<Bucket<K, V>>, m': seq<Bucket<K, V>>, i: nat, j: nat)
    requires i < |m| && j < |m[i]| && m' == Without(m, i, j)
    ensures |m'| == |m| && |m'[i]| == |m[i]| - 1 && m'[i][..j] == m[i][..j] && m'[i + 1..] == m[i + 1..]
  {}
}
