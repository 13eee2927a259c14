/**
 * The Saavedra-Barrera memory benchmark: `setup` threads a cyclic chain of
 * stride `s` through an int array, and `bench` follows that chain a given
 * number of times. The array entries are C `int`s, modelled here as
 * unbounded integers.
 */
module StrideBench {

  /** The position of the `k`-th element of a chain of stride `s`, that is `k * s`. */
  function Node(k: nat, s: int): int {
    if k == 0 then 0 else Node(k - 1, s) + s
  }

  /** `p` is one of the first `count` positions of the chain of stride `s`. */
  ghost predicate IsNode(p: int, s: int, count: int) {
    exists k: nat :: k < count && p == Node(k, s)
  }

  /**
   * The chain that setup builds: the entry at each of the first `count`
   * positions of stride `s` holds the next position, and the last one
   * holds 0, the first.
   */
  ghost predicate StrideChain(a: seq<int>, s: int, count: int) {
    forall k: nat :: k < count ==> 0 <= Node(k, s) < |a| && a[Node(k, s)] == Successor(k, s, count)
  }

  /** The position that follows the `k`-th in a cycle of `count` positions. */
  function Successor(k: nat, s: int, count: int): int {
    if k + 1 < count then Node(k + 1, s) else 0
  }

  /**
   * One hop, `cur = Index[cur]`. Reading outside the array is undefined
   * in C; Bench's precondition rules it out, so the value chosen for it
   * here (staying put) is never used.
   */
  function Step(a: seq<int>, cur: int): int {
    if 0 <= cur < |a| then a[cur] else cur
  }

  /** Where `m` hops from `start` lead. */
  function Hops(a: seq<int>, start: int, m: nat): int
    decreases m
  {
    if m == 0 then start else Step(a, Hops(a, start, m - 1))
  }

  /**
   * setup: builds the chain 0 -> s -> 2s -> ... -> 0 over the multiples of
   * `s` below `n` in `index`, which holds `nMax` entries, and returns how
   * many multiples there are, the least `count` with `count * s >= n`.
   * Every other entry is left as it was.
   */
  method Setup(nMax: int, index: array<int>, n: int, s: int) returns (count: int)
    requires n <= nMax <= index.Length
    requires 1 <= n && 1 <= s
    modifies index
    ensures 1 <= count && Node(count - 1, s) < n <= Node(count, s)
    ensures StrideChain(index[..], s, count)
    ensures KeptOutside(index[..], old(index[..]), s, count)
  {
    var numElems := 0;
    var cur := 0;
    var next := s;
    while next < n
      invariant 0 <= cur == Node(numElems, s) && next == cur + s && cur < n
      invariant ChainBuilt(index[..], s, numElems, cur)
      invariant KeptOutside(index[..], old(index[..]), s, numElems)
      decreases n - next
    {
      ghost var before := index[..];
      index[cur] := next;
      SetupStep(before, index[..], old(index[..]), s, numElems, cur);
      cur := next;
      numElems := numElems + 1;
      next := next + s;
    }
    assert cur < n;
    ghost var before := index[..];
    index[cur] := 0;
    count := numElems + 1;
    SetupClose(before, index[..], old(index[..]), s, numElems, cur);
  }

  /** The first `m` positions of the chain, all below `cur`, are linked one to the next. */
  ghost predicate ChainBuilt(a: seq<int>, s: int, m: nat, cur: int) {
    cur <= |a| && forall k: nat :: k < m ==> 0 <= Node(k, s) < cur && a[Node(k, s)] == Successor(k, s, m + 1)
  }

  /** `a` and `b` agree everywhere except on the first `m` positions of the chain. */
  ghost predicate KeptOutside(a: seq<int>, b: seq<int>, s: int, m: int) {
    |a| == |b| && forall p :: 0 <= p < |a| && !IsNode(p, s, m) ==> a[p] == b[p]
  }

  /** One round of setup's loop: linking position `cur` to the next one extends the chain. */
  lemma SetupStep(a: seq<int>, b: seq<int>, o: seq<int>, s: int, m: nat, cur: int)
    requires 0 <= cur == Node(m, s) && 1 <= s && cur + s < |a|
    requires ChainBuilt(a, s, m, cur) && KeptOutside(a, o, s, m)
    requires b == a[cur := cur + s]
    ensures ChainBuilt(b, s, m + 1, cur + s) && KeptOutside(b, o, s, m + 1)
  {
    forall p | 0 <= p < |b| && !IsNode(p, s, m + 1) ensures b[p] == o[p] {
      assert p != Node(m, s);
    }
  }

  /** The end of setup: linking the last position back to 0 closes the chain. */
  lemma SetupClose(a: seq<int>, b: seq<int>, o: seq<int>, s: int, m: nat, cur: int)
    requires 0 <= cur == Node(m, s) && cur < |a|
    requires ChainBuilt(a, s, m, cur) && KeptOutside(a, o, s, m)
    requires b == a[cur := 0]
    ensures StrideChain(b, s, m + 1) && KeptOutside(b, o, s, m + 1)
  {
    forall p | 0 <= p < |b| && !IsNode(p, s, m + 1) ensures b[p] == o[p] {
      assert p != Node(m, s);
    }
  }

  /**
   * bench: follows the chain from 0 for `n` hops, four hops per round and
   * then one at a time for the remainder, and returns where it ends. A
   * count `n` of zero or less makes no hop.
   */
  method Bench(n: int, index: array<int>) returns (cur: int)
    requires forall m: nat :: m < n ==> 0 <= Hops(index[..], 0, m) < index.Length
    ensures n <= 0 ==> cur == 0
    ensures n >= 0 ==> cur == Hops(index[..], 0, n)
  {
    cur := 0;
    var k := 0;
    while k + 4 <= n
      invariant 0 <= k && (k == 0 || k <= n) && cur == Hops(index[..], 0, k)
    {
      cur := index[cur];
      assert cur == Hops(index[..], 0, k + 1);
      cur := index[cur];
      assert cur == Hops(index[..], 0, k + 2);
      cur := index[cur];
      assert cur == Hops(index[..], 0, k + 3);
      cur := index[cur];
      k := k + 4;
    }
    if k < n {
      cur := index[cur];
      k := k + 1;
      while k < n
        invariant k <= n && cur == Hops(index[..], 0, k)
      {
        cur := index[cur];
        k := k + 1;
      }
    }
  }

  // ---------------------------------------------------------------------
  // The chain that setup builds
  // ---------------------------------------------------------------------

  /** `Node` is the product of the index and the stride. */
  lemma {:induction false} NodeIsProduct(k: nat, s: int)
    ensures Node(k, s) == k * s
  {
    if k > 0 {
      NodeIsProduct(k - 1, s);
    }
  }

  /** Positions further along a chain of positive stride are larger. */
  lemma {:induction false} NodeIncreasing(j: nat, k: nat, s: int)
    requires j < k && 1 <= s
    ensures Node(j, s) < Node(k, s)
    decreases k - j
  {
    if j + 1 < k {
      NodeIncreasing(j + 1, k, s);
    }
  }

  /** Hops compose: `p + q` hops are `p` hops followed by `q` more. */
  lemma {:induction false} HopsAdd(a: seq<int>, start: int, p: nat, q: nat)
    ensures Hops(a, start, p + q) == Hops(a, Hops(a, start, p), q)
    decreases q
  {
    if q > 0 {
      HopsAdd(a, start, p, q - 1);
    }
  }

  /** Within its first `count` hops from 0, the chain is at the `m`-th position. */
  lemma {:induction false} ChainWalk(a: seq<int>, s: int, count: int, m: nat)
    requires StrideChain(a, s, count) && m < count
    ensures Hops(a, 0, m) == Node(m, s)
    decreases m
  {
    if m > 0 {
      ChainWalk(a, s, count, m - 1);
    }
  }

  /** The walk from 0 is back at 0 after exactly `count` hops. */
  lemma ChainCycle(a: seq<int>, s: int, count: int)
    requires StrideChain(a, s, count) && 1 <= count
    ensures Hops(a, 0, count) == 0
  {
    ChainWalk(a, s, count, count - 1);
  }

  /** Within one cycle the walk never visits a position twice. */
  lemma ChainVisitsOnce(a: seq<int>, s: int, count: int, m1: nat, m2: nat)
    requires StrideChain(a, s, count) && 1 <= s && m1 < m2 < count
    ensures Hops(a, 0, m1) != Hops(a, 0, m2)
  {
    ChainWalk(a, s, count, m1);
    ChainWalk(a, s, count, m2);
    NodeIncreasing(m1, m2, s);
  }

  /** After a full cycle the walk repeats itself. */
  lemma ChainPeriodic(a: seq<int>, s: int, count: int, m: nat)
    requires StrideChain(a, s, count) && 1 <= count
    ensures Hops(a, 0, count + m) == Hops(a, 0, m)
  {
    ChainCycle(a, s, count);
    HopsAdd(a, 0, count, m);
  }

  /** However many hops are taken from 0, the walk stays on the chain. */
  lemma {:induction false} ChainStaysOn(a: seq<int>, s: int, count: int, m: nat)
    requires StrideChain(a, s, count) && 1 <= count
    ensures IsNode(Hops(a, 0, m), s, count)
    decreases m
  {
    if m == 0 {
      assert Node(0, s) == 0;
    } else {
      ChainStaysOn(a, s, count, m - 1);
      var k: nat :| k < count && Hops(a, 0, m - 1) == Node(k, s);
      if k + 1 < count {
        assert Hops(a, 0, m) == Node(k + 1, s);
      } else {
        assert Hops(a, 0, m) == Node(0, s);
      }
    }
  }

  /**
   * The chain setup builds meets bench's precondition for any number of
   * hops: every read stays inside the array.
   */
  lemma SetupReadyForBench(a: seq<int>, s: int, count: int, n: int)
    requires StrideChain(a, s, count) && 1 <= count
    ensures forall m: nat :: m < n ==> 0 <= Hops(a, 0, m) < |a|
  {
    forall m: nat | m < n ensures 0 <= Hops(a, 0, m) < |a| {
      ChainStaysOn(a, s, count, m);
    }
  }

  /** Setup's count is the least `count` whose `count` strides reach `n`: `(count - 1) * s < n <= count * s`. */
  lemma CountIsCeiling(n: int, s: int, count: int)
    requires 1 <= count && Node(count - 1, s) < n <= Node(count, s)
    ensures (count - 1) * s < n <= count * s
  {
    NodeIsProduct(count - 1, s);
    NodeIsProduct(count, s);
  }

  /** Only one `count` has `Node(count - 1, s) < n <= Node(count, s)`, so setup's count is determined by `n` and `s`. */
  lemma CountUnique(n: int, s: int, c1: int, c2: int)
    requires 1 <= s && 1 <= c1 && 1 <= c2
    requires Node(c1 - 1, s) < n <= Node(c1, s)
    requires Node(c2 - 1, s) < n <= Node(c2, s)
    ensures c1 == c2
  {
    if c1 < c2 - 1 {
      NodeIncreasing(c1, c2 - 1, s);
    } else if c2 < c1 - 1 {
      NodeIncreasing(c2, c1 - 1, s);
    }
  }

  /**
   * After `m = q * count + r` hops from 0 the walk is at the `r`-th position
   * of the chain: the walk is the chain taken modulo `count`.
   */
  lemma {:induction false} ChainClosedForm(a: seq<int>, s: int, count: int, m: nat, q: nat, r: nat)
    requires StrideChain(a, s, count) && r < count && m == Node(q, count) + r
    ensures Hops(a, 0, m) == Node(r, s)
    decreases q
  {
    if q == 0 {
      ChainWalk(a, s, count, r);
    } else {
      if q - 1 > 0 {
        NodeIncreasing(0, q - 1, count);
      }
      ChainClosedForm(a, s, count, m - count, q - 1, r);
      ChainPeriodic(a, s, count, m - count);
    }
  }
}
