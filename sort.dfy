/**
 * Keys, the sequential baseline sort and the key-buffer utilities.
 *
 * A key is a 64-bit unsigned integer (`unsigned long`). A C pointer `A`
 * into a key buffer is modelled as an array together with an offset `lo`,
 * so that `A + k` is `(a, lo + k)`.
 */
module Sort {

  const KEY_BOUND: int := 0x1_0000_0000_0000_0000

  /** `keytype`: an unsigned 64-bit integer. */
  type Key = k: int | 0 <= k < KEY_BOUND

  /** Non-decreasing order, stated over every pair of positions. */
  ghost predicate Sorted(s: seq<Key>) {
    forall i, j :: 0 <= i < j < |s| ==> s[i] <= s[j]
  }

  /** Non-decreasing order, stated over neighbours only (what the oracle scans). */
  ghost predicate AdjacentSorted(s: seq<Key>) {
    forall i :: 1 <= i < |s| ==> s[i-1] <= s[i]
  }

  /** Every element of `s` is at most `b`. */
  ghost predicate Below(s: seq<Key>, b: int) {
    forall i :: 0 <= i < |s| ==> s[i] <= b
  }

  /** Every element of `s` is at least `b`. */
  ghost predicate Above(s: seq<Key>, b: int) {
    forall i :: 0 <= i < |s| ==> b <= s[i]
  }

  /** `s` and `t` agree everywhere except possibly on positions `[lo, hi)`. */
  ghost predicate SameOutside(s: seq<Key>, t: seq<Key>, lo: int, hi: int) {
    |s| == |t| && forall k :: 0 <= k < |s| && !(lo <= k < hi) ==> s[k] == t[k]
  }

  /**
   * `after` is `before` with the segment `[lo, hi)` sorted: the segment is
   * in order, holds the keys it held, and nothing outside it has changed.
   */
  ghost predicate SortedSegment(before: seq<Key>, after: seq<Key>, lo: int, hi: int) {
    0 <= lo <= hi <= |before| == |after|
    && Sorted(after[lo..hi])
    && multiset(after[lo..hi]) == multiset(before[lo..hi])
    && SameOutside(after, before, lo, hi)
  }

  /** The outcome of an oracle: it passes, or it aborts reporting an index. */
  datatype Verdict = Pass | Abort(at: nat)

  // ---------------------------------------------------------------------
  // The comparator handed to qsort
  // ---------------------------------------------------------------------

  /** Three-way comparison of two keys. */
  function Compare(ka: Key, kb: Key): (r: int)
    ensures r == -1 <==> ka < kb
    ensures r == 0 <==> ka == kb
    ensures r == 1 <==> ka > kb
  {
    if ka < kb then -1 else if ka == kb then 0 else 1
  }

  /** The comparator is antisymmetric, as qsort expects of it. */
  lemma CompareAntisymmetric(ka: Key, kb: Key)
    ensures Compare(ka, kb) == -Compare(kb, ka)
  {
  }

  // ---------------------------------------------------------------------
  // Facts about sortedness and permutations
  // ---------------------------------------------------------------------

  /** Checking neighbours is enough: adjacent order is the same as full order. */
  lemma {:induction false} AdjacentSortedIffSorted(s: seq<Key>)
    ensures AdjacentSorted(s) <==> Sorted(s)
  {
    if AdjacentSorted(s) && |s| > 1 {
      AdjacentSortedIffSorted(s[1..]);
      assert Sorted(s[1..]);
      forall i, j | 0 <= i < j < |s| ensures s[i] <= s[j] {
        if i > 0 {
          assert s[i] == s[1..][i-1] && s[j] == s[1..][j-1];
        } else {
          assert s[0] <= s[1];
          if j > 1 {
            assert s[1] == s[1..][0] && s[j] == s[1..][j-1];
          }
        }
      }
    }
  }

  /** Bounds carry over between sequences with the same multiset of keys. */
  lemma PermBounds(s: seq<Key>, t: seq<Key>, b: int)
    requires multiset(s) == multiset(t)
    ensures Below(t, b) ==> Below(s, b)
    ensures Above(t, b) ==> Above(s, b)
  {
    forall i | 0 <= i < |s| ensures s[i] in t {
      assert s[i] in multiset(s);
    }
  }

  /** Writing `v` at `p` extends the slice that ends just before `p` by `v`. */
  lemma WriteExtends(s: seq<Key>, p: int, v: Key, x: int)
    requires 0 <= x <= p < |s|
    ensures s[p := v][x..p+1] == s[x..p] + [v]
  {
  }

  /** Writing at `p` leaves every slice that does not contain `p` as it was. */
  lemma WriteElsewhere(s: seq<Key>, p: int, v: Key, x: int, y: int)
    requires 0 <= x <= y <= |s| && 0 <= p < |s| && (p < x || y <= p)
    ensures s[p := v][x..y] == s[x..y]
  {
  }

  /** A slice is its three consecutive pieces laid end to end. */
  lemma SlicesJoin(t: seq<Key>, x: int, y: int, z: int, w: int, p: seq<Key>, q: seq<Key>, r: seq<Key>)
    requires 0 <= x <= y <= z <= w <= |t|
    requires t[x..y] == p && t[y..z] == q && t[z..w] == r
    ensures t[x..w] == p + q + r
  {
    assert t[x..w] == t[x..y] + t[y..z] + t[z..w];
  }

  /** A slice clear of the window `[lo, hi)` is the same in `s` and `t`. */
  lemma SameOutsideSlice(s: seq<Key>, t: seq<Key>, lo: int, hi: int, x: int, y: int)
    requires SameOutside(s, t, lo, hi)
    requires 0 <= x <= y <= |s| && (y <= lo || hi <= x)
    ensures s[x..y] == t[x..y]
  {
  }

  /** Frames compose: two changes inside `[lo, hi)` are one change inside it. */
  lemma SameOutsideTrans(s: seq<Key>, t: seq<Key>, u: seq<Key>, lo: int, hi: int)
    requires SameOutside(s, t, lo, hi) && SameOutside(t, u, lo, hi)
    ensures SameOutside(s, u, lo, hi)
  {
  }

  /** Two sorted runs separated by a bound join into one sorted run. */
  lemma SortedJoin(x: seq<Key>, y: seq<Key>, b: int)
    requires Sorted(x) && Sorted(y) && Below(x, b) && Above(y, b)
    ensures Sorted(x + y)
  {
  }

  /**
   * A sorted permutation is unique: any two sorted arrangements of the
   * same keys are equal. This is why the driver's element-by-element
   * comparison of the parallel and sequential results can only pass.
   */
  lemma {:induction false} SortedPermutationUnique(s: seq<Key>, t: seq<Key>)
    requires Sorted(s) && Sorted(t) && multiset(s) == multiset(t)
    ensures s == t
  {
    assert |multiset(t)| == |multiset(s)|;
    if s != [] {
      SortedHeadIsLeast(s, t[0]);
      SortedHeadIsLeast(t, s[0]);
      PermTail(s, t);
      SortedPermutationUnique(s[1..], t[1..]);
      assert s == [s[0]] + s[1..] && t == [t[0]] + t[1..];
    }
  }

  /** Removing an equal first key from two permutations leaves permutations. */
  lemma PermTail(s: seq<Key>, t: seq<Key>)
    requires s != [] && t != [] && s[0] == t[0] && multiset(s) == multiset(t)
    ensures multiset(s[1..]) == multiset(t[1..])
  {
    assert s == [s[0]] + s[1..] && t == [t[0]] + t[1..];
    assert multiset(s[1..]) == multiset(s) - multiset{s[0]};
  }

  /** The first key of a sorted sequence is at most any key the sequence holds. */
  lemma SortedHeadIsLeast(s: seq<Key>, x: Key)
    requires Sorted(s) && x in multiset(s)
    ensures s[0] <= x
  {
    var j :| 0 <= j < |s| && s[j] == x;
    assert s[0] <= s[j];
  }

  // ---------------------------------------------------------------------
  // The sequential baseline
  // ---------------------------------------------------------------------

  /**
   * Inserts `x` into `s` in front of the first element that the comparator
   * handed to qsort does not place before it.
   */
  function Insert(x: Key, s: seq<Key>): (r: seq<Key>)
    ensures multiset(r) == multiset(s) + multiset{x}
  {
    if s == [] then [x]
    else if Compare(x, s[0]) <= 0 then [x] + s
    else
      assert s == [s[0]] + s[1..];
      [s[0]] + Insert(x, s[1..])
  }

  /** Inserting into a sorted sequence keeps it sorted. */
  lemma {:induction false} InsertSorted(x: Key, s: seq<Key>)
    requires Sorted(s)
    ensures Sorted(Insert(x, s))
  {
    if s != [] && s[0] < x {
      var rest := Insert(x, s[1..]);
      InsertSorted(x, s[1..]);
      assert Above(s[1..] + [x], s[0]);
      PermBounds(rest, s[1..] + [x], s[0]);
      SortedJoin([s[0]], rest, s[0]);
    }
  }

  /** A reference sort: the sorted permutation of `s`. */
  function SortSeq(s: seq<Key>): (r: seq<Key>)
    ensures Sorted(r)
    ensures multiset(r) == multiset(s) && |r| == |s|
  {
    if |s| == 0 then []
    else
      assert s == [s[0]] + s[1..];
      var rest := SortSeq(s[1..]);
      InsertSorted(s[0], rest);
      Insert(s[0], rest)
  }

  /**
   * sequentialSort: sorts the `n` keys at `a[lo..]` in place. The C code
   * hands the buffer to qsort; only its result is modelled, computed here
   * by the reference sort and written back.
   */
  method SequentialSort(n: nat, a: array<Key>, lo: nat)
    requires lo + n <= a.Length
    modifies a
    ensures SortedSegment(old(a[..]), a[..], lo, lo + n)
  {
    var sorted := SortSeq(a[lo..lo+n]);
    WriteBack(sorted, a, lo);
  }

  /** Stores the keys of `t` into `a` from position `lo` on, one by one. */
  method WriteBack(t: seq<Key>, a: array<Key>, lo: nat)
    requires lo + |t| <= a.Length
    modifies a
    ensures a[lo..lo+|t|] == t
    ensures SameOutside(a[..], old(a[..]), lo, lo + |t|)
  {
    var i := 0;
    while i < |t|
      invariant 0 <= i <= |t|
      invariant forall k :: 0 <= k < i ==> a[lo+k] == t[k]
      invariant SameOutside(a[..], old(a[..]), lo, lo + |t|)
    {
      a[lo+i] := t[i];
      i := i + 1;
    }
  }

  // ---------------------------------------------------------------------
  // Buffer management
  // ---------------------------------------------------------------------

  /** newKeys: a fresh buffer of `n` keys. */
  method NewKeys(n: nat) returns (a: array<Key>)
    ensures fresh(a) && a.Length == n
  {
    a := new Key[n];
  }

  /** newCopy: a fresh buffer holding a copy of the `n` keys at `a[lo..]`. */
  method NewCopy(n: nat, a: array<Key>, lo: nat) returns (c: array<Key>)
    requires lo + n <= a.Length
    ensures fresh(c) && c.Length == n
    ensures c[..] == a[lo..lo+n]
  {
    c := NewKeys(n);
    var i := 0;
    while i < n
      invariant 0 <= i <= n
      invariant forall k :: 0 <= k < i ==> c[k] == a[lo+k]
    {
      c[i] := a[lo+i];
      i := i + 1;
    }
  }

  // ---------------------------------------------------------------------
  // Oracles
  // ---------------------------------------------------------------------

  /**
   * assertIsSorted: scans `a[0..n)` and aborts at the first adjacent
   * inversion, reporting the index of its second element.
   */
  method AssertIsSorted(n: nat, a: array<Key>) returns (v: Verdict)
    requires n <= a.Length
    ensures v.Pass? <==> Sorted(a[..n])
    ensures v.Abort? ==> 1 <= v.at < n && a[v.at-1] > a[v.at]
    ensures v.Abort? ==> forall i :: 1 <= i < v.at ==> a[i-1] <= a[i]
  {
    var i := 1;
    while i < n
      invariant 1 <= i
      invariant n == 0 || i <= n
      invariant forall k :: 1 <= k < i && k < n ==> a[k-1] <= a[k]
    {
      if a[i-1] > a[i] {
        assert !AdjacentSorted(a[..n]) by {
          assert a[..n][i-1] == a[i-1] && a[..n][i] == a[i];
        }
        AdjacentSortedIffSorted(a[..n]);
        return Abort(i);
      }
      i := i + 1;
    }
    assert AdjacentSorted(a[..n]);
    AdjacentSortedIffSorted(a[..n]);
    return Pass;
  }

  /**
   * assertIsEqual: compares `a[0..n)` with `b[0..n)` and aborts at the
   * first position where they differ.
   */
  method AssertIsEqual(n: nat, a: array<Key>, b: array<Key>) returns (v: Verdict)
    requires n <= a.Length && n <= b.Length
    ensures v.Pass? <==> a[..n] == b[..n]
    ensures v.Abort? ==> v.at < n && a[v.at] != b[v.at]
    ensures v.Abort? ==> a[..v.at] == b[..v.at]
  {
    var i := 0;
    while i < n
      invariant 0 <= i <= n
      invariant a[..i] == b[..i]
    {
      if a[i] != b[i] {
        assert a[..n][i] != b[..n][i];
        return Abort(i);
      }
      assert a[..i+1] == a[..i] + [a[i]] && b[..i+1] == b[..i] + [b[i]];
      i := i + 1;
    }
    assert a[..n] == a[..i] && b[..n] == b[..i];
    return Pass;
  }
}
