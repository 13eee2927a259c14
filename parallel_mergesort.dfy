/**
 * Parallel mergesort: the halves of a segment are sorted recursively, merged
 * into a scratch buffer and copied back. Above a threshold the merge itself
 * is split in two around the middle key of the left run, located in the
 * right run by binary search. The OpenMP tasks of the C code are modelled as
 * sequential calls on disjoint segments of the same arrays.
 */
module ParallelMergesort {
  import opened Sort

  /** The size threshold `THRESHOLD` of the C code. */
  const THRESHOLD: nat := 1250000

  // ---------------------------------------------------------------------
  // The merge of two runs, as a value
  // ---------------------------------------------------------------------

  /**
   * The two-pointer merge: the head of `l` is taken when it is strictly
   * below the head of `r`, otherwise (on ties too) the head of `r`.
   */
  function MergeSeq(l: seq<Key>, r: seq<Key>): (m: seq<Key>)
    ensures |m| == |l| + |r|
    decreases |l| + |r|
  {
    if |l| == 0 then r
    else if |r| == 0 then l
    else if l[0] < r[0] then [l[0]] + MergeSeq(l[1..], r)
    else [r[0]] + MergeSeq(l, r[1..])
  }

  /** The merge holds exactly the keys of both runs. */
  lemma {:induction false} MergePermutes(l: seq<Key>, r: seq<Key>)
    ensures multiset(MergeSeq(l, r)) == multiset(l) + multiset(r)
    decreases |l| + |r|
  {
    if |l| != 0 && |r| != 0 {
      if l[0] < r[0] {
        MergePermutes(l[1..], r);
        HeadMultiset(l);
      } else {
        MergePermutes(l, r[1..]);
        HeadMultiset(r);
      }
    }
  }

  /** A non-empty sequence holds its head and the keys of its tail. */
  lemma HeadMultiset(s: seq<Key>)
    requires |s| != 0
    ensures multiset(s) == multiset([s[0]]) + multiset(s[1..])
  {
    assert s == [s[0]] + s[1..];
  }

  /** Merging two sorted runs gives a sorted run. */
  lemma {:induction false} MergeSorted(l: seq<Key>, r: seq<Key>)
    requires Sorted(l) && Sorted(r)
    ensures Sorted(MergeSeq(l, r))
    decreases |l| + |r|
  {
    if |l| != 0 && |r| != 0 {
      if l[0] < r[0] {
        MergeSorted(l[1..], r);
        MergePermutes(l[1..], r);
        SortedAbove(l, l[0]);
        SortedAbove(r, l[0]);
        HeadJoin(l[0], MergeSeq(l[1..], r), l[1..], r);
      } else {
        MergeSorted(l, r[1..]);
        MergePermutes(l, r[1..]);
        SortedAbove(l, r[0]);
        SortedAbove(r, r[0]);
        HeadJoin(r[0], MergeSeq(l, r[1..]), l, r[1..]);
      }
    }
  }

  /** A sorted run whose head is at least `x` lies, with its tail, above `x`. */
  lemma SortedAbove(s: seq<Key>, x: Key)
    requires Sorted(s) && |s| != 0 && x <= s[0]
    ensures Above(s, x) && Above(s[1..], x)
  {
  }

  /**
   * A key below everything in `a` and `b`, put in front of a sorted
   * arrangement of their keys, keeps it sorted.
   */
  lemma HeadJoin(h: Key, rest: seq<Key>, a: seq<Key>, b: seq<Key>)
    requires Sorted(rest) && multiset(rest) == multiset(a) + multiset(b)
    requires Above(a, h) && Above(b, h)
    ensures Sorted([h] + rest)
  {
    assert Above(a + b, h);
    PermBounds(rest, a + b, h);
    SortedJoin([h], rest, h);
  }

  /** The merge of two sorted runs is the sorted arrangement of their keys. */
  lemma MergeIsSort(l: seq<Key>, r: seq<Key>)
    requires Sorted(l) && Sorted(r)
    ensures MergeSeq(l, r) == SortSeq(l + r)
  {
    MergeSorted(l, r);
    MergePermutes(l, r);
    SortedPermutationUnique(MergeSeq(l, r), SortSeq(l + r));
  }

  /** One step of the main loop that takes from the left run. */
  lemma TakeLeft(l: seq<Key>, r: seq<Key>, i: nat, j: nat)
    requires i < |l| && j <= |r| && (j == |r| || l[i] < r[j])
    ensures MergeSeq(l[i..], r[j..]) == [l[i]] + MergeSeq(l[i+1..], r[j..])
  {
    assert l[i..] == [l[i]] + l[i+1..];
    if j < |r| {
      assert l[i..][0] == l[i] && r[j..][0] == r[j] && l[i..][1..] == l[i+1..];
    }
  }

  /** One step of the main loop that takes from the right run. */
  lemma TakeRight(l: seq<Key>, r: seq<Key>, i: nat, j: nat)
    requires i <= |l| && j < |r| && (i == |l| || !(l[i] < r[j]))
    ensures MergeSeq(l[i..], r[j..]) == [r[j]] + MergeSeq(l[i..], r[j+1..])
  {
    assert r[j..] == [r[j]] + r[j+1..];
    if i < |l| {
      assert l[i..][0] == l[i] && r[j..][0] == r[j] && r[j..][1..] == r[j+1..];
    }
  }

  /**
   * Splitting both runs around a key `x` that bounds the lower parts from
   * above and the upper parts from below, and merging lower with lower and
   * upper with upper, gives the merge of the whole runs.
   */
  lemma SplitMerge(l: seq<Key>, r: seq<Key>, p: nat, q: nat, x: Key)
    requires Sorted(l) && Sorted(r) && p <= |l| && q <= |r|
    requires Below(l[..p], x) && Above(l[p..], x)
    requires Below(r[..q], x) && Above(r[q..], x)
    ensures MergeSeq(l[..p], r[..q]) + MergeSeq(l[p..], r[q..]) == MergeSeq(l, r)
  {
    SplitHalvesSorted(l, r, p, q, x);
    SplitHalvesPermute(l, r, p, q);
    MergeSorted(l, r);
    SortedPermutationUnique(MergeSeq(l[..p], r[..q]) + MergeSeq(l[p..], r[q..]), MergeSeq(l, r));
  }

  /** The lower merge followed by the upper merge is sorted. */
  lemma SplitHalvesSorted(l: seq<Key>, r: seq<Key>, p: nat, q: nat, x: Key)
    requires Sorted(l) && Sorted(r) && p <= |l| && q <= |r|
    requires Below(l[..p], x) && Above(l[p..], x)
    requires Below(r[..q], x) && Above(r[q..], x)
    ensures Sorted(MergeSeq(l[..p], r[..q]) + MergeSeq(l[p..], r[q..]))
  {
    SortedParts(l, p);
    SortedParts(r, q);
    MergeSorted(l[..p], r[..q]);
    MergeSorted(l[p..], r[q..]);
    MergePermutes(l[..p], r[..q]);
    MergePermutes(l[p..], r[q..]);
    LowerUpperSorted(MergeSeq(l[..p], r[..q]), MergeSeq(l[p..], r[q..]), l[..p], r[..q], l[p..], r[q..], x);
  }

  /** Both pieces of a sorted sequence cut at `p` are sorted. */
  lemma SortedParts(s: seq<Key>, p: nat)
    requires Sorted(s) && p <= |s|
    ensures Sorted(s[..p]) && Sorted(s[p..])
  {
    SortedSlice(s, 0, p);
    SortedSlice(s, p, |s|);
    assert s[0..p] == s[..p] && s[p..|s|] == s[p..];
  }

  /**
   * A sorted arrangement of keys at most `x`, followed by a sorted
   * arrangement of keys at least `x`, is sorted.
   */
  lemma LowerUpperSorted(lower: seq<Key>, upper: seq<Key>, a1: seq<Key>, b1: seq<Key>, a2: seq<Key>, b2: seq<Key>, x: Key)
    requires Sorted(lower) && multiset(lower) == multiset(a1) + multiset(b1)
    requires Sorted(upper) && multiset(upper) == multiset(a2) + multiset(b2)
    requires Below(a1, x) && Below(b1, x) && Above(a2, x) && Above(b2, x)
    ensures Sorted(lower + upper)
  {
    assert Below(a1 + b1, x) && Above(a2 + b2, x);
    PermBounds(lower, a1 + b1, x);
    PermBounds(upper, a2 + b2, x);
    SortedJoin(lower, upper, x);
  }

  /** The lower merge followed by the upper merge holds the keys of both runs. */
  lemma SplitHalvesPermute(l: seq<Key>, r: seq<Key>, p: nat, q: nat)
    requires p <= |l| && q <= |r|
    ensures multiset(MergeSeq(l[..p], r[..q]) + MergeSeq(l[p..], r[q..])) == multiset(MergeSeq(l, r))
  {
    MergePermutes(l[..p], r[..q]);
    MergePermutes(l[p..], r[q..]);
    MergePermutes(l, r);
    InterleavedPermutes(MergeSeq(l[..p], r[..q]), MergeSeq(l[p..], r[q..]), MergeSeq(l, r), l, r, p, q);
  }

  /**
   * Two sequences laid end to end, holding the keys of the lower parts
   * and of the upper parts of `l` and `r`, hold the keys of `l` and `r`.
   */
  lemma InterleavedPermutes(x: seq<Key>, y: seq<Key>, m: seq<Key>, l: seq<Key>, r: seq<Key>, p: nat, q: nat)
    requires p <= |l| && q <= |r|
    requires multiset(x) == multiset(l[..p]) + multiset(r[..q])
    requires multiset(y) == multiset(l[p..]) + multiset(r[q..])
    requires multiset(m) == multiset(l) + multiset(r)
    ensures multiset(x + y) == multiset(m)
  {
    assert l == l[..p] + l[p..] && r == r[..q] + r[q..];
    calc {
      multiset(x + y);
      multiset(x) + multiset(y);
      multiset(l[..p]) + multiset(r[..q]) + (multiset(l[p..]) + multiset(r[q..]));
      multiset(l[..p]) + multiset(l[p..]) + (multiset(r[..q]) + multiset(r[q..]));
      multiset(l[..p] + l[p..]) + multiset(r[..q] + r[q..]);
    }
  }

  /** A slice of a sorted sequence is sorted. */
  lemma SortedSlice(s: seq<Key>, x: nat, y: nat)
    requires Sorted(s) && x <= y <= |s|
    ensures Sorted(s[x..y])
  {
    forall i, j | 0 <= i < j < y - x ensures s[x..y][i] <= s[x..y][j] {
      assert s[x..y][i] == s[x+i] && s[x..y][j] == s[x+j];
    }
  }

  /** In a sorted run, the keys before position `p` are at most its key and the rest at least. */
  lemma SortedAroundMiddle(s: seq<Key>, p: nat)
    requires Sorted(s) && p < |s|
    ensures Below(s[..p], s[p]) && Above(s[p..], s[p])
  {
    forall i | 0 <= i < p ensures s[..p][i] <= s[p] {
      assert s[..p][i] == s[i];
    }
    forall i | 0 <= i < |s| - p ensures s[p] <= s[p..][i] {
      assert s[p..][i] == s[p+i];
    }
  }

  // ---------------------------------------------------------------------
  // merge
  // ---------------------------------------------------------------------

  /**
   * The state of a merge after `i` keys of `l` and `j` keys of `r` have
   * been emitted into `t` from position `tl` on: what is written, followed
   * by the merge of what is left, is the merge of the whole runs.
   */
  ghost predicate Merged(t: seq<Key>, tl: nat, l: seq<Key>, r: seq<Key>, i: nat, j: nat)
    requires i <= |l| && j <= |r| && tl + i + j <= |t|
  {
    t[tl..tl+i+j] + MergeSeq(l[i..], r[j..]) == MergeSeq(l, r)
  }

  /** Nothing emitted yet is a merge state. */
  lemma MergedStart(t: seq<Key>, tl: nat, l: seq<Key>, r: seq<Key>)
    requires tl <= |t|
    ensures Merged(t, tl, l, r, 0, 0)
  {
    assert l[0..] == l && r[0..] == r;
  }

  /** Emitting the head of the left rest when the merge takes it keeps a merge state. */
  lemma MergedLeft(t: seq<Key>, u: seq<Key>, tl: nat, l: seq<Key>, r: seq<Key>, i: nat, j: nat)
    requires i < |l| && j <= |r| && tl + i + j < |t|
    requires j == |r| || l[i] < r[j]
    requires Merged(t, tl, l, r, i, j) && u == t[tl + i + j := l[i]]
    ensures Merged(u, tl, l, r, i + 1, j)
  {
    TakeLeft(l, r, i, j);
    WriteExtends(t, tl + i + j, l[i], tl);
    assert tl + (i + 1) + j == tl + i + j + 1;
    MoveHead(t[tl..tl+i+j], l[i], MergeSeq(l[i+1..], r[j..]), MergeSeq(l, r));
  }

  /** Emitting the head of the right rest when the merge takes it keeps a merge state. */
  lemma MergedRight(t: seq<Key>, u: seq<Key>, tl: nat, l: seq<Key>, r: seq<Key>, i: nat, j: nat)
    requires i <= |l| && j < |r| && tl + i + j < |t|
    requires i == |l| || !(l[i] < r[j])
    requires Merged(t, tl, l, r, i, j) && u == t[tl + i + j := r[j]]
    ensures Merged(u, tl, l, r, i, j + 1)
  {
    TakeRight(l, r, i, j);
    WriteExtends(t, tl + i + j, r[j], tl);
    assert tl + i + (j + 1) == tl + i + j + 1;
    MoveHead(t[tl..tl+i+j], r[j], MergeSeq(l[i..], r[j+1..]), MergeSeq(l, r));
  }

  /** Moving the head of what is left onto the end of what is done. */
  lemma MoveHead(done: seq<Key>, v: Key, rest: seq<Key>, whole: seq<Key>)
    requires done + ([v] + rest) == whole
    ensures (done + [v]) + rest == whole
  {
    assert (done + [v]) + rest == done + ([v] + rest);
  }

  /** Once both runs are used up, what is written is their merge. */
  lemma MergedEnd(t: seq<Key>, tl: nat, l: seq<Key>, r: seq<Key>, nl: nat, nr: nat)
    requires nl == |l| && nr == |r| && tl + nl + nr <= |t|
    requires Merged(t, tl, l, r, nl, nr)
    ensures t[tl..tl+nl+nr] == MergeSeq(l, r)
  {
    assert l[|l|..] == [] && r[|r|..] == [];
  }

  /**
   * merge: the linear two-pointer merge of the `nl` keys at `left[ll..]`
   * and the `nr` keys at `right[rl..]` into `temp[tl..]`. The main loop is
   * here; the two tail loops that copy what is left of one run are
   * DrainLeft and DrainRight.
   */
  method Merge(left: array<Key>, ll: nat, nl: nat, right: array<Key>, rl: nat, nr: nat, temp: array<Key>, tl: nat)
    requires ll + nl <= left.Length && rl + nr <= right.Length && tl + nl + nr <= temp.Length
    requires left != temp && right != temp
    modifies temp
    ensures temp[tl..tl+nl+nr] == MergeSeq(left[ll..ll+nl], right[rl..rl+nr])
    ensures SameOutside(temp[..], old(temp[..]), tl, tl + nl + nr)
  {
    ghost var l := left[ll..ll+nl];
    ghost var r := right[rl..rl+nr];
    var i, j, k := 0, 0, 0;
    MergedStart(temp[..], tl, l, r);
    while i < nl && j < nr
      invariant k == i + j && MergeState(temp[..], old(temp[..]), tl, l, r, i, j)
    {
      if left[ll+i] < right[rl+j] {
        Emit(temp, tl, k, left[ll+i], l, r, i, j, true, old(temp[..]));
        i, k := i + 1, k + 1;
      } else {
        Emit(temp, tl, k, right[rl+j], l, r, i, j, false, old(temp[..]));
        j, k := j + 1, k + 1;
      }
    }
    i, k := DrainLeft(left, ll, nl, temp, tl, l, r, i, j, k, old(temp[..]));
    j, k := DrainRight(right, rl, nr, temp, tl, l, r, i, j, k, old(temp[..]));
    MergedEnd(temp[..], tl, l, r, nl, nr);
  }

  /**
   * The first tail loop of merge: once the right run is used up, the rest
   * of the left run is copied over one key at a time.
   */
  method DrainLeft(left: array<Key>, ll: nat, nl: nat, temp: array<Key>, tl: nat, ghost l: seq<Key>, ghost r: seq<Key>,
                   i0: nat, j: nat, k0: nat, ghost base: seq<Key>) returns (i: nat, k: nat)
    requires left != temp && ll + nl <= left.Length && l == left[ll..ll+nl]
    requires k0 == i0 + j && (i0 < nl ==> j == |r|) && MergeState(temp[..], base, tl, l, r, i0, j)
    modifies temp
    ensures i == nl && k == i + j && MergeState(temp[..], base, tl, l, r, i, j)
  {
    i, k := i0, k0;
    while i < nl
      invariant k == i + j && (i < nl ==> j == |r|) && MergeState(temp[..], base, tl, l, r, i, j)
    {
      Emit(temp, tl, k, left[ll+i], l, r, i, j, true, base);
      i, k := i + 1, k + 1;
    }
  }

  /**
   * The second tail loop of merge: once the left run is used up, the rest
   * of the right run is copied over one key at a time.
   */
  method DrainRight(right: array<Key>, rl: nat, nr: nat, temp: array<Key>, tl: nat, ghost l: seq<Key>, ghost r: seq<Key>,
                    i: nat, j0: nat, k0: nat, ghost base: seq<Key>) returns (j: nat, k: nat)
    requires right != temp && rl + nr <= right.Length && r == right[rl..rl+nr]
    requires k0 == i + j0 && i == |l| && MergeState(temp[..], base, tl, l, r, i, j0)
    modifies temp
    ensures j == nr && k == i + j && MergeState(temp[..], base, tl, l, r, i, j)
  {
    j, k := j0, k0;
    while j < nr
      invariant k == i + j && MergeState(temp[..], base, tl, l, r, i, j)
    {
      Emit(temp, tl, k, right[rl+j], l, r, i, j, false, base);
      j, k := j + 1, k + 1;
    }
  }

  /**
   * The loop invariant of merge: `i` keys of `l` and `j` keys of `r` have
   * been emitted into the window of `t` that starts at `tl`, and nothing
   * outside the window differs from `base`.
   */
  ghost predicate MergeState(t: seq<Key>, base: seq<Key>, tl: nat, l: seq<Key>, r: seq<Key>, i: nat, j: nat) {
    i <= |l| && j <= |r| && tl + |l| + |r| <= |t|
    && Merged(t, tl, l, r, i, j)
    && SameOutside(t, base, tl, tl + |l| + |r|)
  }

  /**
   * `temp[k++] = v`, one step of merge: `v` is the head of the left rest
   * (`fromLeft`) or of the right rest, whichever the merge takes next, and
   * writing it at `temp[tl+k]` extends the merge state by one key.
   */
  method Emit(temp: array<Key>, tl: nat, k: nat, v: Key, ghost l: seq<Key>, ghost r: seq<Key>,
              i: nat, j: nat, ghost fromLeft: bool, ghost base: seq<Key>)
    requires k == i + j && MergeState(temp[..], base, tl, l, r, i, j)
    requires fromLeft ==> i < |l| && v == l[i] && (j == |r| || l[i] < r[j])
    requires !fromLeft ==> j < |r| && v == r[j] && (i == |l| || !(l[i] < r[j]))
    modifies temp
    ensures fromLeft ==> MergeState(temp[..], base, tl, l, r, i + 1, j)
    ensures !fromLeft ==> MergeState(temp[..], base, tl, l, r, i, j + 1)
  {
    ghost var t0 := temp[..];
    temp[tl+k] := v;
    if fromLeft {
      MergedLeft(t0, temp[..], tl, l, r, i, j);
    } else {
      MergedRight(t0, temp[..], tl, l, r, i, j);
    }
  }

  // ---------------------------------------------------------------------
  // binarySearch
  // ---------------------------------------------------------------------

  /**
   * binarySearch: a rank of `key` in the sorted `n` keys at `a[lo..]`.
   * Everything before the rank is at most `key` and everything from it on
   * is at least `key`. The search stops at the first probe that hits `key`
   * and returns the position just after it, which need not be after the
   * last copy of `key`; when `key` is absent the rank is its exact
   * insertion point.
   */
  method BinarySearch(a: array<Key>, lo: nat, n: nat, key: Key) returns (q: nat)
    requires lo + n <= a.Length
    requires Sorted(a[lo..lo+n])
    ensures q <= n
    ensures Below(a[lo..lo+q], key) && Above(a[lo+q..lo+n], key)
    ensures key in a[lo..lo+n] <==> 0 < q && a[lo+q-1] == key
    ensures key !in a[lo..lo+n] ==> forall i :: lo <= i < lo + q ==> a[i] < key
  {
    var low: int := 0;
    var high: int := n - 1;
    while low <= high
      invariant 0 <= low <= high + 1 <= n
      invariant forall i :: lo <= i < lo + low ==> a[i] < key
      invariant forall i :: lo + high < i < lo + n ==> key < a[i]
    {
      var mid := (high + low) / 2;
      assert a[lo+mid] == a[lo..lo+n][mid];
      if a[lo+mid] == key {
        SearchHit(a[..], lo, n, low, mid, key);
        return mid + 1;
      } else if a[lo+mid] > key {
        forall i | lo + mid <= i < lo + n ensures key < a[i] {
          assert a[i] == a[lo..lo+n][i-lo];
        }
        high := mid - 1;
      } else {
        forall i | lo <= i <= lo + mid ensures a[i] < key {
          assert a[i] == a[lo..lo+n][i-lo];
        }
        low := mid + 1;
      }
    }
    SearchMiss(a[..], lo, n, low, key);
    return low;
  }

  /** The rank returned on a hit at `mid` splits the run around `key`. */
  lemma SearchHit(t: seq<Key>, lo: nat, n: nat, low: nat, mid: nat, key: Key)
    requires low <= mid < n && lo + n <= |t| && Sorted(t[lo..lo+n]) && t[lo+mid] == key
    requires forall i :: lo <= i < lo + low ==> t[i] < key
    ensures Below(t[lo..lo+mid+1], key) && Above(t[lo+mid+1..lo+n], key)
    ensures key in t[lo..lo+n]
  {
    var s := t[lo..lo+n];
    var below := t[lo..lo+mid+1];
    var above := t[lo+mid+1..lo+n];
    assert s[mid] == key;
    forall i | 0 <= i < mid + 1 ensures below[i] <= key {
      assert below[i] == s[i];
    }
    forall i | 0 <= i < n - mid - 1 ensures key <= above[i] {
      assert above[i] == s[mid+1+i];
    }
  }

  /** The rank returned after a search that never hit `key` is its insertion point. */
  lemma SearchMiss(t: seq<Key>, lo: nat, n: nat, low: nat, key: Key)
    requires low <= n && lo + n <= |t|
    requires forall i :: lo <= i < lo + low ==> t[i] < key
    requires forall i :: lo + low <= i < lo + n ==> key < t[i]
    ensures Below(t[lo..lo+low], key) && Above(t[lo+low..lo+n], key)
    ensures key !in t[lo..lo+n]
  {
    var s := t[lo..lo+n];
    var below := t[lo..lo+low];
    var above := t[lo+low..lo+n];
    forall i | 0 <= i < low ensures below[i] <= key {
      assert below[i] == t[lo+i];
    }
    forall i | 0 <= i < n - low ensures key <= above[i] {
      assert above[i] == t[lo+low+i];
    }
    forall i | 0 <= i < n ensures s[i] != key {
      assert s[i] == t[lo+i];
    }
  }

  // ---------------------------------------------------------------------
  // pmerge
  // ---------------------------------------------------------------------

  /**
   * pmerge: merges the `nl` keys at `left[ll..]` with the `nr` keys at
   * `right[rl..]` into `temp[tl..]`. When either run is at most `th` long
   * this is the linear merge; otherwise the middle key `x` of the left run
   * is located in the right run by binary search at rank `q`, and the two
   * lower parts are merged into `temp[tl..tl+p+q)` and the two upper parts
   * into the rest. The key is kept at full width here; the C code narrows
   * it to an `int` (see `SplitKeyAsWritten`).
   */
  method PMerge(left: array<Key>, ll: nat, nl: nat, right: array<Key>, rl: nat, nr: nat,
                temp: array<Key>, tl: nat, th: nat)
    requires th >= 1
    requires ll + nl <= left.Length && rl + nr <= right.Length && tl + nl + nr <= temp.Length
    requires left != temp && right != temp
    requires Sorted(left[ll..ll+nl]) && Sorted(right[rl..rl+nr])
    modifies temp
    ensures temp[tl..tl+nl+nr] == MergeSeq(left[ll..ll+nl], right[rl..rl+nr])
    ensures SameOutside(temp[..], old(temp[..]), tl, tl + nl + nr)
    ensures left[..] == old(left[..]) && right[..] == old(right[..])
    decreases nl + nr
  {
    if nl <= th || nr <= th {
      Merge(left, ll, nl, right, rl, nr, temp, tl);
    } else {
      var p := nl / 2;
      var x := left[ll + p];
      var q := BinarySearch(right, rl, nr, x);
      ghost var ls, rs := left[..], right[..];
      var ll2, nl2, rl2, nr2, tl2 := ll + p, nl - p, rl + q, nr - q, tl + p + q;
      SplitRuns(ls, ll, nl, p, rs, rl, nr, q, ll2, nl2, rl2, nr2);
      PMerge(left, ll, p, right, rl, q, temp, tl, th);
      ghost var t1 := temp[..];
      PMerge(left, ll2, nl2, right, rl2, nr2, temp, tl2, th);
      JoinMerges(ls, ll, nl, p, rs, rl, nr, q, ll2, nl2, rl2, nr2, old(temp[..]), t1, temp[..], tl, tl2);
    }
  }

  /**
   * The preconditions of pmerge's two sub-problems: the parts of sorted
   * runs are sorted.
   */
  lemma SplitRuns(left: seq<Key>, ll: nat, nl: nat, p: nat, right: seq<Key>, rl: nat, nr: nat, q: nat,
                  ll2: nat, nl2: nat, rl2: nat, nr2: nat)
    requires ll + nl <= |left| && rl + nr <= |right| && p <= nl && q <= nr
    requires ll2 == ll + p && nl2 == nl - p && rl2 == rl + q && nr2 == nr - q
    requires Sorted(left[ll..ll+nl]) && Sorted(right[rl..rl+nr])
    ensures Sorted(left[ll..ll+p]) && Sorted(left[ll2..ll2+nl2])
    ensures Sorted(right[rl..rl+q]) && Sorted(right[rl2..rl2+nr2])
  {
    SortedSlice(left[ll..ll+nl], 0, p);
    SortedSlice(left[ll..ll+nl], p, nl);
    SortedSlice(right[rl..rl+nr], 0, q);
    SortedSlice(right[rl..rl+nr], q, nr);
    assert left[ll..ll+nl][0..p] == left[ll..ll+p];
    assert left[ll..ll+nl][p..nl] == left[ll2..ll2+nl2];
    assert right[rl..rl+nr][0..q] == right[rl..rl+q];
    assert right[rl..rl+nr][q..nr] == right[rl2..rl2+nr2];
  }

  /**
   * After pmerge's lower sub-merge has filled `temp[tl..tl+p+q)` and its
   * upper sub-merge the rest of the window, the window holds the merge of
   * the two runs, and nothing outside it has changed, provided the rank `q`
   * splits the right run around the middle key `left[ll+p]` of the left run.
   */
  lemma JoinMerges(left: seq<Key>, ll: nat, nl: nat, p: nat, right: seq<Key>, rl: nat, nr: nat, q: nat,
                   ll2: nat, nl2: nat, rl2: nat, nr2: nat, t0: seq<Key>, t1: seq<Key>, t2: seq<Key>, tl: nat, tl2: nat)
    requires ll + nl <= |left| && rl + nr <= |right| && p < nl && q <= nr
    requires ll2 == ll + p && nl2 == nl - p && rl2 == rl + q && nr2 == nr - q && tl2 == tl + p + q
    requires tl + nl + nr <= |t0| == |t1| == |t2|
    requires Sorted(left[ll..ll+nl]) && Sorted(right[rl..rl+nr])
    requires Below(right[rl..rl+q], left[ll+p]) && Above(right[rl+q..rl+nr], left[ll+p])
    requires t1[tl..tl+p+q] == MergeSeq(left[ll..ll+p], right[rl..rl+q])
    requires SameOutside(t1, t0, tl, tl + p + q)
    requires t2[tl2..tl2+nl2+nr2] == MergeSeq(left[ll2..ll2+nl2], right[rl2..rl2+nr2])
    requires SameOutside(t2, t1, tl2, tl2 + nl2 + nr2)
    ensures t2[tl..tl+nl+nr] == MergeSeq(left[ll..ll+nl], right[rl..rl+nr])
    ensures SameOutside(t2, t0, tl, tl + nl + nr)
  {
    assert tl2 + nl2 + nr2 == tl + nl + nr;
    SplitAtMiddle(left, ll, nl, p, right, rl, nr, q, ll2, nl2, rl2, nr2);
    JoinWindows(t0, t1, t2, tl, tl2, tl + nl + nr, MergeSeq(left[ll..ll+p], right[rl..rl+q]),
                MergeSeq(left[ll2..ll2+nl2], right[rl2..rl2+nr2]));
  }

  /**
   * Splitting the left run at its middle key and the right run at a rank
   * of that key, the merge of the lower parts followed by the merge of the
   * upper parts is the merge of the runs.
   */
  lemma SplitAtMiddle(left: seq<Key>, ll: nat, nl: nat, p: nat, right: seq<Key>, rl: nat, nr: nat, q: nat,
                      ll2: nat, nl2: nat, rl2: nat, nr2: nat)
    requires ll + nl <= |left| && rl + nr <= |right| && p < nl && q <= nr
    requires ll2 == ll + p && nl2 == nl - p && rl2 == rl + q && nr2 == nr - q
    requires Sorted(left[ll..ll+nl]) && Sorted(right[rl..rl+nr])
    requires Below(right[rl..rl+q], left[ll+p]) && Above(right[rl+q..rl+nr], left[ll+p])
    ensures MergeSeq(left[ll..ll+p], right[rl..rl+q]) + MergeSeq(left[ll2..ll2+nl2], right[rl2..rl2+nr2])
         == MergeSeq(left[ll..ll+nl], right[rl..rl+nr])
  {
    var l := left[ll..ll+nl];
    var r := right[rl..rl+nr];
    assert l[..p] == left[ll..ll+p] && l[p..] == left[ll2..ll2+nl2];
    assert r[..q] == right[rl..rl+q] && r[q..] == right[rl2..rl2+nr2];
    assert l[p] == left[ll+p];
    SortedAroundMiddle(l, p);
    SplitMerge(l, r, p, q, l[p]);
  }

  /**
   * Two writes to adjacent windows `[x, y)` and `[y, z)`, one after the
   * other, leave the window `[x, z)` holding both contents and nothing
   * outside it changed.
   */
  lemma JoinWindows(t0: seq<Key>, t1: seq<Key>, t2: seq<Key>, x: nat, y: nat, z: nat, a: seq<Key>, b: seq<Key>)
    requires x <= y <= z <= |t0| == |t1| == |t2|
    requires t1[x..y] == a && SameOutside(t1, t0, x, y)
    requires t2[y..z] == b && SameOutside(t2, t1, y, z)
    ensures t2[x..z] == a + b
    ensures SameOutside(t2, t0, x, z)
  {
    SameOutsideSlice(t2, t1, y, z, x, y);
    assert t2[x..z] == t2[x..y] + t2[y..z];
  }

  // ---------------------------------------------------------------------
  // mergeSort and parallelSort
  // ---------------------------------------------------------------------

  /**
   * mergeSort: sorts the `n` keys at `a[lo..]` using `temp[tl..tl+n)` as
   * scratch. Segments of at most `th` keys go to the sequential sort;
   * otherwise both halves are sorted recursively (with the matching halves
   * of the scratch window), merged into the scratch window, and copied back.
   */
  method MergeSort(a: array<Key>, lo: nat, n: nat, temp: array<Key>, tl: nat, th: nat)
    requires th >= 1
    requires a != temp && lo + n <= a.Length && tl + n <= temp.Length
    modifies a, temp
    ensures SortedSegment(old(a[..]), a[..], lo, lo + n)
    ensures SameOutside(temp[..], old(temp[..]), tl, tl + n)
    decreases n, 1
  {
    if n <= th {
      ghost var a0 := a[..];
      SequentialSort(n, a, lo);
      assert a[lo..lo+n] == a[..][lo..lo+n] && old(a[lo..lo+n]) == a0[lo..lo+n];
    } else {
      SortHalves(a, lo, n / 2, n, temp, tl, th);
    }
  }

  /**
   * The recursive case of mergeSort: the first `half` keys and the other
   * `n - half` are sorted in turn, each with its own part of the scratch
   * window, and then merged back over the segment.
   */
  method SortHalves(a: array<Key>, lo: nat, half: nat, n: nat, temp: array<Key>, tl: nat, th: nat)
    requires th >= 1 && 1 <= half < n
    requires a != temp && lo + n <= a.Length && tl + n <= temp.Length
    modifies a, temp
    ensures SortedSegment(old(a[..]), a[..], lo, lo + n)
    ensures SameOutside(temp[..], old(temp[..]), tl, tl + n)
    decreases n, 0
  {
    var mid := lo + half;
    var hi := mid + (n - half);
    assert hi == lo + n && hi - lo == n;
    ghost var a0, t0 := a[..], temp[..];
    MergeSort(a, lo, half, temp, tl, th);
    ghost var a1, t1 := a[..], temp[..];
    MergeSort(a, mid, n - half, temp, tl + half, th);
    ghost var t2 := temp[..];
    MergeBack(a, lo, mid, hi, temp, tl, th, a0, a1);
    ScratchFrame(t0, t1, t2, temp[..], tl, tl + half, tl + n);
  }

  /**
   * The tail of mergeSort: the runs `a[lo..mid)` and `a[mid..hi)`, each
   * sorted from what `a0` held there, are merged into `temp[tl..)` and the
   * result is copied back over them, which sorts the whole segment.
   */
  method MergeBack(a: array<Key>, lo: nat, mid: nat, hi: nat, temp: array<Key>, tl: nat, th: nat,
                   ghost a0: seq<Key>, ghost a1: seq<Key>)
    requires th >= 1
    requires a != temp && hi <= a.Length && tl + (hi - lo) <= temp.Length
    requires SortedSegment(a0, a1, lo, mid) && SortedSegment(a1, a[..], mid, hi)
    modifies a, temp
    ensures SortedSegment(a0, a[..], lo, hi)
    ensures SameOutside(temp[..], old(temp[..]), tl, tl + (hi - lo))
  {
    ghost var a2 := a[..];
    HalvesSorted(a0, a1, a2, lo, mid, hi);
    PMerge(a, lo, mid - lo, a, mid, hi - mid, temp, tl, th);
    var merged := temp[tl..tl+(hi-lo)];
    assert |merged| == hi - lo && merged == MergeSeq(a2[lo..mid], a2[mid..hi]);
    WriteBack(merged, a, lo);
    CopiedBack(a0, a2, a[..], lo, mid, hi);
  }

  /**
   * The merge of the two sorted halves, copied back over the segment,
   * leaves the segment sorted and holding the keys it held before.
   */
  lemma CopiedBack(a0: seq<Key>, a2: seq<Key>, a4: seq<Key>, lo: nat, mid: nat, hi: nat)
    requires lo <= mid <= hi <= |a0| == |a2| == |a4|
    requires Sorted(a2[lo..mid]) && Sorted(a2[mid..hi])
    requires multiset(a2[lo..mid]) + multiset(a2[mid..hi]) == multiset(a0[lo..hi])
    requires SameOutside(a2, a0, lo, hi)
    requires a4[lo..hi] == MergeSeq(a2[lo..mid], a2[mid..hi])
    requires SameOutside(a4, a2, lo, hi)
    ensures SortedSegment(a0, a4, lo, hi)
  {
    MergeSorted(a2[lo..mid], a2[mid..hi]);
    MergePermutes(a2[lo..mid], a2[mid..hi]);
  }

  /** The scratch window of mergeSort is the only part of the scratch buffer it changes. */
  lemma ScratchFrame(t0: seq<Key>, t1: seq<Key>, t2: seq<Key>, t3: seq<Key>, lo: nat, mid: nat, hi: nat)
    requires lo <= mid <= hi
    requires SameOutside(t1, t0, lo, mid)
    requires SameOutside(t2, t1, mid, hi)
    requires SameOutside(t3, t2, lo, hi)
    ensures SameOutside(t3, t0, lo, hi)
  {
  }

  /**
   * The two halves sorted one after the other: together they hold the keys
   * the segment held, and nothing outside the segment has changed.
   */
  lemma HalvesSorted(a0: seq<Key>, a1: seq<Key>, a2: seq<Key>, lo: nat, mid: nat, hi: nat)
    requires SortedSegment(a0, a1, lo, mid) && SortedSegment(a1, a2, mid, hi)
    ensures Sorted(a2[lo..mid]) && Sorted(a2[mid..hi])
    ensures multiset(a2[lo..mid]) + multiset(a2[mid..hi]) == multiset(a0[lo..hi])
    ensures SameOutside(a2, a0, lo, hi)
  {
    SameOutsideSlice(a2, a1, mid, hi, lo, mid);
    SameOutsideSlice(a1, a0, lo, mid, mid, hi);
    assert a0[lo..hi] == a0[lo..mid] + a0[mid..hi];
  }

  /** parallelSort: sorts `a[0..n)` by mergesort with a fresh scratch buffer. */
  method ParallelSort(n: nat, a: array<Key>)
    requires n <= a.Length
    modifies a
    ensures Sorted(a[..n])
    ensures multiset(a[..n]) == multiset(old(a[..n]))
    ensures a[n..] == old(a[n..])
  {
    var b := NewKeys(n);
    MergeSort(a, 0, n, b, 0, THRESHOLD);
    assert a[..n] == a[0..n];
  }

  // ---------------------------------------------------------------------
  // The split key as the C code computes it
  // ---------------------------------------------------------------------

  /**
   * pmerge stores the split key in an `int` and passes it back to
   * binarySearch as a `keytype`: the key keeps its low 32 bits, read as a
   * two's-complement value, which is then sign-extended to 64 bits. The
   * key survives only when it is below 2^31 or at least 2^64 - 2^31.
   */
  function SplitKeyAsWritten(k: Key): (x: Key)
    ensures x == k <==> k < 0x8000_0000 || KEY_BOUND - 0x8000_0000 <= k
  {
    var low := k % 0x1_0000_0000;
    if low < 0x8000_0000 then low else KEY_BOUND - 0x1_0000_0000 + low
  }

  /**
   * With the narrowed split key the two sub-merges no longer join into a
   * sorted run. For the left run [0, 2^31] and the right run [1, 2^31 + 1]
   * (both sub-merges at or below the threshold) the middle key 2^31 becomes
   * 2^64 - 2^31, the only rank binarySearch can return for it is 2, and the
   * lower merge ends with 2^31 + 1 while the upper merge is [2^31].
   */
  lemma TruncatedSplitMisorders()
    ensures SplitKeyAsWritten(0x8000_0000) == KEY_BOUND - 0x8000_0000
    ensures forall q: nat ::
              (q <= 2 && Below([1, 0x8000_0001][..q], KEY_BOUND - 0x8000_0000)
               && Above([1, 0x8000_0001][q..], KEY_BOUND - 0x8000_0000)) ==> q == 2
    ensures MergeSeq([0], [1, 0x8000_0001]) + MergeSeq([0x8000_0000], []) == [0, 1, 0x8000_0001, 0x8000_0000]
    ensures !Sorted(MergeSeq([0], [1, 0x8000_0001]) + MergeSeq([0x8000_0000], []))
  {
    var r: seq<Key> := [1, 0x8000_0001];
    forall q: nat | q < 2 ensures !Above(r[q..], KEY_BOUND - 0x8000_0000) {
      assert r[q..][1 - q] == 0x8000_0001;
    }
    assert MergeSeq([0], r) == [0] + MergeSeq([], r);
    var m := [0, 1, 0x8000_0001, 0x8000_0000];
    assert m[2] > m[3];
  }
}
