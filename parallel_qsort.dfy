/**
 * Parallel quicksort: a two-pass three-way partition around a pivot and a
 * recursion on the `<` and `>` runs. The two recursive calls that the C
 * code runs as OpenMP tasks are modelled as sequential calls on disjoint
 * segments `[lo, lo + n)` of one array.
 */
module ParallelQuicksort {
  import opened Sort

  /** The base-case size `G` of the C code. */
  const G: nat := 1250000

  /** Which run of the partition a key belongs to. */
  datatype Side = Less | Equal | Greater

  function SideOf(x: Key, pivot: Key): Side {
    if x < pivot then Less else if x == pivot then Equal else Greater
  }

  /**
   * The keys among the first `i` of `s` that fall on `side` of `pivot`, in
   * their order in `s`.
   */
  function Run(s: seq<Key>, i: nat, pivot: Key, side: Side): seq<Key>
    requires i <= |s|
  {
    if i == 0 then []
    else if SideOf(s[i-1], pivot) == side then Run(s, i - 1, pivot, side) + [s[i-1]]
    else Run(s, i - 1, pivot, side)
  }

  /** How many of the first `i` keys of `s` fall on `side` of `pivot`. */
  function Count(s: seq<Key>, i: nat, pivot: Key, side: Side): nat
    requires i <= |s|
  {
    if i == 0 then 0
    else Count(s, i - 1, pivot, side) + (if SideOf(s[i-1], pivot) == side then 1 else 0)
  }

  /** A run has as many keys as are counted on its side. */
  lemma {:induction false} RunLength(s: seq<Key>, i: nat, pivot: Key, side: Side)
    requires i <= |s|
    ensures |Run(s, i, pivot, side)| == Count(s, i, pivot, side)
  {
    if i > 0 {
      RunLength(s, i - 1, pivot, side);
    }
  }

  /** Every key of `s` lies on `side` of `pivot`. */
  ghost predicate AllOn(s: seq<Key>, pivot: Key, side: Side) {
    forall k :: 0 <= k < |s| ==> SideOf(s[k], pivot) == side
  }

  /** Every key of a run lies on that run's side of the pivot. */
  lemma {:induction false} RunOnSide(s: seq<Key>, i: nat, pivot: Key, side: Side)
    requires i <= |s|
    ensures AllOn(Run(s, i, pivot, side), pivot, side)
  {
    if i > 0 {
      RunOnSide(s, i - 1, pivot, side);
    }
  }

  /** The three counts add up to the number of keys scanned, whatever the pivot. */
  lemma {:induction false} CountsCover(s: seq<Key>, i: nat, pivot: Key)
    requires i <= |s|
    ensures Count(s, i, pivot, Less) + Count(s, i, pivot, Equal) + Count(s, i, pivot, Greater) == i
  {
    if i > 0 {
      CountsCover(s, i - 1, pivot);
    }
  }

  /**
   * A run holds every key of its side of the pivot, as often as the
   * scanned prefix does, and no other key.
   */
  lemma {:induction false} RunMultiplicity(s: seq<Key>, i: nat, pivot: Key, side: Side, v: Key)
    requires i <= |s|
    ensures multiset(Run(s, i, pivot, side))[v] == if SideOf(v, pivot) == side then multiset(s[..i])[v] else 0
  {
    if i > 0 {
      RunMultiplicity(s, i - 1, pivot, side, v);
      assert s[..i] == s[..i-1] + [s[i-1]];
    }
  }

  /** Laid end to end, the three runs of `s` are a permutation of `s`. */
  lemma RunsPermute(s: seq<Key>, n: nat, pivot: Key)
    requires n == |s|
    ensures multiset(Run(s, n, pivot, Less) + Run(s, n, pivot, Equal) + Run(s, n, pivot, Greater))
            == multiset(s)
  {
    var l, e, g := Run(s, n, pivot, Less), Run(s, n, pivot, Equal), Run(s, n, pivot, Greater);
    assert s[..n] == s;
    forall v: Key ensures multiset(l + e + g)[v] == multiset(s)[v] {
      RunMultiplicity(s, n, pivot, Less, v);
      RunMultiplicity(s, n, pivot, Equal, v);
      RunMultiplicity(s, n, pivot, Greater, v);
    }
  }

  /** Counts only grow as the scan goes on. */
  lemma {:induction false} CountMonotone(s: seq<Key>, i: nat, j: nat, pivot: Key, side: Side)
    requires i <= j <= |s|
    ensures Count(s, i, pivot, side) <= Count(s, j, pivot, side)
    decreases j - i
  {
    if i < j {
      CountMonotone(s, i, j - 1, pivot, side);
    }
  }

  /** A pivot drawn from the segment occurs in it at least once. */
  lemma {:induction false} PivotCounted(s: seq<Key>, i: nat, k: nat)
    requires k < i <= |s|
    ensures Count(s, i, s[k], Equal) >= 1
  {
    if k < i - 1 {
      PivotCounted(s, i - 1, k);
    }
  }

  /**
   * The counting pass of partition: how many of the `n` keys at `a[lo..]`
   * fall below, on and above `pivot`.
   */
  method CountRuns(pivot: Key, n: nat, a: array<Key>, lo: nat) returns (nLt: nat, nEq: nat, nGt: nat)
    requires lo + n <= a.Length
    ensures nLt == Count(a[lo..lo+n], n, pivot, Less)
    ensures nEq == Count(a[lo..lo+n], n, pivot, Equal)
    ensures nGt == Count(a[lo..lo+n], n, pivot, Greater)
    ensures nLt + nEq + nGt == n
  {
    ghost var s := a[lo..lo+n];
    nLt, nEq, nGt := 0, 0, 0;
    var i := 0;
    while i < n
      invariant 0 <= i <= n
      invariant nLt == Count(s, i, pivot, Less)
      invariant nEq == Count(s, i, pivot, Equal)
      invariant nGt == Count(s, i, pivot, Greater)
    {
      assert a[lo+i] == s[i];
      if a[lo+i] < pivot {
        nLt := nLt + 1;
      } else if a[lo+i] == pivot {
        nEq := nEq + 1;
      } else {
        nGt := nGt + 1;
      }
      i := i + 1;
    }
    CountsCover(s, n, pivot);
  }

  /**
   * Where the region of `side` starts when `nLt` keys fall below the pivot
   * and `nEq` on it: the `<` region at `lo`, the `=` region after it, the
   * `>` region last.
   */
  function RegionStart(side: Side, lo: nat, nLt: nat, nEq: nat): nat {
    match side
    case Less => lo
    case Equal => lo + nLt
    case Greater => lo + nLt + nEq
  }

  /**
   * The slot the scatter pass writes key `i` of `s` to: the next free
   * position of the region of its side.
   */
  function Slot(s: seq<Key>, i: nat, pivot: Key, lo: nat, nLt: nat, nEq: nat): nat
    requires i < |s|
  {
    var side := SideOf(s[i], pivot);
    RegionStart(side, lo, nLt, nEq) + Count(s, i, pivot, side)
  }

  /**
   * The contents of the array after the scatter pass has placed the first
   * `i` keys of `s` into `base`, one write per key, in order.
   */
  ghost function ScatterState(base: seq<Key>, s: seq<Key>, i: nat, pivot: Key, lo: nat, nLt: nat, nEq: nat)
    : seq<Key>
    requires i <= |s|
  {
    if i == 0 then base
    else
      var prev := ScatterState(base, s, i - 1, pivot, lo, nLt, nEq);
      var p := Slot(s, i - 1, pivot, lo, nLt, nEq);
      if p < |prev| then prev[p := s[i-1]] else prev
  }

  /** What a scatter over the whole of `s` is laid out for: the run lengths of `s` and room for `s`. */
  ghost predicate ScatterFits(base: seq<Key>, s: seq<Key>, pivot: Key, lo: nat, nLt: nat, nEq: nat) {
    lo + |s| <= |base| && nLt == Count(s, |s|, pivot, Less) && nEq == Count(s, |s|, pivot, Equal)
  }

  /** Every write of the scatter pass lands inside the segment, in the region of its key. */
  lemma SlotInRegion(base: seq<Key>, s: seq<Key>, i: nat, pivot: Key, lo: nat, nLt: nat, nEq: nat)
    requires ScatterFits(base, s, pivot, lo, nLt, nEq) && i < |s|
    ensures var side := SideOf(s[i], pivot);
            RegionStart(side, lo, nLt, nEq) <= Slot(s, i, pivot, lo, nLt, nEq)
            < RegionStart(side, lo, nLt, nEq) + Count(s, |s|, pivot, side)
    ensures Slot(s, i, pivot, lo, nLt, nEq) < lo + |s|
  {
    var side := SideOf(s[i], pivot);
    CountMonotone(s, i + 1, |s|, pivot, side);
    CountsCover(s, |s|, pivot);
  }

  /** The scatter pass keeps the length of the array. */
  lemma {:induction false} ScatterStateLength(base: seq<Key>, s: seq<Key>, i: nat, pivot: Key, lo: nat, nLt: nat,
                                              nEq: nat)
    requires i <= |s|
    ensures |ScatterState(base, s, i, pivot, lo, nLt, nEq)| == |base|
  {
    if i > 0 {
      ScatterStateLength(base, s, i - 1, pivot, lo, nLt, nEq);
    }
  }

  /** One more key scattered: the state so far with that key written at its slot. */
  lemma ScatterStateNext(base: seq<Key>, s: seq<Key>, i: nat, pivot: Key, lo: nat, nLt: nat, nEq: nat, p: nat)
    requires i < |s| && p == Slot(s, i, pivot, lo, nLt, nEq) && p < |base|
    ensures |ScatterState(base, s, i, pivot, lo, nLt, nEq)| == |base|
    ensures ScatterState(base, s, i + 1, pivot, lo, nLt, nEq) == ScatterState(base, s, i, pivot, lo, nLt, nEq)[p := s[i]]
  {
    ScatterStateLength(base, s, i, pivot, lo, nLt, nEq);
  }

  /** The scatter pass changes nothing outside the segment and keeps the length. */
  lemma {:induction false} ScatterStateFrame(base: seq<Key>, s: seq<Key>, i: nat, pivot: Key, lo: nat, nLt: nat,
                                             nEq: nat)
    requires ScatterFits(base, s, pivot, lo, nLt, nEq) && i <= |s|
    ensures SameOutside(ScatterState(base, s, i, pivot, lo, nLt, nEq), base, lo, lo + |s|)
  {
    if i > 0 {
      ScatterStateFrame(base, s, i - 1, pivot, lo, nLt, nEq);
      SlotInRegion(base, s, i - 1, pivot, lo, nLt, nEq);
    }
  }

  /**
   * After `i` keys, the region of each side starts with the run of that
   * side among the first `i` keys, in order.
   */
  lemma {:induction false} ScatterStateRegion(base: seq<Key>, s: seq<Key>, i: nat, pivot: Key, lo: nat, nLt: nat,
                                              nEq: nat, side: Side)
    requires ScatterFits(base, s, pivot, lo, nLt, nEq) && i <= |s|
    ensures |ScatterState(base, s, i, pivot, lo, nLt, nEq)| == |base|
    ensures RegionStart(side, lo, nLt, nEq) + Count(s, i, pivot, side) <= |base|
    ensures var start := RegionStart(side, lo, nLt, nEq);
            ScatterState(base, s, i, pivot, lo, nLt, nEq)[start..start + Count(s, i, pivot, side)]
            == Run(s, i, pivot, side)
  {
    CountsCover(s, |s|, pivot);
    CountMonotone(s, i, |s|, pivot, side);
    ScatterStateLength(base, s, i, pivot, lo, nLt, nEq);
    if i > 0 {
      ScatterStateRegion(base, s, i - 1, pivot, lo, nLt, nEq, side);
      RegionStep(base, s, i, pivot, lo, nLt, nEq, side);
    }
  }

  /** The inductive step of `ScatterStateRegion`: one more key written keeps each region a run. */
  lemma RegionStep(base: seq<Key>, s: seq<Key>, i: nat, pivot: Key, lo: nat, nLt: nat, nEq: nat, side: Side)
    requires ScatterFits(base, s, pivot, lo, nLt, nEq) && 0 < i <= |s|
    requires |ScatterState(base, s, i - 1, pivot, lo, nLt, nEq)| == |base|
    requires RegionStart(side, lo, nLt, nEq) + Count(s, i, pivot, side) <= |base|
    requires var start := RegionStart(side, lo, nLt, nEq);
             ScatterState(base, s, i - 1, pivot, lo, nLt, nEq)[start..start + Count(s, i - 1, pivot, side)]
             == Run(s, i - 1, pivot, side)
    ensures var start := RegionStart(side, lo, nLt, nEq);
            ScatterState(base, s, i, pivot, lo, nLt, nEq)[start..start + Count(s, i, pivot, side)]
            == Run(s, i, pivot, side)
  {
    SlotInRegion(base, s, i - 1, pivot, lo, nLt, nEq);
    var prev := ScatterState(base, s, i - 1, pivot, lo, nLt, nEq);
    var p := Slot(s, i - 1, pivot, lo, nLt, nEq);
    assert ScatterState(base, s, i, pivot, lo, nLt, nEq) == prev[p := s[i-1]];
    if SideOf(s[i-1], pivot) == side {
      RegionGrows(prev, s, i, pivot, lo, nLt, nEq, side, p);
    } else {
      CountMonotone(s, i - 1, |s|, pivot, side);
      RegionKept(prev, s, i, pivot, lo, nLt, nEq, side, p);
    }
  }

  /** A key written at the end of its own region extends the run there by that key. */
  lemma RegionGrows(prev: seq<Key>, s: seq<Key>, i: nat, pivot: Key, lo: nat, nLt: nat, nEq: nat, side: Side, p: nat)
    requires 0 < i <= |s| && SideOf(s[i-1], pivot) == side
    requires p == RegionStart(side, lo, nLt, nEq) + Count(s, i - 1, pivot, side) < |prev|
    requires var start := RegionStart(side, lo, nLt, nEq);
             prev[start..start + Count(s, i - 1, pivot, side)] == Run(s, i - 1, pivot, side)
    ensures var start := RegionStart(side, lo, nLt, nEq);
            p == start + Count(s, i - 1, pivot, side)
            && prev[p := s[i-1]][start..start + Count(s, i, pivot, side)] == Run(s, i, pivot, side)
  {
    WriteExtends(prev, p, s[i-1], RegionStart(side, lo, nLt, nEq));
  }

  /** A key written outside a region leaves the run there as it was. */
  lemma RegionKept(prev: seq<Key>, s: seq<Key>, i: nat, pivot: Key, lo: nat, nLt: nat, nEq: nat, side: Side, p: nat)
    requires 0 < i <= |s| && SideOf(s[i-1], pivot) != side && p < |prev|
    requires var start := RegionStart(side, lo, nLt, nEq);
             var end := start + Count(s, i - 1, pivot, side);
             end <= |prev| && (p < start || end <= p) && prev[start..end] == Run(s, i - 1, pivot, side)
    ensures var start := RegionStart(side, lo, nLt, nEq);
            prev[p := s[i-1]][start..start + Count(s, i, pivot, side)] == Run(s, i, pivot, side)
  {
    var start := RegionStart(side, lo, nLt, nEq);
    WriteElsewhere(prev, p, s[i-1], start, start + Count(s, i - 1, pivot, side));
  }

  /**
   * A segment whose three regions hold the three runs of `s` holds them end
   * to end, each region on its side of the pivot, and is a permutation of `s`.
   */
  lemma RunsLaidOut(t: seq<Key>, s: seq<Key>, n: nat, pivot: Key, lo: nat, nLt: nat, nEq: nat)
    requires n == |s| && lo + nLt + nEq <= lo + n <= |t|
    requires t[lo..lo+nLt] == Run(s, n, pivot, Less)
    requires t[lo+nLt..lo+nLt+nEq] == Run(s, n, pivot, Equal)
    requires t[lo+nLt+nEq..lo+n] == Run(s, n, pivot, Greater)
    ensures t[lo..lo+n] == Run(s, n, pivot, Less) + Run(s, n, pivot, Equal) + Run(s, n, pivot, Greater)
    ensures AllOn(t[lo..lo+nLt], pivot, Less)
    ensures AllOn(t[lo+nLt..lo+nLt+nEq], pivot, Equal)
    ensures AllOn(t[lo+nLt+nEq..lo+n], pivot, Greater)
    ensures multiset(t[lo..lo+n]) == multiset(s)
  {
    RunOnSide(s, n, pivot, Less);
    RunOnSide(s, n, pivot, Equal);
    RunOnSide(s, n, pivot, Greater);
    SlicesJoin(t, lo, lo + nLt, lo + nLt + nEq, lo + n,
               Run(s, n, pivot, Less), Run(s, n, pivot, Equal), Run(s, n, pivot, Greater));
    RunsPermute(s, n, pivot);
  }

  /** After the whole scatter pass, the three regions of the segment hold the three runs. */
  lemma ScatterRegions(base: seq<Key>, s: seq<Key>, n: nat, pivot: Key, lo: nat, nLt: nat, nEq: nat)
    requires n == |s| && lo + n <= |base|
    requires nLt == Count(s, n, pivot, Less) && nEq == Count(s, n, pivot, Equal)
    ensures |ScatterState(base, s, n, pivot, lo, nLt, nEq)| == |base|
    ensures nLt + nEq + Count(s, n, pivot, Greater) == n
    ensures ScatterState(base, s, n, pivot, lo, nLt, nEq)[lo..lo+nLt] == Run(s, n, pivot, Less)
    ensures ScatterState(base, s, n, pivot, lo, nLt, nEq)[lo+nLt..lo+nLt+nEq] == Run(s, n, pivot, Equal)
    ensures ScatterState(base, s, n, pivot, lo, nLt, nEq)[lo+nLt+nEq..lo+n] == Run(s, n, pivot, Greater)
    ensures SameOutside(ScatterState(base, s, n, pivot, lo, nLt, nEq), base, lo, lo + n)
  {
    assert ScatterFits(base, s, pivot, lo, nLt, nEq);
    CountsCover(s, n, pivot);
    ScatterStateFrame(base, s, n, pivot, lo, nLt, nEq);
    ScatterStateLength(base, s, n, pivot, lo, nLt, nEq);
    RegionAt(base, s, n, pivot, lo, nLt, nEq, Less, lo, lo + nLt);
    RegionAt(base, s, n, pivot, lo, nLt, nEq, Equal, lo + nLt, lo + nLt + nEq);
    RegionAt(base, s, n, pivot, lo, nLt, nEq, Greater, lo + nLt + nEq, lo + n);
  }

  /** `ScatterStateRegion` with the bounds of the region named by the caller. */
  lemma RegionAt(base: seq<Key>, s: seq<Key>, n: nat, pivot: Key, lo: nat, nLt: nat, nEq: nat, side: Side,
                 start: nat, end: nat)
    requires ScatterFits(base, s, pivot, lo, nLt, nEq) && n == |s|
    requires start == RegionStart(side, lo, nLt, nEq) && end == start + Count(s, n, pivot, side)
    ensures start <= end <= |ScatterState(base, s, n, pivot, lo, nLt, nEq)|
    ensures ScatterState(base, s, n, pivot, lo, nLt, nEq)[start..end] == Run(s, n, pivot, side)
  {
    ScatterStateRegion(base, s, n, pivot, lo, nLt, nEq, side);
  }

  /** The counters of the scatter pass after its first `i` keys. */
  ghost predicate Cursors(s: seq<Key>, i: nat, pivot: Key, nLt: nat, nEq: nat, iLt: nat, iEq: nat, iGt: nat)
    requires i <= |s|
  {
    iLt == Count(s, i, pivot, Less) && iEq == nLt + Count(s, i, pivot, Equal)
    && iGt == nLt + nEq + Count(s, i, pivot, Greater)
  }

  /** One step of the scatter pass: key `i` of the copy goes to the next free slot of its region. */
  method Place(pivot: Key, orig: array<Key>, i: nat, a: array<Key>, lo: nat, nLt: nat, nEq: nat,
               iLt: nat, iEq: nat, iGt: nat, ghost base: seq<Key>)
    returns (iLt': nat, iEq': nat, iGt': nat)
    requires i < orig.Length && orig != a
    requires ScatterFits(base, orig[..], pivot, lo, nLt, nEq) && |base| == a.Length
    requires Cursors(orig[..], i, pivot, nLt, nEq, iLt, iEq, iGt)
    requires a[..] == ScatterState(base, orig[..], i, pivot, lo, nLt, nEq)
    modifies a
    ensures Cursors(orig[..], i + 1, pivot, nLt, nEq, iLt', iEq', iGt')
    ensures a[..] == ScatterState(base, orig[..], i + 1, pivot, lo, nLt, nEq)
  {
    ghost var s := orig[..];
    var ai := orig[i];
    assert ai == s[i];
    CountsCover(s, |s|, pivot);
    iLt', iEq', iGt' := iLt, iEq, iGt;
    if ai < pivot {
      CountMonotone(s, i + 1, |s|, pivot, Less);
      ScatterStateNext(base, s, i, pivot, lo, nLt, nEq, lo + iLt);
      a[lo+iLt] := ai;
      iLt' := iLt + 1;
    } else if ai > pivot {
      CountMonotone(s, i + 1, |s|, pivot, Greater);
      ScatterStateNext(base, s, i, pivot, lo, nLt, nEq, lo + iGt);
      a[lo+iGt] := ai;
      iGt' := iGt + 1;
    } else {
      CountMonotone(s, i + 1, |s|, pivot, Equal);
      ScatterStateNext(base, s, i, pivot, lo, nLt, nEq, lo + iEq);
      a[lo+iEq] := ai;
      iEq' := iEq + 1;
    }
  }

  /**
   * The scatter pass of partition: copies each key of a snapshot of the
   * segment into its run through one write cursor per run. Run
   * sequentially, it keeps the order of the keys within each run, and it
   * returns the three cursors, which end at the ends of their regions.
   */
  method Scatter(pivot: Key, n: nat, a: array<Key>, lo: nat, nLt: nat, nEq: nat)
    returns (iLt: nat, iEq: nat, iGt: nat)
    requires lo + n <= a.Length
    requires nLt == Count(a[lo..lo+n], n, pivot, Less)
    requires nEq == Count(a[lo..lo+n], n, pivot, Equal)
    modifies a
    ensures a[..] == ScatterState(old(a[..]), old(a[lo..lo+n]), n, pivot, lo, nLt, nEq)
    ensures iLt == nLt && iEq == nLt + nEq && iGt == n
  {
    ghost var base := a[..];
    ghost var s := a[lo..lo+n];
    var orig := NewCopy(n, a, lo);
    assert ScatterFits(base, s, pivot, lo, nLt, nEq);
    iLt, iEq, iGt := 0, nLt, nLt + nEq;
    var i := 0;
    while i < n
      invariant 0 <= i <= n
      invariant orig[..] == s
      invariant Cursors(s, i, pivot, nLt, nEq, iLt, iEq, iGt)
      invariant a[..] == ScatterState(base, s, i, pivot, lo, nLt, nEq)
    {
      iLt, iEq, iGt := Place(pivot, orig, i, a, lo, nLt, nEq, iLt, iEq, iGt, base);
      i := i + 1;
    }
    CountsCover(s, n, pivot);
  }

  /**
   * partition: rearranges the `n` keys at `a[lo..]` into the keys below
   * `pivot`, then those equal to it, then those above it, and returns the
   * three run lengths. Each run keeps the order its keys had.
   */
  method Partition(pivot: Key, n: nat, a: array<Key>, lo: nat) returns (nLt: nat, nEq: nat, nGt: nat)
    requires lo + n <= a.Length
    modifies a
    ensures nLt == Count(old(a[lo..lo+n]), n, pivot, Less)
    ensures nEq == Count(old(a[lo..lo+n]), n, pivot, Equal)
    ensures nGt == Count(old(a[lo..lo+n]), n, pivot, Greater)
    ensures a[lo..lo+n] == Run(old(a[lo..lo+n]), n, pivot, Less) + Run(old(a[lo..lo+n]), n, pivot, Equal)
                           + Run(old(a[lo..lo+n]), n, pivot, Greater)
    ensures nLt + nEq + nGt == n
    ensures AllOn(a[lo..lo+nLt], pivot, Less)
    ensures AllOn(a[lo+nLt..lo+nLt+nEq], pivot, Equal)
    ensures AllOn(a[lo+nLt+nEq..lo+n], pivot, Greater)
    ensures multiset(a[lo..lo+n]) == multiset(old(a[lo..lo+n]))
    ensures SameOutside(a[..], old(a[..]), lo, lo + n)
  {
    ghost var s := a[lo..lo+n];
    ghost var base := a[..];
    nLt, nEq, nGt := CountRuns(pivot, n, a, lo);
    var iLt, iEq, iGt := Scatter(pivot, n, a, lo, nLt, nEq);
    assert iLt == nLt && iEq == nLt + nEq && iGt == n;
    ScatterRegions(base, s, n, pivot, lo, nLt, nEq);
    RunsLaidOut(a[..], s, n, pivot, lo, nLt, nEq);
  }

  /** `[lo, mid)` of `s` lies below `pivot`, `[mid, hi)` equals it and `[hi, end)` lies above it. */
  ghost predicate Partitioned(s: seq<Key>, lo: int, mid: int, hi: int, end: int, pivot: Key)
    requires 0 <= lo <= mid <= hi <= end <= |s|
  {
    AllOn(s[lo..mid], pivot, Less) && AllOn(s[mid..hi], pivot, Equal) && AllOn(s[hi..end], pivot, Greater)
  }

  /**
   * After partition and the two recursive sorts: `a1` is the partitioned
   * segment `[lo, end)`, `a2` has `[lo, mid)` sorted, `a3` has `[hi, end)`
   * sorted as well. The whole segment of `a3` is then sorted, a permutation
   * of the partitioned one, and nothing outside it has moved.
   */
  lemma JoinSegments(a1: seq<Key>, a2: seq<Key>, a3: seq<Key>, lo: nat, mid: nat, hi: nat, nGreater: nat, end: nat,
                     pivot: Key)
    requires lo <= mid <= hi <= end <= |a1| == |a2| == |a3| && hi + nGreater == end
    requires Partitioned(a1, lo, mid, hi, end, pivot)
    requires SortedSegment(a1, a2, lo, mid) && SortedSegment(a2, a3, hi, hi + nGreater)
    ensures SortedSegment(a1, a3, lo, end)
  {
    SameOutsideSlice(a3, a2, hi, end, lo, mid);
    SameOutsideSlice(a3, a2, hi, end, mid, hi);
    SameOutsideSlice(a2, a1, lo, mid, mid, hi);
    SameOutsideSlice(a2, a1, lo, mid, hi, end);
    Assemble(a1[lo..mid], a1[mid..hi], a1[hi..end], a3[lo..mid], a3[hi..end], pivot);
    assert a3[lo..end] == a3[lo..mid] + a3[mid..hi] + a3[hi..end];
    assert a1[lo..end] == a1[lo..mid] + a1[mid..hi] + a1[hi..end];
  }

  /**
   * The `<` run sorted, then the `=` run, then the `>` run sorted, form a
   * sorted permutation of the three runs.
   */
  lemma Assemble(l0: seq<Key>, e: seq<Key>, r0: seq<Key>, l: seq<Key>, r: seq<Key>, pivot: Key)
    requires AllOn(l0, pivot, Less) && AllOn(e, pivot, Equal) && AllOn(r0, pivot, Greater)
    requires Sorted(l) && multiset(l) == multiset(l0)
    requires Sorted(r) && multiset(r) == multiset(r0)
    ensures Sorted(l + e + r)
    ensures multiset(l + e + r) == multiset(l0 + e + r0)
  {
    assert Below(l0, pivot);
    assert Above(r0, pivot);
    PermBounds(l, l0, pivot);
    PermBounds(r, r0, pivot);
    assert Sorted(e) && Below(e, pivot) && Above(e, pivot);
    SortedJoin(e, r, pivot);
    SortedJoin(l, e + r, pivot);
    assert l + e + r == l + (e + r);
  }

  /** `r % n`: the position of the pivot drawn from a segment of `n` keys. */
  function PivotIndex(r: nat, n: nat): (k: nat)
    requires n > 0
    ensures k < n
  {
    r % n
  }

  /**
   * quickSort: sorts the `n` keys at `a[lo..]`. Segments shorter than `g`
   * go to the sequential sort; otherwise a pivot is drawn from the
   * segment (`rand(lo, n) % n` stands for `rand() % N`), the segment is
   * partitioned, and the `<` and `>` runs are sorted recursively. The run
   * of keys equal to the pivot is left where partition put it.
   */
  method QuickSort(n: nat, a: array<Key>, lo: nat, g: nat, rand: (nat, nat) -> nat)
    requires g >= 1
    requires lo + n <= a.Length
    modifies a
    ensures SortedSegment(old(a[..]), a[..], lo, lo + n)
    decreases n, 1
  {
    if n < g {
      SequentialSort(n, a, lo);
    } else {
      ghost var s := a[lo..lo+n];
      var k := PivotIndex(rand(lo, n), n);
      var pivot := a[lo + k];
      assert pivot == s[k];
      PivotCounted(s, n, k);
      var nLess, nEqual, nGreater := Partition(pivot, n, a, lo);
      ghost var a1 := a[..];
      SortAroundPivot(a, lo, n, nLess, nEqual, pivot, g, rand);
      SameOutsideTrans(a[..], a1, old(a[..]), lo, lo + n);
    }
  }

  /**
   * The two tasks of quickSort: with the `n` keys at `a[lo..]` partitioned
   * into `nLess` keys below `pivot`, then `nEqual` keys equal to it, then
   * the keys above it, sorts the first and the last run recursively, which
   * sorts the whole segment.
   */
  method SortAroundPivot(a: array<Key>, lo: nat, n: nat, nLess: nat, nEqual: nat, pivot: Key,
                         g: nat, rand: (nat, nat) -> nat)
    requires g >= 1 && nEqual >= 1
    requires nLess + nEqual <= n && lo + n <= a.Length
    requires Partitioned(a[..], lo, lo + nLess, lo + nLess + nEqual, lo + n, pivot)
    modifies a
    ensures SortedSegment(old(a[..]), a[..], lo, lo + n)
    decreases n, 0
  {
    var mid := lo + nLess;
    var hi := mid + nEqual;
    var nGreater := n - nLess - nEqual;
    QuickSort(nLess, a, lo, g, rand);
    ghost var a2 := a[..];
    QuickSort(nGreater, a, hi, g, rand);
    ghost var a3 := a[..];
    JoinSegments(old(a[..]), a2, a3, lo, mid, hi, nGreater, lo + n, pivot);
    assert a[lo..lo+n] == a3[lo..lo+n];
  }

  /** parallelSort: sorts `a[0..n)` with quicksort and base-case size `G`. */
  method ParallelSort(n: nat, a: array<Key>, rand: (nat, nat) -> nat)
    requires n <= a.Length
    modifies a
    ensures Sorted(a[..n])
    ensures multiset(a[..n]) == multiset(old(a[..n]))
    ensures a[n..] == old(a[n..])
  {
    QuickSort(n, a, 0, G, rand);
    assert a[..n] == a[0..n];
  }
}
