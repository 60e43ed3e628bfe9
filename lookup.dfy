/**
 * Content lookup: search every pool from the head back to the root. The sorted root pool is
 * first narrowed by binary search to a window of at most two entries; then the window (the whole
 * pool for an unsorted pool) is scanned for an entry with the same hash, length and bytes.
 */
module Lookup {
  import opened IstrConfig
  import opened Hash
  import opened Order
  import opened PoolChain

  /** The test of the sequential scan: stored hash, stored length and bytes all agree. */
  predicate Matches(chunks: seq<seq<byte>>, e: Entry, s: seq<byte>, h: nat) {
    e.hash == h && e.len == |s| && Content(chunks, e) == s
  }

  /** The comparisons the binary search may make: strncmp(s, content, |s|) for each entry. */
  function Probes(pool: Pool, chunks: seq<seq<byte>>, s: seq<byte>): (r: seq<int>)
    ensures |r| == |pool.entries|
  {
    ProbesTo(pool.entries, chunks, s, |pool.entries|)
  }

  /** The comparisons with the first `n` entries. */
  function ProbesTo(es: seq<Entry>, chunks: seq<seq<byte>>, s: seq<byte>, n: nat): (r: seq<int>)
    requires n <= |es|
    ensures |r| == n
  {
    if n == 0 then [] else ProbesTo(es, chunks, s, n - 1) + [StrnCmp(s, Content(chunks, es[n - 1]), |s|)]
  }

  /** Comparison `i` is the comparison of `s` with entry `i`. */
  lemma {:induction false} ProbeAt(es: seq<Entry>, chunks: seq<seq<byte>>, s: seq<byte>, n: nat, i: nat)
    requires i < n <= |es|
    ensures ProbesTo(es, chunks, s, n)[i] == StrnCmp(s, Content(chunks, es[i]), |s|)
  {
    if i < n - 1 {
      ProbeAt(es, chunks, s, n - 1, i);
    }
  }

  /**
   * The window the binary search of istr.c ends with, started from `[low, high]`, given the
   * comparison `cmp[i]` of the input with each entry: halve until at most two entries remain,
   * keeping the lower half when the input compares at or below the middle entry.
   */
  function Narrow(cmp: seq<int>, low: nat, high: nat): (r: Span)
    requires low <= high < |cmp|
    ensures low <= r.low <= r.high <= high && r.high - r.low <= 1
    decreases high - low
  {
    if high - low <= 1 then Span(low, high)
    else if cmp[Mid(low, high)] <= 0 then Narrow(cmp, low, Mid(low, high))
    else Narrow(cmp, Mid(low, high), high)
  }

  /** The middle of a window of three or more entries, rounded down. */
  function Mid(low: nat, high: nat): (m: nat)
    requires low + 1 < high
    ensures low < m < high
  {
    (low + high) / 2
  }

  /** A window `[low, high]` of a pool, both ends included. */
  datatype Span = Span(low: nat, high: nat)

  /** The window of a pool's binary search for `s`. */
  function Window(pool: Pool, chunks: seq<seq<byte>>, s: seq<byte>): Span
    requires |pool.entries| >= 1
  {
    Narrow(Probes(pool, chunks, s), 0, |pool.entries| - 1)
  }

  /** The window is `Narrow` over the comparisons with every entry. */
  lemma WindowIs(pool: Pool, chunks: seq<seq<byte>>, s: seq<byte>)
    requires |pool.entries| >= 1
    ensures Window(pool, chunks, s) == Narrow(Probes(pool, chunks, s), 0, |pool.entries| - 1)
  {
  }

  /**
   * Halving never loses position `k` when the input compares above every entry before `k`
   * and at or below every entry from `k` on.
   */
  lemma {:induction false} NarrowKeeps(cmp: seq<int>, low: nat, high: nat, k: nat)
    requires low <= k <= high < |cmp|
    requires forall i :: 0 <= i < k ==> cmp[i] > 0
    requires forall i :: k <= i < |cmp| ==> cmp[i] <= 0
    ensures Narrow(cmp, low, high).low <= k <= Narrow(cmp, low, high).high
    decreases high - low
  {
    if high - low > 1 {
      var mid := Mid(low, high);
      if cmp[mid] <= 0 {
        NarrowKeeps(cmp, low, mid, k);
      } else {
        NarrowKeeps(cmp, mid, high, k);
      }
    }
  }

  /** One comparison of the binary search: strncmp(str, pool->qstrs[mid], str_len). */
  method Compare(pool: Pool, chunks: seq<seq<byte>>, s: seq<byte>, mid: nat) returns (cmp: int)
    requires mid < |pool.entries|
    ensures cmp == Probes(pool, chunks, s)[mid]
  {
    cmp := StrnCmp(s, Content(chunks, pool.entries[mid]), |s|);
    ProbeAt(pool.entries, chunks, s, |pool.entries|, mid);
  }

  /** One halving step of `Narrow`. */
  lemma NarrowStep(cmp: seq<int>, low: nat, high: nat)
    requires low + 1 < high < |cmp|
    ensures (low + high) / 2 == Mid(low, high)
    ensures Narrow(cmp, low, high) ==
      if cmp[Mid(low, high)] <= 0 then Narrow(cmp, low, Mid(low, high)) else Narrow(cmp, Mid(low, high), high)
  {
  }

  /**
   * The binary search over a pool flagged sorted. It ends with the pool's `Window`, of one or
   * two entries; when the pool really is sorted and holds no duplicate non-empty content, any
   * entry equal to `s` lies inside the window.
   */
  method BinaryNarrow(pool: Pool, chunks: seq<seq<byte>>, s: seq<byte>) returns (low: nat, high: nat)
    requires |pool.entries| >= 1 && |s| > 0
    ensures Span(low, high) == Window(pool, chunks, s)
    ensures low <= high < |pool.entries| && high - low <= 1
    ensures Sorted(pool, chunks) && Unique(pool.entries, chunks) ==>
      forall k :: 0 <= k < |pool.entries| && Content(chunks, pool.entries[k]) == s ==> low <= k <= high
  {
    var es := pool.entries;
    ghost var cmps := Probes(pool, chunks, s);
    low, high := 0, |es| - 1;
    while high - low > 1
      invariant low <= high < |es|
      invariant Narrow(cmps, low, high) == Narrow(cmps, 0, |es| - 1)
      decreases high - low
    {
      var mid := (low + high) / 2;
      var cmp := Compare(pool, chunks, s, mid);
      NarrowStep(cmps, low, high);
      if cmp <= 0 {
        high := mid;
      } else {
        low := mid;
      }
    }
    assert Narrow(cmps, low, high) == Span(low, high);
    WindowIs(pool, chunks, s);
    if Sorted(pool, chunks) && Unique(es, chunks) {
      WindowHolds(pool, chunks, s);
    }
  }

  /** In a sorted, duplicate-free pool the window of the binary search holds every entry equal to `s`. */
  lemma WindowHolds(pool: Pool, chunks: seq<seq<byte>>, s: seq<byte>)
    requires |pool.entries| >= 1 && |s| > 0 && Sorted(pool, chunks) && Unique(pool.entries, chunks)
    ensures forall k :: 0 <= k < |pool.entries| && Content(chunks, pool.entries[k]) == s ==>
      Window(pool, chunks, s).low <= k <= Window(pool, chunks, s).high
  {
    forall k | 0 <= k < |pool.entries| && Content(chunks, pool.entries[k]) == s
      ensures Window(pool, chunks, s).low <= k <= Window(pool, chunks, s).high
    {
      ProbesSplit(pool, chunks, s, k);
      WindowKeeps(pool, chunks, s, k);
    }
  }

  /** The window of a pool keeps `k` when the comparisons split at `k`. */
  lemma WindowKeeps(pool: Pool, chunks: seq<seq<byte>>, s: seq<byte>, k: nat)
    requires k < |pool.entries|
    requires forall i :: 0 <= i < k ==> Probes(pool, chunks, s)[i] > 0
    requires forall i :: k <= i < |pool.entries| ==> Probes(pool, chunks, s)[i] <= 0
    ensures Window(pool, chunks, s).low <= k <= Window(pool, chunks, s).high
  {
    var cmp := Probes(pool, chunks, s);
    NarrowKeeps(cmp, 0, |pool.entries| - 1, k);
    assert Window(pool, chunks, s) == Narrow(cmp, 0, |pool.entries| - 1);
  }

  /**
   * In a sorted, duplicate-free pool where entry `k` holds `s`, the input compares above every
   * entry before `k` and at or below every entry from `k` on.
   */
  lemma ProbesSplit(pool: Pool, chunks: seq<seq<byte>>, s: seq<byte>, k: nat)
    requires |s| > 0 && Sorted(pool, chunks) && Unique(pool.entries, chunks)
    requires k < |pool.entries| && Content(chunks, pool.entries[k]) == s
    ensures forall i :: 0 <= i < k ==> Probes(pool, chunks, s)[i] > 0
    ensures forall i :: k <= i < |pool.entries| ==> Probes(pool, chunks, s)[i] <= 0
  {
    var es := pool.entries;
    var cmps := Probes(pool, chunks, s);
    assert Take(s, |s|) == s;
    forall i | 0 <= i < k
      ensures cmps[i] > 0
    {
      var e := Content(chunks, es[i]);
      assert LexCmp(e, s) <= 0 && e != s;
      CutBelow(e, s);
      ProbeAt(es, chunks, s, |es|, i);
    }
    forall i | k <= i < |es|
      ensures cmps[i] <= 0
    {
      var e := Content(chunks, es[i]);
      if i > k {
        assert LexCmp(s, e) <= 0;
      }
      CutAbove(s, e);
      ProbeAt(es, chunks, s, |es|, i);
    }
  }

  /** Whether the scan of a pool reaches entry `k`: all of an unsorted pool, the window of a sorted one. */
  predicate InWindow(pool: Pool, chunks: seq<seq<byte>>, s: seq<byte>, k: nat) {
    && k < |pool.entries|
    && (pool.isSorted ==> Window(pool, chunks, s).low <= k <= Window(pool, chunks, s).high)
  }

  /**
   * The search in one pool. It reports an entry exactly when some entry the scan reaches
   * matches, and the one it reports is the first such entry. A miss means that no entry of the pool
   * matches, provided an unsorted pool or a sorted pool that really is sorted and duplicate-free.
   */
  method SearchPool(pool: Pool, chunks: seq<seq<byte>>, s: seq<byte>, h: nat) returns (found: bool, at: nat)
    requires |s| > 0
    requires pool.isSorted ==> |pool.entries| >= 1
    ensures found == exists k: nat :: InWindow(pool, chunks, s, k) && Matches(chunks, pool.entries[k], s, h)
    ensures found ==> InWindow(pool, chunks, s, at) && Matches(chunks, pool.entries[at], s, h)
    ensures found ==> forall k: nat :: k < at && InWindow(pool, chunks, s, k) ==>
      !Matches(chunks, pool.entries[k], s, h)
    ensures !found && (!pool.isSorted || (Sorted(pool, chunks) && Unique(pool.entries, chunks))) ==>
      forall k :: 0 <= k < |pool.entries| ==> !Matches(chunks, pool.entries[k], s, h)
  {
    var es := pool.entries;
    var low: int, high: int := 0, |es| - 1;
    if pool.isSorted {
      var l, r := BinaryNarrow(pool, chunks, s);
      low, high := l, r;
    }
    var i: int := low;
    while i < high + 1
      invariant 0 <= low <= i <= high + 1 <= |es|
      invariant forall k :: low <= k < i ==> !Matches(chunks, es[k], s, h)
      invariant forall k: nat :: InWindow(pool, chunks, s, k) ==> low <= k <= high
    {
      if es[i].hash == h && es[i].len == |s| && Content(chunks, es[i]) == s {
        return true, i;
      }
      i := i + 1;
    }
    return false, 0;
  }

  lemma RootUnique(pools: seq<Pool>, chunks: seq<seq<byte>>)
    requires WellFormed(pools, chunks)
    ensures Unique(pools[0].entries, chunks)
  {
    var es := pools[0].entries;
    forall i, j | 0 <= i < j < |es| && |Content(chunks, es[j])| > 0
      ensures Content(chunks, es[i]) != Content(chunks, es[j])
    {
      FlatAt(pools, 0, i);
      FlatAt(pools, 0, j);
    }
  }

  /** A stored entry with the content `s` passes the scan's test for `s`. */
  lemma StoredMatches(pools: seq<Pool>, chunks: seq<seq<byte>>, p: nat, k: nat, s: seq<byte>)
    requires WellFormed(pools, chunks) && p < |pools| && k < |pools[p].entries| && |s| > 0
    requires Content(chunks, pools[p].entries[k]) == s
    ensures Matches(chunks, pools[p].entries[k], s, HashOf(s))
  {
    FlatAt(pools, p, k);
    assert EntryOk(chunks, Flat(pools)[pools[p].totalPrevLen + k]);
  }

  /**
   * qstr_find_strn. Empty input gives `emptyId` (the generated id ISTR_) at once. Otherwise a
   * non-null result names an entry with the same hash, length and bytes as `s`, and a null
   * result means that no entry of any pool holds `s`.
   */
  method FindStrn(pools: seq<Pool>, chunks: seq<seq<byte>>, emptyId: nat, s: seq<byte>) returns (q: nat)
    requires WellFormed(pools, chunks)
    ensures |s| == 0 ==> q == emptyId
    ensures |s| > 0 && q != NULL ==> q < Total(pools) && Matches(chunks, Flat(pools)[q], s, HashOf(s))
    ensures |s| > 0 && q == NULL ==> s !in Contents(Flat(pools), chunks)
  {
    if |s| == 0 {
      return emptyId;
    }
    var h := ComputeHash(s);
    RootUnique(pools, chunks);
    var p: nat := |pools|;
    while p > 0
      invariant p <= |pools|
      invariant forall p', k :: p <= p' < |pools| && 0 <= k < |pools[p'].entries| ==>
        Content(chunks, pools[p'].entries[k]) != s
    {
      p := p - 1;
      var found, at := SearchPool(pools[p], chunks, s, h);
      if found {
        q := pools[p].totalPrevLen + at;
        FlatAt(pools, p, at);
        FlatAt(pools, 0, 0);
        return q;
      }
      forall k | 0 <= k < |pools[p].entries|
        ensures Content(chunks, pools[p].entries[k]) != s
      {
        if Content(chunks, pools[p].entries[k]) == s {
          StoredMatches(pools, chunks, p, k, s);
        }
      }
    }
    forall i | 0 <= i < Total(pools)
      ensures Contents(Flat(pools), chunks)[i] != s
    {
      LocateIsFlat(pools, i);
    }
    return NULL;
  }
}
