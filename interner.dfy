/**
 * The interner state: the pool chain (`pool_head`) and the chunk allocator (`pool_state`),
 * with find-or-create. All chunks ever allocated are kept in `chunks`; `lastChunk` is the index
 * of the active one (NULL when none), `lastAlloc` its size and `lastUsed` the bytes handed out.
 */
module Interner {
  import opened IstrConfig
  import opened Hash
  import opened PoolChain
  import opened Lookup
  import opened Order

  /** The outcomes of the platform allocator calls that one intern may make. */
  datatype Allocator = Allocator(
    growOk: bool,   // realloc of the active chunk
    chunkOk: bool,  // malloc of a chunk of max(len + 1, ISTR_ALLOC_ENTRIES_INIT) bytes
    exactOk: bool,  // the fallback malloc of exactly len + 1 bytes
    poolOk: bool)   // malloc of a new pool

  /** The generated static table, as the root pool it becomes. */
  predicate StaticTableOk(entries: seq<Entry>) {
    WellFormed([Pool(0, true, ALLOC_ENTRIES_INIT, entries)], [])
  }

  function Zeros(n: nat): (z: seq<byte>)
    ensures |z| == n
  {
    seq(n, _ => 0)
  }

  function Max(a: nat, b: nat): nat {
    if a < b then b else a
  }

  /** The chunks after the active chunk `c` grows in place by `n` bytes. */
  function Grown(chunks: seq<seq<byte>>, c: nat, n: nat): seq<seq<byte>>
    requires c < |chunks|
  {
    chunks[c := chunks[c] + Zeros(n)]
  }

  /** The chunks after `s` and a terminating 0 are copied into chunk `c` at offset `off`. */
  function Written(chunks: seq<seq<byte>>, c: nat, off: nat, s: seq<byte>): seq<seq<byte>>
    requires c < |chunks| && off + |s| + 1 <= |chunks[c]|
  {
    chunks[c := chunks[c][..off] + s + [0] + chunks[c][off + |s| + 1..]]
  }

  /** Every entry stored in chunk `c` ends, with its terminator, at or below `used`. */
  predicate BelowMark(es: seq<Entry>, c: nat, used: nat) {
    forall i :: 0 <= i < |es| && es[i].str.InChunk? && es[i].str.chunk == c ==>
      es[i].str.offset + es[i].len + 1 <= used
  }

  /**
   * `next` keeps every chunk of `prev`: chunks other than `active` unchanged, the first `used`
   * bytes of the `active` one unchanged; new chunks may follow and chunks may grow.
   */
  predicate Keeps(prev: seq<seq<byte>>, next: seq<seq<byte>>, active: Option<nat>, used: nat) {
    && |prev| <= |next|
    && forall d :: 0 <= d < |prev| ==>
         if active == Some(d) then used <= |prev[d]| && used <= |next[d]| && next[d][..used] == prev[d][..used]
         else next[d] == prev[d]
  }

  /** Entries whose bytes `next` keeps read the same bytes in `next`. */
  lemma KeepsEntries(es: seq<Entry>, prev: seq<seq<byte>>, next: seq<seq<byte>>, active: Option<nat>, used: nat)
    requires Keeps(prev, next, active, used)
    requires active.Some? ==> BelowMark(es, active.value, used)
    requires forall i :: 0 <= i < |es| ==> RefOk(prev, es[i])
    ensures forall i :: 0 <= i < |es| ==> RefOk(next, es[i]) && Content(next, es[i]) == Content(prev, es[i])
  {
    forall i | 0 <= i < |es|
      ensures RefOk(next, es[i]) && Content(next, es[i]) == Content(prev, es[i])
    {
      var e := es[i];
      if e.str.InChunk? {
        var c, off := e.str.chunk, e.str.offset;
        if active == Some(c) {
          assert off + e.len + 1 <= used;
          assert next[c][off..off + e.len] == next[c][..used][off..off + e.len];
          assert prev[c][off..off + e.len] == prev[c][..used][off..off + e.len];
          assert next[c][off + e.len] == next[c][..used][off + e.len];
          assert prev[c][off + e.len] == prev[c][..used][off + e.len];
        }
      }
    }
  }

  /** Re-reading every entry from chunks that keep their bytes preserves the chain's shape. */
  lemma KeepsWellFormed(pools: seq<Pool>, prev: seq<seq<byte>>, next: seq<seq<byte>>)
    requires WellFormed(pools, prev)
    requires forall i :: 0 <= i < |Flat(pools)| ==>
      RefOk(next, Flat(pools)[i]) && Content(next, Flat(pools)[i]) == Content(prev, Flat(pools)[i])
    ensures WellFormed(pools, next)
    ensures Contents(Flat(pools), next) == Contents(Flat(pools), prev)
  {
    var root := pools[0];
    forall k | 0 <= k < |root.entries|
      ensures Content(next, root.entries[k]) == Content(prev, root.entries[k])
    {
      assert root.entries[k].str.Static?;
    }
    assert Sorted(root, next);
    forall i | 0 <= i < |Flat(pools)|
      ensures EntryOk(next, Flat(pools)[i])
    {
      assert EntryOk(prev, Flat(pools)[i]);
    }
  }

  /** The chunk half of the interner's invariant. */
  predicate ChunkStateOk(es: seq<Entry>, chunks: seq<seq<byte>>, active: Option<nat>, alloc: nat, used: nat) {
    active.Some? ==>
      && active.value == |chunks| - 1
      && alloc == |chunks[active.value]|
      && used <= alloc
      && BelowMark(es, active.value, used)
  }

  /** The interner's invariant over the values of its fields. */
  predicate StoreOk(pools: seq<Pool>, chunks: seq<seq<byte>>, active: Option<nat>, alloc: nat, used: nat) {
    WellFormed(pools, chunks) && ChunkStateOk(Flat(pools), chunks, active, alloc, used)
  }

  /** Growing the active chunk in place keeps every stored string. */
  lemma GrowKeeps(pools: seq<Pool>, chunks: seq<seq<byte>>, c: nat, alloc: nat, used: nat, n: nat)
    requires StoreOk(pools, chunks, Some(c), alloc, used)
    ensures var next := Grown(chunks, c, n);
      && StoreOk(pools, next, Some(c), alloc + n, used)
      && Contents(Flat(pools), next) == Contents(Flat(pools), chunks)
  {
    var next := chunks[c := chunks[c] + Zeros(n)];
    assert next[c][..used] == chunks[c][..used];
    assert Keeps(chunks, next, Some(c), used);
    KeepsEntries(Flat(pools), chunks, next, Some(c), used);
    KeepsWellFormed(pools, chunks, next);
  }

  /** Starting a new chunk keeps every stored string; no entry lives in the new chunk. */
  lemma NewChunkKeeps(pools: seq<Pool>, chunks: seq<seq<byte>>, alloc: nat, used: nat, al: nat)
    requires StoreOk(pools, chunks, None, alloc, used)
    ensures var next := chunks + [Zeros(al)];
      && StoreOk(pools, next, Some(|chunks|), al, 0)
      && Contents(Flat(pools), next) == Contents(Flat(pools), chunks)
  {
    var next := chunks + [Zeros(al)];
    var es := Flat(pools);
    assert Keeps(chunks, next, None, 0);
    KeepsEntries(es, chunks, next, None, 0);
    KeepsWellFormed(pools, chunks, next);
    forall i | 0 <= i < |es| && es[i].str.InChunk?
      ensures es[i].str.chunk != |chunks|
    {
      assert RefOk(chunks, es[i]);
    }
  }

  /** Copying `s` and a 0 at the mark keeps every stored string and stores `s`. */
  lemma WriteKeeps(pools: seq<Pool>, chunks: seq<seq<byte>>, c: nat, alloc: nat, used: nat, s: seq<byte>)
    requires StoreOk(pools, chunks, Some(c), alloc, used) && used + |s| + 1 <= alloc
    ensures var next := Written(chunks, c, used, s);
      && StoreOk(pools, next, Some(c), alloc, used + |s| + 1)
      && Contents(Flat(pools), next) == Contents(Flat(pools), chunks)
      && next[c][used..used + |s|] == s && next[c][used + |s|] == 0
  {
    var next := chunks[c := chunks[c][..used] + s + [0] + chunks[c][used + |s| + 1..]];
    var es := Flat(pools);
    assert next[c][..used] == chunks[c][..used];
    assert Keeps(chunks, next, Some(c), used);
    KeepsEntries(es, chunks, next, Some(c), used);
    KeepsWellFormed(pools, chunks, next);
    assert next[c][used..used + |s|] == s;
    assert BelowMark(es, c, used + |s| + 1);
  }

  /** The pool qstr_add links after a full head: unsorted, empty, twice the head's capacity. */
  function NextPool(pools: seq<Pool>): Pool
    requires |pools| >= 1
  {
    var head := pools[|pools| - 1];
    Pool(head.totalPrevLen + |head.entries|, false, 2 * head.alloc, [])
  }

  /**
   * The new pool as qstr_add writes it: `is_sorted` is not among the fields it sets, so the
   * flag holds whatever the freshly allocated memory held (`leftover`). It differs from
   * `NextPool` in that flag alone.
   */
  function NextPoolAsWritten(pools: seq<Pool>, leftover: bool): (p: Pool)
    requires |pools| >= 1
    ensures p.isSorted == leftover && p.(isSorted := false) == NextPool(pools)
  {
    var head := pools[|pools| - 1];
    Pool(head.totalPrevLen + |head.entries|, leftover, 2 * head.alloc, [])
  }

  /**
   * With the flag left set, lookup misses a string that the new pool holds: once "b", "c" and
   * "a" are stored in it, the binary search narrows to the first two entries and the scan
   * never reaches "a", so interning "a" again would store it a second time.
   */
  method LeftoverFlagMisses(pools: seq<Pool>) returns (pool: Pool, found: bool)
    requires |pools| >= 1
    ensures pool.isSorted && |pool.entries| == 3
    ensures Matches([], pool.entries[2], [0x61], HashOf([0x61]))
    ensures !found
  {
    var linked := NextPoolAsWritten(pools, true);
    var b := Entry(HashOf([0x62]), 1, Static([0x62]));
    var c := Entry(HashOf([0x63]), 1, Static([0x63]));
    var a := Entry(HashOf([0x61]), 1, Static([0x61]));
    pool := linked.(entries := [b, c, a]);
    ProbeAt(pool.entries, [], [0x61], 3, 1);
    assert Probes(pool, [], [0x61])[1] == LexCmp([0x61], [0x63]) == -1;
    assert Window(pool, [], [0x61]) == Span(0, 1);
    var at: nat;
    found, at := SearchPool(pool, [], [0x61], HashOf([0x61]));
  }

  /** With the flag cleared, as `NextPool` sets it, the same pool is scanned in full and "a" is found. */
  method ClearedFlagFinds(pools: seq<Pool>) returns (pool: Pool, found: bool, at: nat)
    requires |pools| >= 1
    ensures !pool.isSorted && |pool.entries| == 3
    ensures found && at == 2 && Matches([], pool.entries[2], [0x61], HashOf([0x61]))
  {
    var linked := NextPool(pools);
    var b := Entry(HashOf([0x62]), 1, Static([0x62]));
    var c := Entry(HashOf([0x63]), 1, Static([0x63]));
    var a := Entry(HashOf([0x61]), 1, Static([0x61]));
    pool := linked.(entries := [b, c, a]);
    assert InWindow(pool, [], [0x61], 2) && Matches([], pool.entries[2], [0x61], HashOf([0x61]));
    found, at := SearchPool(pool, [], [0x61], HashOf([0x61]));
  }

  /** Linking a new, empty pool of twice the capacity after a full head keeps the invariant. */
  lemma NewPoolKeeps(pools: seq<Pool>, chunks: seq<seq<byte>>, active: Option<nat>, alloc: nat, used: nat,
                     next: seq<Pool>)
    requires StoreOk(pools, chunks, active, alloc, used)
    requires |pools[|pools| - 1].entries| >= pools[|pools| - 1].alloc
    requires next == pools + [NextPool(pools)]
    ensures StoreOk(next, chunks, active, alloc, used)
    ensures Flat(next) == Flat(pools)
    ensures |next[|next| - 1].entries| < next[|next| - 1].alloc
  {
    NewPoolShape(pools, next);
  }

  /** The chain after the link: the same root and handles, and a head with a free slot. */
  lemma NewPoolShape(pools: seq<Pool>, next: seq<Pool>)
    requires Shape(pools)
    requires |pools[|pools| - 1].entries| >= pools[|pools| - 1].alloc
    requires next == pools + [NextPool(pools)]
    ensures Shape(next) && next[0] == pools[0] && Flat(next) == Flat(pools)
    ensures |next[|next| - 1].entries| < next[|next| - 1].alloc
  {
    var pool := next[|pools|];
    FlatSnoc(pools, pool);
    assert pool.entries == [];
    assert next[..|pools|] == pools;
    assert Linked(next);
    AllocDoubles(pools, |pools| - 1);
  }

  /** A fresh entry extends a duplicate-free, well-formed list of entries. */
  lemma SnocEntries(es: seq<Entry>, chunks: seq<seq<byte>>, e: Entry)
    requires EntriesOk(es, chunks) && Unique(es, chunks) && EntryOk(chunks, e)
    requires |Content(chunks, e)| > 0 ==> Content(chunks, e) !in Contents(es, chunks)
    ensures EntriesOk(es + [e], chunks) && Unique(es + [e], chunks)
    ensures Contents(es + [e], chunks) == Contents(es, chunks) + [Content(chunks, e)]
  {
    var next := es + [e];
    forall i, j | 0 <= i < j < |next| && |Content(chunks, next[j])| > 0
      ensures Content(chunks, next[i]) != Content(chunks, next[j])
    {
      if j == |es| {
        assert Contents(es, chunks)[i] == Content(chunks, next[i]);
      }
    }
  }

  /** The chain after entry `e` is stored in the head's next slot. */
  function Appended(pools: seq<Pool>, e: Entry): seq<Pool>
    requires |pools| >= 1
  {
    var last := |pools| - 1;
    pools[..last] + [pools[last].(entries := pools[last].entries + [e])]
  }

  /** Storing a new entry in a head with a free slot keeps the shape and adds one handle. */
  lemma AppendShape(pools: seq<Pool>, e: Entry)
    requires Shape(pools) && |pools[|pools| - 1].entries| < pools[|pools| - 1].alloc
    ensures Shape(Appended(pools, e)) && Appended(pools, e)[0] == pools[0]
    ensures Flat(Appended(pools, e)) == Flat(pools) + [e]
    ensures pools[|pools| - 1].totalPrevLen + |pools[|pools| - 1].entries| == Total(pools)
  {
    var last := |pools| - 1;
    var head := pools[last];
    var init := pools[..last];
    var next := Appended(pools, e);
    assert pools == init + [head];
    FlatSnoc(init, head);
    FlatSnoc(init, next[last]);
    TotalOfLinked(pools);
    assert last > 0;
    assert Linked(next);
    assert RootOk(next[0]);
  }

  /** Storing a new entry in a head with a free slot keeps the invariant and adds one handle. */
  lemma AppendKeeps(pools: seq<Pool>, chunks: seq<seq<byte>>, active: Option<nat>, alloc: nat, used: nat, e: Entry)
    requires StoreOk(pools, chunks, active, alloc, used)
    requires |pools[|pools| - 1].entries| < pools[|pools| - 1].alloc && EntryOk(chunks, e)
    requires |Content(chunks, e)| > 0 ==> Content(chunks, e) !in Contents(Flat(pools), chunks)
    requires e.str.InChunk? && active == Some(e.str.chunk) ==> e.str.offset + e.len + 1 <= used
    ensures StoreOk(Appended(pools, e), chunks, active, alloc, used)
    ensures Flat(Appended(pools, e)) == Flat(pools) + [e]
    ensures Contents(Flat(Appended(pools, e)), chunks) == Contents(Flat(pools), chunks) + [Content(chunks, e)]
    ensures pools[|pools| - 1].totalPrevLen + |pools[|pools| - 1].entries| == Total(pools)
  {
    AppendShape(pools, e);
    SnocEntries(Flat(pools), chunks, e);
  }

  /** The generated id of the empty string names a static entry of length 0, not the null entry. */
  predicate EmptyIdOk(root: Pool, id: nat) {
    NULL < id < |root.entries| && root.entries[id].len == 0
  }

  /** The handle `ISTR_` holds the empty string. */
  lemma EmptyIdHolds(pools: seq<Pool>, chunks: seq<seq<byte>>, id: nat)
    requires WellFormed(pools, chunks) && EmptyIdOk(pools[0], id)
    ensures id < |Flat(pools)| && Content(chunks, Flat(pools)[id]) == []
  {
    FlatAt(pools, 0, id);
  }

  class Interner {
    var pools: seq<Pool>
    var chunks: seq<seq<byte>>
    var lastChunk: Option<nat>
    var lastAlloc: nat
    var lastUsed: nat
    /** The generated id ISTR_ that lookup returns for empty input. */
    const emptyId: nat

    ghost predicate Valid()
      reads this
    {
      StoreOk(pools, chunks, lastChunk, lastAlloc, lastUsed) && EmptyIdOk(pools[0], emptyId)
    }

    /** The content of every handle, in handle order. */
    ghost function Strings(): seq<seq<byte>>
      reads this
    {
      Contents(Flat(pools), chunks)
    }

    /** qstr_init: the head is the static pool and there is no active chunk. */
    constructor Init(table: seq<Entry>, emptyId: nat)
      requires StaticTableOk(table)
      requires emptyId != NULL && emptyId < |table| && table[emptyId].len == 0
      ensures Valid()
      ensures pools == [Pool(0, true, ALLOC_ENTRIES_INIT, table)] && chunks == []
      ensures lastChunk == None && lastAlloc == 0 && lastUsed == 0
      ensures this.emptyId == emptyId
      ensures Strings() == Contents(table, [])
    {
      pools := [Pool(0, true, ALLOC_ENTRIES_INIT, table)];
      chunks := [];
      lastChunk := None;
      lastAlloc := 0;
      lastUsed := 0;
      this.emptyId := emptyId;
      new;
      FlatSnoc([], pools[0]);
      assert pools == [] + [pools[0]];
    }

    /** Whether the active chunk can hold `n` more bytes without growing. */
    ghost predicate Fits(n: nat)
      reads this
    {
      lastChunk.Some? && lastUsed + n <= lastAlloc
    }

    /** Whether byte placement for a string of `len` bytes succeeds under allocator `a`. */
    ghost predicate CanStore(len: nat, a: Allocator)
      reads this
    {
      Fits(len + 1) || (lastChunk.Some? && a.growOk) || a.chunkOk || a.exactOk
    }

    /** Whether the head pool has no free slot. */
    ghost predicate HeadFull()
      reads this
      requires |pools| >= 1
    {
      |pools[|pools| - 1].entries| >= pools[|pools| - 1].alloc
    }

    /**
     * The chunk half of qstr_from_strn_helper: make room for `len + 1` bytes in the active
     * chunk (grow it, or start a new chunk, with a fallback size), then copy the bytes and a
     * terminating 0 at offset `lastUsed` and advance `lastUsed` past them.
     */
    method StoreBytes(s: seq<byte>, a: Allocator) returns (ok: bool, off: nat)
      requires Valid()
      modifies this
      ensures Valid() && pools == old(pools) && Strings() == old(Strings())
      ensures ok == old(CanStore(|s|, a))
      ensures ok ==>
        && lastChunk.Some? && lastChunk.value < |chunks|
        && off + |s| + 1 == lastUsed <= lastAlloc
        && chunks[lastChunk.value][off..off + |s|] == s
        && chunks[lastChunk.value][off + |s|] == 0
      ensures ok && old(lastChunk.Some? && (Fits(|s| + 1) || a.growOk)) ==>
        && lastChunk == old(lastChunk) && off == old(lastUsed) && |chunks| == old(|chunks|)
        && lastAlloc == old(if Fits(|s| + 1) then lastAlloc else lastAlloc + |s| + 1)
      ensures ok && !old(lastChunk.Some? && (Fits(|s| + 1) || a.growOk)) ==>
        && off == 0 && |chunks| == old(|chunks|) + 1 && lastChunk == Some(old(|chunks|))
        && lastAlloc == (if a.chunkOk then Max(|s| + 1, ALLOC_ENTRIES_INIT) else |s| + 1)
      ensures !ok ==>
        && lastChunk == None && chunks == old(chunks)
        && lastAlloc == old(lastAlloc) && lastUsed == old(lastUsed)
    {
      var n := |s| + 1;
      if lastChunk.Some? && lastUsed + n > lastAlloc {
        GrowOrDrop(n, a.growOk);
      }
      if lastChunk.None? {
        ok := StartChunk(n, a);
        if !ok {
          return false, 0;
        }
      }
      off := CopyIn(s);
      ok := true;
    }

    /**
     * The active chunk is too small for `n` more bytes: grow it in place by `n` bytes (not by
     * the shortfall; the new bytes are unspecified), or, when that fails, abandon it (shrinking
     * it back to `lastAlloc` keeps its bytes).
     */
    method GrowOrDrop(n: nat, growOk: bool)
      requires Valid() && lastChunk.Some? && lastUsed + n > lastAlloc
      modifies this
      ensures Valid() && pools == old(pools) && Strings() == old(Strings())
      ensures lastUsed == old(lastUsed)
      ensures growOk ==>
        lastChunk == old(lastChunk) && |chunks| == old(|chunks|) && lastAlloc == old(lastAlloc) + n
      ensures !growOk ==> lastChunk == None && chunks == old(chunks) && lastAlloc == old(lastAlloc)
    {
      if growOk {
        GrowKeeps(pools, chunks, lastChunk.value, lastAlloc, lastUsed, n);
        chunks := Grown(chunks, lastChunk.value, n);
        lastAlloc := lastAlloc + n;
      } else {
        lastChunk := None;
      }
    }

    /**
     * No active chunk: allocate a new one of max(n, ISTR_ALLOC_ENTRIES_INIT) bytes, falling back
     * to exactly `n` bytes, and make it active with nothing used.
     */
    method StartChunk(n: nat, a: Allocator) returns (ok: bool)
      requires Valid() && lastChunk.None?
      modifies this
      ensures Valid() && pools == old(pools) && Strings() == old(Strings())
      ensures ok == (a.chunkOk || a.exactOk)
      ensures ok ==>
        && lastChunk == Some(old(|chunks|)) && |chunks| == old(|chunks|) + 1 && lastUsed == 0
        && lastAlloc == (if a.chunkOk then Max(n, ALLOC_ENTRIES_INIT) else n)
      ensures !ok ==> unchanged(this)
    {
      var al := n;
      if al < ALLOC_ENTRIES_INIT {
        al := ALLOC_ENTRIES_INIT;
      }
      if !a.chunkOk {
        if !a.exactOk {
          return false;
        }
        al := n;
      }
      NewChunkKeeps(pools, chunks, lastAlloc, lastUsed, al);
      chunks := chunks + [Zeros(al)];
      lastChunk := Some(|chunks| - 1);
      lastAlloc := al;
      lastUsed := 0;
      ok := true;
    }

    /** The copy at the mark: `s` and a terminating 0 go to offset `lastUsed` of the active chunk. */
    method CopyIn(s: seq<byte>) returns (off: nat)
      requires Valid() && Fits(|s| + 1)
      modifies this
      ensures Valid() && pools == old(pools) && Strings() == old(Strings())
      ensures lastChunk == old(lastChunk) && |chunks| == old(|chunks|) && lastAlloc == old(lastAlloc)
      ensures off == old(lastUsed) && lastUsed == off + |s| + 1
      ensures chunks[lastChunk.value][off..off + |s|] == s && chunks[lastChunk.value][off + |s|] == 0
    {
      var c := lastChunk.value;
      off := lastUsed;
      WriteKeeps(pools, chunks, c, lastAlloc, off, s);
      chunks := Written(chunks, c, off, s);
      lastUsed := lastUsed + |s| + 1;
    }

    /**
     * qstr_add: store (hash, len, string reference) at the head pool's next slot and return its handle.
     * A full head is first replaced by a new pool of twice the capacity, linked after it; if
     * that allocation fails the result is null, the chain is unchanged and the active chunk is
     * dropped.
     */
    method Add(len: nat, ref: StrRef, poolOk: bool) returns (q: nat)
      requires Valid()
      requires len < LEN_LIMIT && RefOk(chunks, Entry(0, len, ref))
      requires len > 0 ==> Content(chunks, Entry(0, len, ref)) !in Strings()
      requires ref.InChunk? && lastChunk == Some(ref.chunk) ==> ref.offset + len + 1 <= lastUsed
      modifies this
      ensures Valid()
      ensures chunks == old(chunks) && lastAlloc == old(lastAlloc) && lastUsed == old(lastUsed)
      ensures old(HeadFull()) && !poolOk ==> q == NULL && pools == old(pools) && lastChunk == None
      ensures !(old(HeadFull()) && !poolOk) ==>
        && q == old(Total(pools)) && q != NULL && lastChunk == old(lastChunk)
        && Strings() == old(Strings()) + [Content(chunks, Entry(0, len, ref))]
      ensures !(old(HeadFull()) && !poolOk) ==>
        var e := Entry(HashOf(Content(chunks, Entry(0, len, ref))), len, ref);
        pools == Appended(if old(HeadFull()) then old(pools) + [NextPool(old(pools))] else old(pools), e)
    {
      var e := Hashed(len, ref);
      FlatAt(pools, 0, 0);
      if |pools[|pools| - 1].entries| >= pools[|pools| - 1].alloc {
        if !poolOk {
          DropChunk();
          return NULL;
        }
        LinkPool();
      }
      q := Append(e);
    }

    /** The entry qstr_add stores: the hash of the referenced bytes, their length and the reference. */
    method Hashed(len: nat, ref: StrRef) returns (e: Entry)
      requires len < LEN_LIMIT && RefOk(chunks, Entry(0, len, ref))
      ensures e == Entry(HashOf(Content(chunks, Entry(0, len, ref))), len, ref)
      ensures Content(chunks, e) == Content(chunks, Entry(0, len, ref)) && EntryOk(chunks, e)
    {
      var bytes := Content(chunks, Entry(0, len, ref));
      var hash := ComputeHash(bytes);
      e := Entry(hash, len, ref);
    }

    /** After a failed pool allocation no chunk is active any more (istr.c:147). */
    method DropChunk()
      requires Valid()
      modifies this
      ensures Valid() && lastChunk == None
      ensures pools == old(pools) && chunks == old(chunks)
      ensures lastAlloc == old(lastAlloc) && lastUsed == old(lastUsed)
    {
      lastChunk := None;
    }

    /** A full head is followed by a new, empty, unsorted pool of twice its capacity. */
    method LinkPool()
      requires Valid() && HeadFull()
      modifies this
      ensures Valid() && !HeadFull()
      ensures pools == old(pools) + [NextPool(old(pools))]
      ensures Flat(pools) == old(Flat(pools)) && Strings() == old(Strings())
      ensures chunks == old(chunks) && lastChunk == old(lastChunk)
      ensures lastAlloc == old(lastAlloc) && lastUsed == old(lastUsed)
    {
      var next := pools + [NextPool(pools)];
      NewPoolKeeps(pools, chunks, lastChunk, lastAlloc, lastUsed, next);
      pools := next;
    }

    /** The entry goes to the head's next free slot; its handle is the former total. */
    method Append(e: Entry) returns (q: nat)
      requires Valid() && !HeadFull() && EntryOk(chunks, e)
      requires |Content(chunks, e)| > 0 ==> Content(chunks, e) !in Strings()
      requires e.str.InChunk? && lastChunk == Some(e.str.chunk) ==> e.str.offset + e.len + 1 <= lastUsed
      modifies this
      ensures Valid()
      ensures pools == Appended(old(pools), e)
      ensures q == old(Total(pools)) && Flat(pools) == old(Flat(pools)) + [e]
      ensures Strings() == old(Strings()) + [Content(chunks, e)]
      ensures chunks == old(chunks) && lastChunk == old(lastChunk)
      ensures lastAlloc == old(lastAlloc) && lastUsed == old(lastUsed)
    {
      var last := |pools| - 1;
      AppendKeeps(pools, chunks, lastChunk, lastAlloc, lastUsed, e);
      q := pools[last].totalPrevLen + |pools[last].entries|;
      pools := Appended(pools, e);
    }

    /**
     * qstr_from_strn_helper: a string already interned gives its handle back with nothing
     * changed; otherwise a length the length field cannot hold gives null with nothing changed,
     * and a new string is stored (copied into a chunk unless `isStatic`) and appended, giving
     * the next handle. An allocation failure gives null and leaves every handle's content as it was.
     */
    method FromStrnHelper(s: seq<byte>, isStatic: bool, a: Allocator) returns (q: nat)
      requires Valid()
      modifies this
      ensures Valid()
      ensures |s| == 0 ==> q == emptyId
      ensures s in old(Strings()) ==>
        q != NULL && q < |old(Strings())| && old(Strings())[q] == s && unchanged(this)
      ensures s !in old(Strings()) && |s| >= LEN_LIMIT ==> q == NULL && unchanged(this)
      ensures s !in old(Strings()) && |s| < LEN_LIMIT ==>
        (q != NULL <==> (isStatic || old(CanStore(|s|, a))) && (old(!HeadFull()) || a.poolOk))
      ensures s !in old(Strings()) && q != NULL ==>
        q == |old(Strings())| && Strings() == old(Strings()) + [s]
      ensures q == NULL ==> pools == old(pools) && Strings() == old(Strings())
    {
      q := FindStrn(pools, chunks, emptyId, s);
      if |s| == 0 {
        EmptyIdHolds(pools, chunks, emptyId);
        return;
      }
      if q == NULL {
        if |s| >= LEN_LIMIT {
          return NULL;
        }
        q := InternNew(s, isStatic, a);
      } else {
        assert Strings()[q] == s;
      }
    }

    /**
     * The storing half of qstr_from_strn_helper for new content: place the bytes (unless
     * `isStatic`) and append the entry. The result is the next handle exactly when both the byte
     * placement and the pool step succeed.
     */
    method InternNew(s: seq<byte>, isStatic: bool, a: Allocator) returns (q: nat)
      requires Valid() && 0 < |s| < LEN_LIMIT && s !in Strings()
      modifies this
      ensures Valid()
      ensures q != NULL <==> (isStatic || old(CanStore(|s|, a))) && (old(!HeadFull()) || a.poolOk)
      ensures q != NULL ==> q == |old(Strings())| && Strings() == old(Strings()) + [s]
      ensures q == NULL ==> pools == old(pools) && Strings() == old(Strings())
    {
      var ref: StrRef;
      if isStatic {
        // the caller's data stays valid forever: use it directly
        ref := Static(s);
      } else {
        ghost var full := HeadFull();
        var ok, off := StoreBytes(s, a);
        if !ok {
          return NULL;
        }
        ref := InChunk(lastChunk.value, off);
        assert Content(chunks, Entry(0, |s|, ref)) == s;
        assert HeadFull() == full;
      }
      q := Add(|s|, ref, a.poolOk);
    }

    /** qstr_from_strn: intern a copy of the bytes. */
    method FromStrn(s: seq<byte>, a: Allocator) returns (q: nat)
      requires Valid()
      modifies this
      ensures Valid()
      ensures |s| == 0 ==> q == emptyId
      ensures q != NULL ==> q < |Strings()| && Strings()[q] == s
      ensures s in old(Strings()) ==> q != NULL && unchanged(this)
      ensures q == NULL ==> Strings() == old(Strings())
    {
      q := FromStrnHelper(s, false, a);
    }

    /**
     * Interning is idempotent: the second intern of the same bytes gives the handle
     * of the first and changes nothing, whatever the allocator does the second time.
     */
    method InternTwice(s: seq<byte>, a1: Allocator, a2: Allocator) returns (q1: nat, q2: nat)
      requires Valid()
      modifies this
      ensures Valid()
      ensures q1 != NULL ==> q2 == q1 && q1 < |Strings()| && Strings()[q1] == s
    {
      q1 := FromStrn(s, a1);
      ghost var after := Strings();
      q2 := FromStrn(s, a2);
      if q1 != NULL {
        assert s in after;
        assert after == Strings() && Strings()[q2] == s;
        assert Content(chunks, Flat(pools)[q1]) == s == Content(chunks, Flat(pools)[q2]);
      }
    }

    /** qstr_from_strn_static: intern bytes that stay valid forever, without copying them. */
    method FromStrnStatic(s: seq<byte>, a: Allocator) returns (q: nat)
      requires Valid()
      modifies this
      ensures Valid()
      ensures |s| == 0 ==> q == emptyId
      ensures q != NULL ==> q < |Strings()| && Strings()[q] == s
      ensures s in old(Strings()) ==> q != NULL && unchanged(this)
      ensures q == NULL ==> Strings() == old(Strings())
    {
      q := FromStrnHelper(s, true, a);
    }
  }
}
