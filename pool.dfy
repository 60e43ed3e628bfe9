/**
 * The pool chain. `pools` lists the pools from the oldest (the static root, index 0) to the
 * newest (the head); a pool's `prev` is the pool just before it in the list. Each pool keeps
 * its entries (the used part of the parallel `hashes`, `lengths` and `qstrs` arrays) and its
 * capacity `alloc`. A handle is a global index: the entries of all older pools, plus the
 * position inside the owning pool.
 */
module PoolChain {
  import opened IstrConfig
  import opened Hash
  import opened Order

  /** Where an entry's bytes live: caller data that stays valid forever, or an offset in a chunk. */
  datatype StrRef = Static(bytes: seq<byte>) | InChunk(chunk: nat, offset: nat)

  /** One (hash, length, string reference) triple of a pool. */
  datatype Entry = Entry(hash: nat, len: nat, str: StrRef)

  datatype Pool = Pool(totalPrevLen: nat, isSorted: bool, alloc: nat, entries: seq<Entry>)

  /** The `len` bytes an entry points at; `chunks` holds every chunk ever allocated. */
  function Content(chunks: seq<seq<byte>>, e: Entry): (r: seq<byte>)
    ensures RefOk(chunks, e) ==> |r| == e.len
  {
    match e.str
    case Static(b) => b
    case InChunk(c, off) =>
      if c < |chunks| && off + e.len <= |chunks[c]| then chunks[c][off..off + e.len] else []
  }

  /** The reference is usable: static data of the stated length, or chunk bytes followed by a 0. */
  predicate RefOk(chunks: seq<seq<byte>>, e: Entry) {
    match e.str
    case Static(b) => |b| == e.len
    case InChunk(c, off) => c < |chunks| && off + e.len < |chunks[c]| && chunks[c][off + e.len] == 0
  }

  /** A stored entry: usable reference, length that fits the length field, stored hash of its bytes. */
  predicate EntryOk(chunks: seq<seq<byte>>, e: Entry) {
    RefOk(chunks, e) && e.len < LEN_LIMIT && (e.len > 0 ==> e.hash == HashOf(Content(chunks, e)))
  }

  /** All entries of the chain in handle order. */
  function Flat(pools: seq<Pool>): seq<Entry> {
    if |pools| == 0 then [] else Flat(pools[..|pools| - 1]) + pools[|pools| - 1].entries
  }

  /** The contents of a list of entries. */
  function Contents(es: seq<Entry>, chunks: seq<seq<byte>>): (r: seq<seq<byte>>)
    ensures |r| == |es|
    ensures forall i :: 0 <= i < |es| ==> r[i] == Content(chunks, es[i])
  {
    seq(|es|, i requires 0 <= i < |es| => Content(chunks, es[i]))
  }

  /** The root has no predecessors, and each pool starts where the one before it ends. */
  predicate Linked(pools: seq<Pool>) {
    && |pools| >= 1
    && pools[0].totalPrevLen == 0
    && forall i :: 0 < i < |pools| ==>
         pools[i].totalPrevLen == pools[i - 1].totalPrevLen + |pools[i - 1].entries|
  }

  /** Pairwise lexicographic order of the contents of a pool. */
  predicate Sorted(pool: Pool, chunks: seq<seq<byte>>) {
    forall i, j :: 0 <= i < j < |pool.entries| ==>
      LexCmp(Content(chunks, pool.entries[i]), Content(chunks, pool.entries[j])) <= 0
  }

  /** No non-empty content occurs twice. */
  predicate Unique(es: seq<Entry>, chunks: seq<seq<byte>>) {
    forall i, j :: 0 <= i < j < |es| && |Content(chunks, es[j])| > 0 ==>
      Content(chunks, es[i]) != Content(chunks, es[j])
  }

  /**
   * The static root pool as the generator emits it: capacity ISTR_ALLOC_ENTRIES_INIT and
   * already full (so no entry is ever appended to constant data), flagged sorted, static strings
   * only, and entry 0 reserved for the null handle.
   */
  predicate RootOk(root: Pool) {
    && root.totalPrevLen == 0
    && root.isSorted
    && root.alloc == ALLOC_ENTRIES_INIT
    && |root.entries| >= root.alloc
    && root.entries[0].len == 0
    && (forall k :: 0 <= k < |root.entries| ==> root.entries[k].str.Static?)
  }

  /** The shape of the chain itself: links, capacities, and every pool but the head full. */
  predicate Shape(pools: seq<Pool>) {
    && Linked(pools)
    && RootOk(pools[0])
    && (forall i :: 0 < i < |pools| ==>
          && !pools[i].isSorted
          && pools[i].alloc == 2 * pools[i - 1].alloc
          && |pools[i].entries| <= pools[i].alloc)
    && (forall i :: 0 <= i < |pools| - 1 ==> |pools[i].entries| >= pools[i].alloc)
  }

  /** Every entry of a list is a well-formed stored entry. */
  predicate EntriesOk(es: seq<Entry>, chunks: seq<seq<byte>>) {
    forall i :: 0 <= i < |es| ==> EntryOk(chunks, es[i])
  }

  /** The invariant of the chain that interning keeps. */
  predicate WellFormed(pools: seq<Pool>, chunks: seq<seq<byte>>) {
    && Shape(pools)
    && Sorted(pools[0], chunks)
    && EntriesOk(Flat(pools), chunks)
    && Unique(Flat(pools), chunks)
  }

  /** Total number of entries: QSTR_TOTAL(). */
  function Total(pools: seq<Pool>): nat {
    |Flat(pools)|
  }

  lemma FlatSnoc(pools: seq<Pool>, p: Pool)
    ensures Flat(pools + [p]) == Flat(pools) + p.entries
  {
    assert (pools + [p])[..|pools|] == pools;
  }

  /** The entries of a linked chain end where its head ends. */
  lemma {:induction false} TotalOfLinked(pools: seq<Pool>)
    requires Linked(pools)
    ensures Total(pools) == pools[|pools| - 1].totalPrevLen + |pools[|pools| - 1].entries|
    decreases |pools|
  {
    var last := |pools| - 1;
    var init := pools[..last];
    assert Flat(pools) == Flat(init) + pools[last].entries;
    if last > 0 {
      assert Linked(init);
      TotalOfLinked(init);
      assert init[last - 1] == pools[last - 1];
    }
  }

  /** Entry `j` of pool `p` is the entry with global handle `totalPrevLen + j`. */
  lemma {:induction false} FlatAt(pools: seq<Pool>, p: nat, j: nat)
    requires Linked(pools) && p < |pools| && j < |pools[p].entries|
    ensures pools[p].totalPrevLen + j < Total(pools)
    ensures Flat(pools)[pools[p].totalPrevLen + j] == pools[p].entries[j]
    decreases |pools|
  {
    var last := |pools| - 1;
    if last > 0 {
      TotalOfLinked(pools[..last]);
      if p < last {
        FlatAt(pools[..last], p, j);
      }
    }
  }

  /**
   * Handle resolution as a function: the newest pool whose `totalPrevLen` does not exceed `q`,
   * and the local index inside it.
   */
  function Locate(pools: seq<Pool>, q: nat): (r: (nat, nat))
    requires Linked(pools) && q < Total(pools)
    ensures r.0 < |pools| && pools[r.0].totalPrevLen <= q
    ensures r.1 == q - pools[r.0].totalPrevLen && r.1 < |pools[r.0].entries|
    ensures forall p :: r.0 < p < |pools| ==> q < pools[p].totalPrevLen
    decreases |pools|
  {
    var last := |pools| - 1;
    TotalOfLinked(pools);
    if q < pools[last].totalPrevLen then
      TotalOfLinked(pools[..last]);
      Locate(pools[..last], q)
    else
      (last, q - pools[last].totalPrevLen)
  }

  /** Resolving a handle lands on the entry with that global index. */
  lemma LocateIsFlat(pools: seq<Pool>, q: nat)
    requires Linked(pools) && q < Total(pools)
    ensures Flat(pools)[q] == pools[Locate(pools, q).0].entries[Locate(pools, q).1]
  {
    FlatAt(pools, Locate(pools, q).0, Locate(pools, q).1);
  }

  /**
   * find_qstr: walk from the head towards the root while the handle lies below the pool's
   * first handle; the walk stops at the latest at the root, whose `totalPrevLen` is 0.
   */
  method FindQstr(pools: seq<Pool>, q: nat) returns (p: nat, local: nat)
    requires Linked(pools) && q < Total(pools)
    ensures p < |pools| && pools[p].totalPrevLen <= q
    ensures local == q - pools[p].totalPrevLen && local < |pools[p].entries|
    ensures forall p' :: p < p' < |pools| ==> q < pools[p'].totalPrevLen
    ensures Flat(pools)[q] == pools[p].entries[local]
  {
    p := |pools| - 1;
    while q < pools[p].totalPrevLen
      invariant p < |pools|
      invariant forall p' :: p < p' < |pools| ==> q < pools[p'].totalPrevLen
      decreases p
    {
      p := p - 1;
    }
    local := q - pools[p].totalPrevLen;
    var r := Locate(pools, q);
    assert r.0 == p;
    LocateIsFlat(pools, q);
  }

  /** qstr_hash: the stored hash of the entry a handle names. */
  function QstrHash(pools: seq<Pool>, q: nat): (h: nat)
    requires Linked(pools) && q < Total(pools)
    ensures h == Flat(pools)[q].hash
  {
    LocateIsFlat(pools, q);
    var (p, j) := Locate(pools, q);
    pools[p].entries[j].hash
  }

  /** qstr_len: the stored length of the entry a handle names. */
  function QstrLen(pools: seq<Pool>, q: nat): (n: nat)
    requires Linked(pools) && q < Total(pools)
    ensures n == Flat(pools)[q].len
  {
    LocateIsFlat(pools, q);
    var (p, j) := Locate(pools, q);
    pools[p].entries[j].len
  }

  /** qstr_str: the string reference of the entry a handle names. */
  function QstrStr(pools: seq<Pool>, q: nat): (s: StrRef)
    requires Linked(pools) && q < Total(pools)
    ensures s == Flat(pools)[q].str
  {
    LocateIsFlat(pools, q);
    var (p, j) := Locate(pools, q);
    pools[p].entries[j].str
  }

  /** qstr_data: the bytes of the entry a handle names, with their length. */
  function QstrData(pools: seq<Pool>, chunks: seq<seq<byte>>, q: nat): (r: (seq<byte>, nat))
    requires Linked(pools) && q < Total(pools)
    ensures r.0 == Contents(Flat(pools), chunks)[q]
    ensures r.1 == Flat(pools)[q].len
    ensures RefOk(chunks, Flat(pools)[q]) ==> |r.0| == r.1
  {
    LocateIsFlat(pools, q);
    var (p, j) := Locate(pools, q);
    (Content(chunks, pools[p].entries[j]), pools[p].entries[j].len)
  }

  function Pow2(n: nat): (r: nat)
    ensures r >= 1
  {
    if n == 0 then 1 else 2 * Pow2(n - 1)
  }

  /** Pools double in capacity: pool `i` holds ISTR_ALLOC_ENTRIES_INIT * 2^i entries. */
  lemma {:induction false} AllocDoubles(pools: seq<Pool>, i: nat)
    requires Shape(pools) && i < |pools|
    ensures pools[i].alloc == ALLOC_ENTRIES_INIT * Pow2(i)
  {
    if i > 0 {
      AllocDoubles(pools, i - 1);
    }
  }

  /** Every pool but the head is full, so pool `i > 0` starts after the capacities of all older pools. */
  lemma {:induction false} FirstHandleBound(pools: seq<Pool>, i: nat)
    requires Shape(pools) && 0 < i < |pools|
    ensures pools[i].totalPrevLen >= ALLOC_ENTRIES_INIT * (Pow2(i) - 1)
  {
    AllocDoubles(pools, i - 1);
    if i > 1 {
      FirstHandleBound(pools, i - 1);
    }
  }
}
