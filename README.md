# istr: a verified model of the string interner

istr is a string-interning engine derived from MicroPython's qstr system. Every distinct byte
string gets a small integer handle (a *qstr*). Handle 0 (`ISTRnull`) means "not found" or
"failed". The strings live in a chain of pools:

- the static root pool is generated at build time, sorted, and has `total_prev_len == 0`;
- each pool added later has twice the capacity of the one before it. The model makes every
  later pool unsorted; the code leaves its `is_sorted` flag unset (see "## Findings");
- a handle is a global index: the entries of all older pools, plus the position in the owning pool.

The bytes of strings interned at run time are copied into chunks that a small bump allocator
(`pool_state`) hands out.

This project models the core of `istr.c` in Dafny and proves what it promises:

- `hash.dfy` (module `Hash`): the djb2 content hash, masked to one byte, with 0 remapped to 1.
- `order.dfy` (module `Order`): the `strncmp` comparator of the binary search.
- `pool.dfy` (module `PoolChain`): the pool chain as a sequence of pools (oldest first) and
  the chain invariant. Also the handle resolution `find_qstr` and the accessors `qstr_hash`,
  `qstr_len`, `qstr_str` and `qstr_data`.
- `lookup.dfy` (module `Lookup`): `qstr_find_strn`, with the binary search over the sorted
  pool and the scan over each window.
- `interner.dfy` (module `Interner`): the interner state as a class. Its fields are
  `pool_head` plus `pool_state`. Its methods are `qstr_init`, `qstr_add` and
  `qstr_from_strn_helper` with its two wrappers, and they keep the chain invariant.
- `decompress.dfy` (module `RomText`): the "common word" decompressor for ROM error text,
  `find_uncompressed_string` and `mp_decompress_rom_string`. It writes into a caller-supplied
  `array`.
- `config.dfy` (module `IstrConfig`): the configuration of `istr.h`:
  - a one-byte hash and a one-byte length (`ISTR_BYTES_IN_HASH`, `ISTR_BYTES_IN_LEN`);
  - `ISTR_ALLOC_ENTRIES_INIT = 10`;
  - handle 0 as null.

Modelling choices:

- **Handles and chunks.** A handle is an index into `Flat(pools)`, the entries of all pools
  in handle order. A string reference is either static caller data or a (chunk, offset) pair.
  `chunks` keeps every chunk ever allocated, and `lastChunk` names the active one.
- **Memory allocation.** `malloc` and `realloc` are foreign calls. Each call that one intern
  may make has its outcome supplied as a boolean in an `Allocator` value.
- **Generated data.** The generated static table is an input that must satisfy
  `StaticTableOk`: sorted, free of duplicates, every hash matching its bytes, and
  `alloc == 10` entries or more. The compressed-word dictionary is an input byte sequence,
  with its list of words as a ghost parameter.
- **Empty input.** The code returns `ISTR_` (istr.c:182), the generated id of the empty
  string. The interner holds this id as the constant `emptyId`, supplied with the static
  table, and `Init` requires it to name a non-null static entry of length 0.

## Model

| member | source | states |
|---|---|---|
| Hash.HashOf | istr.c:48-53 | the hash of any byte string lies in 1..Q_HASH_MASK: it fits the one-byte hash field and is never 0, the value that means "hash not computed" |
| Hash.MaskedIsNarrow | istr.c:44-48 | masking the 64-bit djb2 value to one byte gives the same result as running the recurrence `h*33 ^ b` from 5381 in 8-bit arithmetic: only the low byte of the state matters |
| Hash.ComputeHash | istr.c:43-54 | the loop over the bytes (seed 5381, `h = (h << 5) + h ^ b` with 64-bit wrap-around, then mask and remap of 0) returns exactly `HashOf(data)`, so it is a deterministic function of the bytes, in 1..255 |
| Order.LexCmp | istr.c:199 | the comparison is three-way (-1, 0 or 1) and is 0 exactly when the two byte strings are equal |
| Order.LexCmpFlip | istr.c:199-204 | swapping the operands negates the comparison |
| Order.CutBelow | istr.c:199-204 | an entry strictly below the input stays strictly below it when only the first `str_len` bytes of the entry are compared, which is what `strncmp(str, entry, str_len)` does |
| Order.CutAbove | istr.c:199-204 | an input at or below an entry stays at or below it when only the first `str_len` bytes of the entry are compared |
| PoolChain.Content | istr.c:172 | a usable string reference reads exactly `len` bytes |
| PoolChain.TotalOfLinked | istr.c:159 | in a linked chain the handles end where the head ends: the total number of entries is `total_prev_len + len` of the head |
| PoolChain.FlatAt | istr.c:176 | entry `j` of pool `p` is the entry with global handle `total_prev_len + j`, and that handle is below the total |
| PoolChain.Locate | istr.c:109-118 | a handle below the total resolves to the newest pool whose `total_prev_len <= q`; every newer pool starts above `q`; the local index `q - total_prev_len` is below that pool's `len` |
| PoolChain.LocateIsFlat | istr.c:109-118 | the pool and local index of a handle hold the entry with that global index |
| PoolChain.FindQstr | istr.c:109-119 | the loop from the head terminates, because the root has `total_prev_len == 0`; it returns the newest pool with `total_prev_len <= q`, and the local index `q - total_prev_len` is below its `len` (the assertion at line 117 holds); that slot holds entry `q` |
| PoolChain.QstrHash | istr.c:310-317 | qstr_hash returns the stored hash of the entry with handle `q` |
| PoolChain.QstrLen | istr.c:319-322 | qstr_len returns the stored length of the entry with handle `q` |
| PoolChain.QstrStr | istr.c:324-327 | qstr_str returns the string reference (`qstrs` slot) of the entry with handle `q` |
| PoolChain.QstrData | istr.c:329-333 | qstr_data returns the content of handle `q` and its stored length, and the two agree for a usable reference |
| PoolChain.AllocDoubles | istr.c:132-160 | pools double in capacity: pool `i` of the chain holds `ISTR_ALLOC_ENTRIES_INIT * 2^i` entries |
| PoolChain.FirstHandleBound | istr.c:132-161 | every pool but the head is full, so the first handle of pool `i > 0` is at least `10 * (2^i - 1)` |
| Lookup.Narrow | istr.c:197-205 | the window the halving ends with lies inside the window it starts from and holds at most two entries |
| Lookup.NarrowKeeps | istr.c:197-205 | halving never loses position `k` when the input compares above every entry before `k` and at or below every entry from `k` on |
| Lookup.ProbesSplit | istr.c:199 | in a sorted, duplicate-free pool with `s` at entry `k`, `strncmp(s, entry, len)` is above 0 for every entry before `k` and at most 0 from `k` on |
| Lookup.WindowHolds | istr.c:192-206 | in a sorted, duplicate-free pool the window of the binary search holds every entry equal to the input |
| Lookup.Compare | istr.c:199 | one comparison of the search is `strncmp(str, pool->qstrs[mid], str_len)` on the entry's content, and it is element `mid` of the comparison sequence `Probes` that `Narrow` halves over |
| Lookup.BinaryNarrow | istr.c:192-206 | the binary search ends with the window `Narrow` describes: `low <= high < len` and `high - low <= 1`; when the pool really is sorted and free of duplicates, every entry equal to the input lies in `[low, high]` |
| Lookup.SearchPool | istr.c:192-218 | within one pool, an entry is reported exactly when some entry the scan reaches (the whole of an unsorted pool, the window of a sorted one) has the input's hash, length and bytes, and the reported index is the first such entry in scan order; a miss means no entry of the pool matches, for an unsorted pool or a sorted, duplicate-free one |
| Lookup.RootUnique | istr.c:79-98 | the static root pool of a well-formed chain has no duplicate non-empty content |
| Lookup.StoredMatches | istr.c:209-216 | a stored entry whose content is the input passes the scan's test: its stored hash is the input's hash and its stored length the input's length |
| Lookup.FindStrn | istr.c:179-223 | empty input gives `ISTR_` at once; a non-null result `total_prev_len + at` names an entry with the input's hash, length and bytes; a null result means that no entry of any pool holds the input |
| Interner.GrowKeeps | istr.c:252-259 | growing the active chunk in place keeps the invariant and every handle's content |
| Interner.NewChunkKeeps | istr.c:263-281 | starting a new chunk keeps the invariant and every handle's content; nothing is stored in the new chunk yet |
| Interner.WriteKeeps | istr.c:284-289 | copying the bytes and a 0 at `qstr_last_used` keeps every handle's content, puts the bytes there, and moves the mark past them |
| Interner.NewPoolKeeps | istr.c:132-164 | linking a new, empty pool after a full head keeps the invariant and the handles; the new head has a free slot |
| Interner.NewPoolShape | istr.c:158-162 | the chain after the link keeps its root, its shape and its handles, and its head has a free slot |
| Interner.NextPoolAsWritten | istr.c:158-161 | the pool as the code initialises it differs from `NextPool` only in the sorted flag, which holds whatever the fresh memory held |
| Interner.LeftoverFlagMisses | istr.c:192-218 | with the flag left set, the pool holding "b", "c", "a" in that order is searched as if sorted and the lookup of "a" misses although entry 2 matches |
| Interner.ClearedFlagFinds | istr.c:209-218 | with the flag cleared, the same pool is scanned in full and the lookup of "a" finds entry 2 |
| Interner.SnocEntries | istr.c:167-173 | an entry with new content extends a well-formed, duplicate-free list of entries, and the contents grow by exactly its content |
| Interner.AppendShape | istr.c:167-176 | storing an entry in a head with a free slot keeps the chain's shape and adds exactly that entry at handle `total_prev_len + len` |
| Interner.AppendKeeps | istr.c:167-176 | the same append keeps the whole invariant and adds the entry's content as the last handle |
| Interner.EmptyIdHolds | istr.c:180-183 | the handle `ISTR_` that lookup returns for empty input names an entry whose content is the empty string |
| Interner.Interner.Init | istr.c:102-106 | qstr_init: the chain is the static pool alone, there is no active chunk, and the invariant holds, including that `ISTR_` names a non-null static entry of length 0 |
| Interner.Interner.StoreBytes | istr.c:248-290 | byte placement succeeds exactly when the active chunk has room, can grow, or a new chunk (of `max(len+1, 10)` bytes, else exactly `len+1`) can be allocated; on success the bytes and a 0 sit at the old `qstr_last_used` (0 in a new chunk), which advances by `len+1` and stays within `qstr_last_alloc`; on failure there is no active chunk and nothing else changes; no pool changes |
| Interner.Interner.GrowOrDrop | istr.c:250-261 | when the string does not fit, a successful grow adds `len+1` bytes to `qstr_last_alloc` (not the shortfall); a failed grow abandons the chunk |
| Interner.Interner.StartChunk | istr.c:263-281 | a new chunk of `max(len+1, 10)` bytes, or exactly `len+1` as a fallback, becomes active with nothing used; if both allocations fail nothing changes |
| Interner.Interner.CopyIn | istr.c:283-290 | the bytes and a terminating 0 go to offset `qstr_last_used`, which moves past them; every handle keeps its content |
| Interner.Interner.Hashed | istr.c:124-125 | the entry qstr_add stores carries the hash of the referenced bytes, their length and the reference, and is a well-formed stored entry |
| Interner.Interner.DropChunk | istr.c:147 | after a failed pool allocation no chunk is active; pools, chunks and the chunk marks are unchanged |
| Interner.Interner.Add | istr.c:122-177 | qstr_add: when the head has a free slot, or a new pool of twice the capacity can be linked, the entry (with the hash of its bytes) goes to the head's next slot and the result is the old total; otherwise the result is null, the chain is unchanged and the active chunk is abandoned (line 147) |
| Interner.Interner.LinkPool | istr.c:158-162 | the new head has `total_prev_len = old total_prev_len + old len`, twice the capacity, no entries, and is unsorted; handles and contents are unchanged |
| Interner.Interner.Append | istr.c:166-176 | the entry goes to the head's slot `at = len`, `len` grows by one, and the result `total_prev_len + at` is the old total; older entries and pools are unchanged |
| Interner.Interner.FromStrnHelper | istr.c:229-297 | empty input gives `ISTR_`, which holds the empty string; content already interned gives its handle back with nothing changed; a new string of 256 bytes or more gives null with nothing changed; otherwise the result is non-null exactly when the bytes can be placed (or are static) and the pool step succeeds, and then the new handle is the old total and holds the string; a null result leaves every handle's content as it was |
| Interner.Interner.InternNew | istr.c:241-292 | for new content below the length limit, the result is non-null exactly when the bytes can be placed (or are static) and the pool step succeeds; then it is the old total and the handles grow by exactly the input; a null result leaves the pools and every handle's content as they were |
| Interner.Interner.FromStrn | istr.c:299-301 | qstr_from_strn: empty input gives `ISTR_`; a non-null result holds the input; content already interned comes back with nothing changed; a null result changes no content |
| Interner.Interner.InternTwice | istr.c:231-232 | idempotence: interning the same bytes twice gives the same handle, which holds those bytes, whatever the allocator does the second time |
| Interner.Interner.FromStrnStatic | istr.c:305-307 | qstr_from_strn_static: empty input gives `ISTR_`; a non-null result holds the input; content already interned comes back with nothing changed; a null result changes no content |
| RomText.DictPrefixIsPrefix | istr.c:391-392 | the encodings of the first `k` dictionary words are a prefix of the dictionary |
| RomText.WordAt | istr.c:391-393 | word `k` is stored, high bit set on its last byte, right after the encodings of the `k` words before it |
| RomText.EncodedByte | istr.c:391 | in an encoded word every byte but the last has the high bit clear and is the word's byte; the last has it set and is the word's byte once the bit is cleared |
| RomText.FindUncompressedString | istr.c:394-404 | skipping `n` words, each up to and including its first byte with the high bit set, ends exactly where word `n` starts |
| RomText.SkipPastHighBit | istr.c:397-400 | the inner scan stops just after the last byte of the encoded word it starts in |
| RomText.UntilNul | istr.c:414 | the body of a message is the prefix before the first 0, holds no 0, and is followed by a 0 when the input holds one |
| RomText.ExpandNext | istr.c:414-437 | each body byte appends its token (an optional space, then the word or the byte) to the text of the bytes before it, and the state becomes "after word" (1) or "after literal" (2) by the kind of the byte |
| RomText.ExpandGrows | istr.c:414-438 | the text of a prefix of the body is no longer than the text of the whole body |
| RomText.LiteralsVerbatim | istr.c:428-436 | a body of bytes below 128 decompresses to itself: no space is ever added between literals |
| RomText.ExpandHasNoNul | istr.c:439-440 | the decompressed text holds no 0, so the terminator written after it ends the C string exactly there |
| RomText.ExampleBody | istr.c:410-414 | the body of the message 0xFF 0x80 'X' 'Y' 0x81 0 is the four bytes between the marker and the 0 |
| RomText.ExampleText | istr.c:414-438 | with the dictionary "cat", "dog" that message decompresses to "cat XY dog": a space between a word and a literal, none between two literals, none before the first word |
| RomText.Put | istr.c:417 | one byte is written at the output position, which moves past it |
| RomText.CopyEncoded | istr.c:424-427 | the copy loop writes the word's bytes with the high bit of the last one cleared, and the output position moves past the word |
| RomText.CopyWord | istr.c:422-427 | word `n` of the dictionary is written at the output position, which moves past it |
| RomText.EmitToken | istr.c:415-436 | a word byte writes a space unless in the start state, then the word; a literal writes a space only after a word, then itself |
| RomText.ExpandByte | istr.c:414-438 | one round of the loop leaves the output holding the text of one more body byte, with the state and output position to match |
| RomText.DecompressRomString | istr.c:408-441 | the marker is skipped, the output begins with the decompressed text of the body followed by a 0, and no byte after that terminator changes |

## Findings

| source | as written | input that shows it | evidently intended | confidence | as-written member | corrected member |
|---|---|---|---|---|---|---|
| istr.c:158-161 | `qstr_add` sets `prev`, `total_prev_len`, `alloc` and `len` of a pool it has just allocated with `malloc`, but not `is_sorted`, so the flag holds whatever that memory held | the new pool's memory has the `is_sorted` bit set, and "b", "c", "a" are interned into it in that order; a lookup of "a" then runs the binary search, narrows to entries 0 and 1, and misses "a", so interning "a" again stores a duplicate | every pool linked at run time has `is_sorted` false: only the static pool is initialised sorted (istr.c:82), and the halving of istr.c:196-205 is only valid on sorted data | medium, not executed; it depends on the contents of uninitialised memory | Interner.LeftoverFlagMisses | Interner.NewPoolKeeps |

`Interner.NextPoolAsWritten` is the pool as the code writes it. `Interner.NextPool` sets the flag
to false, and the rest of the model links that pool. With it, `Interner.NewPoolKeeps` proves
that the invariant (later pools are unsorted) is kept, and `Lookup.FindStrn` proves that a null
lookup means the content is absent. `Interner.ClearedFlagFinds` shows the same pool as above
being searched correctly.

## Left out

- `qstr_from_str` (istr.c:225-227) only measures a C string with `strlen` and calls
  `qstr_from_strn`, so the model covers it through `Interner.Interner.FromStrn`. Strings
  here are byte sequences with an explicit length.
- The `DEBUG_printf` calls of `qstr_add` (istr.c:126, 128, 163) are logging only and change
  no state, so they are not modelled.
- `qstr_pool_info` and `qstr_dump_data` (istr.c:335-368) are not modelled: they are debug
  statistics and printing through `ISTR_PLAT_PRINTF`.
- `makeistrdefs.py`, `makeistrs.py` and the headers they generate are not modelled: they are
  build-time tooling. The static table they produce is the input of
  `Interner.Interner.Init`, constrained by `StaticTableOk`, and the dictionary is an input
  of the decompressor.
- `ISTR_ENTER` and `ISTR_EXIT` are empty macros (istr.c:26-27), and nothing is concurrent,
  so there is nothing to model.
- `malloc` and `realloc` are foreign calls. Their outcomes are booleans in `Allocator`. The
  bytes of new or grown memory, which C leaves unspecified, are zeros in the model; no entry
  ever reads them.
- Interner.Interner.GrowOrDrop: the model grows the active chunk in place. The C code discards
  the address `realloc` returns (istr.c:252), so a moved block is not captured. The shrinking
  `realloc` on failure (istr.c:255) is modelled as leaving the chunk's bytes alone, because
  the chunk is then abandoned.
- Memory layout is not modelled: the bitfields of the pool header, the trailing arrays with
  their address arithmetic (istr.c:134-157) and the `sizeof` arithmetic become sequences.
- The model does not capture `size_t` overflow of handles or of `total_prev_len`. Handles
  are unbounded naturals. Hashes and lengths fit their one-byte fields, as proved through
  `Hash.HashOf` and the length check.
- Order.LexCmp: the comparator is lexicographic order on the first `len` bytes. The model
  does not treat an embedded 0 byte as a terminator the way `strncmp` does.
- Interner.Interner.FromStrnStatic: the assertion `str[len] == '\0'` (istr.c:243) is not
  modelled; static data is just the byte sequence.
- Interner.Interner.Init: the static pool is `const` data with `alloc ==
  ISTR_ALLOC_ENTRIES_INIT`, so the model requires it to hold at least that many entries.
  With fewer, the first append would write into constant memory.
- Interner.Interner.FromStrn and Interner.Interner.FromStrnStatic state a weaker contract than
  Interner.Interner.FromStrnHelper, which carries the full case analysis for both.
- RomText.DecompressRomString: `ISTR_ROM_TEXT_COMPRESSION` is 0 in istr.h, so this code is
  compiled out by default; it is modelled anyway. Like the C code, it does not check the
  leading 0xFF marker. It requires what the C code leaves undefined: every word byte names a
  word of the dictionary, and `dst` can hold the text and its 0.
