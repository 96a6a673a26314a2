# imap in Dafny

A model of imap, an integer map from 64-bit keys to 64-bit values, and of the
small test driver that runs its tests.

- **The map (imap.h).**
  - The map is a path-compressed radix tree with 16-way nodes, one level per
    4-bit nibble of the key.
  - The whole tree lives in one growable buffer of 64-byte nodes, addressed by
    byte offset.
  - Node 0 is a header holding four words: the root slot, the head of the free
    list of 64-bit value cells, the bump-allocation mark, and the buffer size.
  - Each 32-bit slot carries:
    - one nibble of its node's 64-bit prefix;
    - a node flag and a scalar flag;
    - a child offset, an inline value below 2^26, or the index of a value cell.
- **The test driver (tlib/testsuite.c).**
  - Registered tests are kept in circular lists through a sentinel.
  - The command line decides which tests run.
  - Each test's name is shown padded to a fixed width.

## How the model is built

| file | contents |
|---|---|
| `bits.dfy` | The pure bit helpers: nibbles, `packlo4`/`unpacklo4`, `xdir`, `xpos`, `xpfx`, `bsr`, `ceilpow2`. |
| `layout.dfy` | Header words, slot encoding, `imap_hasval`, `imap_getval`. |
| `tree.dfy` | The tree read off a buffer, the map it denotes, and the invariant. |
| `assign.dfy` | `imap_assign` as a function on the word sequence, and the shape of its walk. |
| `assign_valid.dfy` | Proofs that `imap_assign` keeps the invariant and the map. |
| `values.dfy` | `imap__alloc_values__`, `imap_setval`, `imap_delval` and their proofs. |
| `ensure.dfy` | `imap_ensure`, and the proofs about fresh and grown buffers. |
| `imap.dfy` | Class `Imap`: the buffer as an `array<u32>`, updated in place, with each method proved equal to the functional model. |
| `findings.dfy` | The two 32-bit defects of `imap.h` as written: the truncated prefix of `imap__xpfx__`, with a proof that `imap_assign` as written is the corrected one while every prefix fits in 32 bits, and the wrap of `mark << 3` in `imap__alloc_values__`. |
| `testsuite.dfy` | The test registry, the argument scan, the selection rule and display names. |

- **Buffer.**
  - The buffer is a sequence of 32-bit words.
  - A 64-bit value cell `k` is words `2k` (low half) and `2k+1` (high half), which assumes little-endian layout.
- **Invariant.** `ValidWith(w, h)` relates a buffer to a ghost `Heap` that records:
  - what each 16-word block is used for: header, node, values or unused;
  - which key owns each value cell;
  - the free cells, in list order.
- **What the invariant says.**
  - The header is well formed.
  - Every node lies below the mark.
  - Along every walk from the root, node positions strictly decrease, and each node's prefix agrees with the keys below it.
  - Each value cell is owned by exactly one slot.
  - The free list is a chain of unowned cells ending in 0.
- **The map** is `Get(w, x)`: the walk of `imap_lookup`, followed by `imap_getval`.
- **Failures passed in as parameters.**
  - A failing allocation in `imap_ensure` is the parameter `allocOK`.
  - Memory that `aligned_alloc` leaves uninitialised is modelled as zeros.

## Model

| member | source | states |
|---|---|---|
| Bits.PackNibbles | imap.h:196-209 | Nibble `q` of the packed prefix is the low nibble of one node word: word `2q` for `q < 8`, word `2(q-8)+1` otherwise. |
| Bits.PackLow | imap.h:196-209 | The packed prefix depends only on the low nibbles of the 16 words. |
| Bits.Unpacklo4 | imap.h:211-223 | Unpacking keeps bits 4..31 of every word and sets each low nibble to the matching nibble of the value. |
| Bits.PackUnpack | imap.h:196-223 | Packing after unpacking `v` gives back `v`. |
| Bits.XdirFromNibbles | imap.h:292-296 | `xdir(x, q)` is nibble `q` of `x`. |
| Bits.BsrBounds | imap.h:126-142 | `bsr(x)` is the index of the highest set bit of `x \| 1`: `2^bsr <= x \| 1 < 2^(bsr+1)`. |
| Bits.Bsr | imap.h:126-142 | `bsr` is below 64. |
| Bits.Ceilpow2Least | imap.h:144-148 | For `x >= 2`, `ceilpow2(x)` is a power of two `2^k` with `2^k/2 < x <= 2^k`: the least power of two not below `x`. |
| TreeEnsure.CeilpowFacts | imap.h:144-148 | `need <= ceilpow2(need) < 2*need`; once `need > 32` the result is at least 64 and a multiple of 64. |
| Bits.XposSpec | imap.h:286-290 | `xpos(x)` is the highest non-zero nibble of `x`: every nibble above it is 0, and nibble `xpos(x)` itself is non-zero when `xpos(x) > 0`. |
| Bits.XposXor | imap.h:286-290 | `xpos(a ^ b)` is the highest nibble where `a` and `b` differ; they agree above it. |
| Bits.XpfxNibbles | imap.h:280-284 | `xpfx(x, pos)` clears nibbles `0..pos` of `x` and keeps every nibble above; this is the 64-bit version. |
| Bits.LeafPrefixMatch | imap.h:394-395 | `p == x & ~0xf` exactly when nibble 0 of `p` is 0 and every other nibble equals the same nibble of `x`. |
| Layout.Hasval | imap.h:448-454 | A value slot has a value exactly when it holds an inline value or owns a value cell. |
| Layout.Getval | imap.h:456-465 | The value is 0 when the slot has none; an inline value is below 2^26. |
| Layout.WriteCell | imap.h:494 | Writing value cell `k` sets words `2k`, `2k+1` to the 64-bit value and nothing else. |
| Tree.SlotInjective | imap.h:382-401 | Two keys never reach the same slot. |
| TreeAssign.Locate | imap.h:411-441 | Every node the descent of `imap_assign` names lies inside the buffer. The descent ends at the key's existing slot, an empty slot to hang a leaf on, or a child to split, or it is Stuck when a pointer leaves the buffer or fails to lower the position. |
| TreeAssign.PathNotStuck | imap.h:411-441 | Along a path that keeps the invariant, the descent is never Stuck. |
| TreeAssign.ValidNotStuck | imap.h:403-446 | On a valid tree, the descent of every key ends at one of the three places `imap_assign` handles. Room for the nodes it needs (the assertion of `imap__alloc_node__`) is then all `imap_assign` asks. |
| TreeAssign.LocateFacts | imap.h:411-441 | Where the descent stops, the conditions of that outcome hold: an existing leaf slot for the key; an attach point at a non-node slot of an inner node; or a split of a child whose position is below `xpos(prefix ^ x)`. |
| TreeAssign.SplitPrefixNibbles | imap.h:427-437 | The corrected 64-bit prefix of a new inner node (SplitPrefix) has nibble 0 equal to `diff`, nibbles `1..diff` equal to 0, and the higher nibbles of the displaced child. |
| AssignValid.AttachValid | imap.h:416-421 | Hanging a fresh leaf (initialised at lines 442-445) keeps the invariant and every key's value, and the key's new slot is empty. |
| AssignValid.SplitValid | imap.h:428-445 | Splitting at `diff` keeps the invariant and every key's value. The key's slot is then word `x % 16` of the fresh leaf, and it is empty. |
| AssignValid.AssignCorrect | imap.h:403-446 | On a valid tree with room for the nodes the key needs, `imap_assign` with the 64-bit split prefix keeps the invariant and every key's value, and returns the key's slot. For a present key, the buffer is unchanged and nothing is allocated. For a new key, the slot is empty and the mark grows by 64 bytes times the nodes needed (1 or 2). |
| TreeValues.AllocWords | imap.h:298-314 | `imap__alloc_values__` takes the block at the mark and chains its 8 cells onto the free list, with cell `8b` first and the last link 0. It advances the mark by 64 and changes no other block. |
| TreeValues.AllocStep | imap.h:485-487 | Creating value cells from an empty free list keeps the map and leaves a non-empty free list. |
| TreeValues.TakeStep | imap.h:483-490 | Taking a cell for key `x` keeps every key's value and the free-list invariant. The returned slot word is 64 times a non-zero cell index below 2^26, and the ghost heap records that cell as owned by `x`. |
| TreeValues.ReleaseStep | imap.h:474-477 | Releasing a slot's cell keeps every key's value and the free-list invariant; the slot word itself is rewritten afterwards. |
| TreeValues.DelvalCorrect | imap.h:498-509 | `imap_delval` keeps the invariant. Afterwards the key has no value, every other key keeps its value, and the slot keeps only its prefix nibble. An owned cell becomes the free-list head. |
| TreeValues.SetvalCorrect | imap.h:467-496 | `imap_setval(x, y)` keeps the invariant. Afterwards `imap_lookup` finds the same slot with value `y` (also for `y == 0`), every other key keeps its value, and the slot's prefix nibble is unchanged. |
| TreeValues.SetScalar | imap.h:472-480 | The inline branch (value below 2^26, any owned cell released first): the invariant holds, `x` maps to `y`, every other key is unchanged, and the prefix nibble is kept. |
| TreeValues.SetOwned | imap.h:481-495 | The branch for a large value in a slot that already owns a cell, which is rewritten in place: the same four facts as SetScalar. |
| TreeValues.SetTaken | imap.h:481-495 | The branch for a large value in a slot without a cell, which takes one from the free list (creating 8 when it is empty): the same four facts as SetScalar. |
| TreeValues.VacantEmpty | imap.h:448-465 | A freshly assigned slot has no value and `imap_getval` returns 0. |
| TreeValues.AssignSetval | imap.h:403-496 | On a valid tree with room for the key's nodes, after `s = imap_assign(x)` and `imap_setval(s, y)`, the invariant holds, `x` maps to `y`, and every other key is unchanged. Before the set, the new slot has no value. |
| TreeEnsure.NewTreeValid | imap.h:359-371 | A new tree (empty root, mark 64, header cells 2..7 chained) satisfies the invariant, with free list `[2..7]`, and holds no key. |
| TreeEnsure.RegrowValid | imap.h:373-378 | Growing copies the words below the mark, changing only the size word. It keeps the invariant and every key's value. |
| TreeEnsure.GrownValid | imap.h:355-379 | A new or grown buffer of any admissible size keeps the invariant and the map (empty for a new one). |
| TreeEnsure.EnsureOutcome | imap.h:329-380 | `imap_ensure(t, n)` returns `t` when `n == 0` or the needed mark fits. Otherwise it fails exactly when allocation fails or `ceilpow2(mark) > 0x80000000`. Any result has room for the needed mark, and a new buffer's size is the least power of two that holds it. |
| TreeEnsure.EnsureValid | imap.h:329-380 | `imap_ensure` keeps the invariant and the map; a tree made from nothing is empty. |
| ImapObject.Imap.Unpack | imap.h:211-223 | `imap__unpacklo4_port__` in place: the node's 16 words become Unpacklo4 of them, and nothing else changes. |
| ImapObject.Imap.AllocNode | imap.h:235-242 | Under `mark + 64n <= size`, it returns the old mark and advances the mark by `64n`. |
| ImapObject.Imap.Lookup | imap.h:382-401 | The loop of `imap_lookup` returns the slot that the functional walk finds. |
| ImapObject.Imap.Walk | imap.h:411-441 | The descent loop of `imap_assign` stops where Locate says. |
| ImapObject.Imap.AssignWords | imap.h:403-446 | `imap_assign` in place produces the buffer and slot of the functional Assign. |
| ImapObject.Imap.Assign | imap.h:403-446 | On a valid object with room for the key's nodes, `imap_assign` keeps the object valid and the map's contents unchanged, and returns the key's slot. |
| ImapObject.Imap.AllocValuesWords | imap.h:298-314 | `imap__alloc_values__` in place equals AllocValues. |
| ImapObject.Imap.SetvalWords | imap.h:467-496 | `imap_setval` in place equals the functional Setval. |
| ImapObject.Imap.Setval | imap.h:467-496 | The object stays valid, and its contents become the old contents with `x` mapped to `y`. |
| ImapObject.Imap.DelvalWords | imap.h:498-509 | `imap_delval` in place equals the functional Delval. |
| ImapObject.Imap.Delval | imap.h:498-509 | The object stays valid, and its contents become the old contents without `x`. |
| ImapObject.Imap.Ensure | imap.h:329-380 | Success is exactly when the functional Ensure succeeds. On success, the buffer is the functional result, valid, with the same contents and room for the needed mark. On failure, nothing changes. |
| ImapObject.Imap.Create | imap.h:329-371 | `imap_ensure(0, n)`: null exactly when Ensure fails; otherwise a fresh valid, empty map with room for the needed mark. |
| Findings.SplitPrefixAsWritten | imap.h:281-284 | The split prefix as written: its low nibble is `diff`, and it always fits in 32 bits. |
| Findings.SplitPrefixTruncates | imap.h:427-437 | For keys `0x1_0000_0000` and `0x1_0000_0010`, the split prefix as written loses nibble 8. A third key, `0x1_0000_0020`, then sees `xpos = 8` instead of 1. |
| Findings.SplitPrefixAgrees | imap.h:281-284 | Below 2^32 the truncated and the 64-bit prefix agree. |
| Findings.AssignAgrees | imap.h:427-437 | `imap_assign` as written builds the same buffer and returns the same slot as the corrected one, unless it splits above a child whose prefix needs more than 32 bits. |
| Findings.NarrowNew | imap.h:359-371 | A new tree has every node prefix below 2^32. |
| Findings.SplitNarrow | imap.h:427-437 | A node splitting two 32-bit numbers branches at nibble 7 or below, so its prefix fits in 32 bits. |
| Findings.NarrowAssign | imap.h:403-446 | On a valid tree whose node prefixes fit in 32 bits, `imap_assign` as written of a key below 2^32 equals the corrected `imap_assign`, and the prefixes still fit. |
| Findings.AssignAsWrittenCorrect | imap.h:403-446 | On such a tree, `imap_assign` as written of a key below 2^32 keeps the invariant, the 32-bit prefixes and every key's value, and returns the key's slot. |
| Findings.AllocWraps | imap.h:298-304 | With an empty free list and the mark at 2^29 + 64, `mark << 3` wraps to 512. `imap_setval` of a large value then hands out cell 8 (words 16 and 17 in block 1, below the new block) and writes the value over those words. |
| TreeEnsure.EnsureWraps | imap.h:348-352 | For `n = -0x200_0000` on a fresh 256-byte tree, the wrapped mark is 64, so the tree is returned unchanged. The intended mark is `2^32 + 64`, for which `imap_ensure` must fail. |
| TreeEnsure.EnsureWrapsNull | imap.h:348-366 | For `n = 0x20000000` on a null tree, the wrapped mark is 56, which rounds up to a 64-byte empty tree. The intended mark is above 2^36, for which `imap_ensure` must fail. |
| TreeEnsure.EnsureAgrees | imap.h:348-352 | While the needed mark stays below 2^32, `imap_ensure` as written returns what the corrected one returns. |
| TestSelect.StoreName | tlib/testsuite.c:33-37 | A stored name fills a 64-character buffer whose last character is the terminator. Its string is the name cut to 63 characters. |
| TestSelect.SameUpToTrunc | tlib/testsuite.c:209-210 | On whole C strings, `strncmp(a, b, n) == 0` exactly when the first `n` characters (or all, if fewer) are equal. |
| TestSelect.MatchesMeaning | tlib/testsuite.c:208-210 | A pattern ending in `*` matches every name that starts with the text before the `*`. Any other pattern must equal the name. |
| TestSelect.ScanArgs | tlib/testsuite.c:162-187 | An unknown `--` option exits with status 2. Otherwise default selection stays on exactly when every argument begins with `-`. `--no-abort` and `--repeat-forever` set their modes, and the last of `--list`/`--tap` picks the report. |
| TestSelect.LastOutputRightmost | tlib/testsuite.c:171-174 | The report is that of the rightmost `--list` or `--tap`, or the default when there is none. |
| TestSelect.LastNameDecides | tlib/testsuite.c:195-219 | A test is decided by the rightmost argument that names it: `+` runs it, `-` skips it, a bare pattern runs it unless it is optional. With no such argument, it runs when default selection is on and it is not optional. |
| TestSelect.Select | tlib/testsuite.c:195-220 | The backward loop over the arguments computes Selects. |
| TestSelect.DefaultSelection | tlib/testsuite.c:164-195 | With only `-` arguments, exactly the non-optional tests that no `-` pattern names run. |
| TestSelect.SelectedByPattern | tlib/testsuite.c:195-217 | A test that runs although it is optional, or although default selection is off, was named by an argument that selects it; an optional one by a `+` argument. |
| TestSelect.LongOptionIgnored | tlib/testsuite.c:202-205 | Adding a `--` option anywhere on the command line changes no test's selection. |
| TestSelect.DisplayName | tlib/testsuite.c:112-118 | The display name is the name cut to 39 characters and padded with `.`, then terminated. Its string length is always 39. |
| TestRegistry.TestList.constructor | tlib/testsuite.c:29-32 | An empty list is the sentinel pointing at itself, with the tail on the sentinel. |
| TestRegistry.TestList.Add | tlib/testsuite.c:33-43 | Appending keeps the list a ring through the sentinel, with the tail on the new test. The registration order gains the new test at the end, its name stored as StoreName says. |
| TestRegistry.Live | tlib/testsuite.c:193 | The walk visits the longest prefix of the registered tests whose functions are non-null; that is all of them when none is null. |
| TestRegistry.Chosen | tlib/testsuite.c:193-222 | The chosen tests are the visited tests that Selects accepts, each one of them, in registration order. |
| TestRegistry.TestList.Selection | tlib/testsuite.c:188-222 | The loop from the tail's successor's successor up to the sentinel's null function collects exactly Chosen of the visited tests. |

## Left out

- SIMD pack/unpack (imap.h:150-192): only the portable versions are modelled, which the SIMD ones are meant to equal.
- `bsr` is modelled as floor(log2(x | 1)), not as the compiler intrinsics.
- Memory management is not modelled:
  - `imap__aligned_alloc__` and `imap__aligned_free__`;
  - `imap_free`;
  - freeing the old buffer in `imap_ensure`.
  - Allocation failure is the `allocOK` parameter. Growth is a fresh array holding the words below the mark; the rest of the array is zeros instead of uninitialised memory.
- Value cells and free links are read as little-endian 64-bit words (imap.h:464, 489); the byte layout itself is not modelled.
- `imap_dump` (imap.h:511-548): debugging output.
- The `IMAP_ASSERT` checks become preconditions:
  - `mark + n*64 <= size` in `imap__alloc_node__`;
  - a value slot in `imap_hasval`, `imap_getval`, `imap_setval` and `imap_delval`.
- TreeValues.SetvalCorrect: requires `mark + 64 <= 2^29` when a new value block must be created. `imap__alloc_values__` shifts the mark left by 3 in 32 bits, so larger marks would wrap (the second row of Findings, Findings.AllocWraps).
- TreeValues.AssignSetval: the same `mark + 64 <= 2^29` bound as SetvalCorrect when a new value block must be created.
- ImapObject.Imap.Setval: the same `mark + 64 <= 2^29` bound as SetvalCorrect when a new value block must be created.
- TreeValues.AllocWords: proved only for `mark + 64 <= 2^29`, where `mark << 3` does not wrap; past it the cells are chained from the wrong head (Findings.AllocWraps).
- TreeValues.AllocStep: the same `mark + 64 <= 2^29` bound as AllocWords.
- TreeValues.TakeStep: when the free list is empty, the same `mark + 64 <= 2^29` bound as AllocWords.
- TreeValues.SetTaken: when the free list is empty, the same `mark + 64 <= 2^29` bound as AllocWords.
- AssignValid.AssignCorrect: states the corrected `imap_assign`, whose new inner node keeps the 64-bit prefix (SplitPrefix). `imap_assign` as written is Findings.AssignAsWritten; it is proved equal to the corrected one only for keys below 2^32 on trees whose node prefixes fit in 32 bits (Findings.NarrowAssign).
- Findings.AssignAsWrittenCorrect: the 32-bit prefix bound (Findings.Narrow) is proved to hold on a new tree and to be kept by `imap_assign` as written; that `imap_setval`, `imap_delval` and `imap_ensure` keep it too is not proved, so the bridge covers runs of assignments only.
- AssignValid.SplitValid: the split with the corrected 64-bit prefix, as in AssignCorrect.
- ImapObject.Imap.AssignWords: writes the corrected 64-bit prefix, as in AssignCorrect. On a bare buffer it still requires that the walk is not Stuck, since the C loop need not end there; a valid tree discharges that through TreeAssign.ValidNotStuck.
- ImapObject.Imap.Assign: the corrected `imap_assign`, as in AssignCorrect.
- TreeEnsure.EnsureOutcome: states the corrected `imap_ensure`, whose needed mark does not wrap. `imap_ensure` as written is TreeEnsure.EnsureAsWritten, which agrees with it while the needed mark stays below 2^32.
- TreeEnsure.EnsureValid: the corrected `imap_ensure`, as in EnsureOutcome.
- ImapObject.Imap.Ensure: the corrected `imap_ensure`, as in EnsureOutcome.
- ImapObject.Imap.Create: the corrected `imap_ensure` on a null tree, as in EnsureOutcome.
- `imap_ensure` as written on a null tree whose wrapped mark lies between 1 and 32: the source allocates fewer than 64 bytes and writes the 64-byte header past them. TreeEnsure.EnsureAsWritten excludes that case, since the model has no memory outside the buffer.
- TreeEnsure.IntArg: `n` is limited to `-0x7fffffff..0x7fffffff`. `n == INT_MIN` is left out, because `-n` at imap.h:349 is undefined behaviour in C for it.
- Tree.Lookup: on a buffer that breaks the invariant, the C loop can run forever; the model's walk stops when positions fail to decrease. Every caller requires the invariant, under which both agree.
- ImapObject.Imap.Walk: the `for(;;)` loop of `imap_assign` is modelled as a read-only descent followed by the writes of the place found. The loop writes only when it leaves, so the stores are the same.
- Stores the source unrolls are written as loops over 16 words (ZeroNode, Unpack, InitLeaf) or over 8 cells (alloc_values).
- iset.h, ivmap.h, test/test.c, fuzz/fuzz.cpp, perf/ and doc/graph.c are not part of this model. They use an imap interface that imap.h does not define, or they are benchmarks and drivers.
- Parts of tlib/testsuite.c outside the registry and selection are not modelled:
  - timing (`get_time`);
  - `setjmp`/`longjmp` in no-abort mode;
  - `tlib__assert`;
  - printf output;
  - hooks and `add_hook_to_list`;
  - running the suite and test functions;
  - the repeat loop.
- `tlib_add_test_suite`, `tlib_add_test` and `tlib_add_test_opt` are `TestList.Add` on the suite list or the test list, with `optional` false, false and true. They are not written out as separate methods.
- `calloc` failure in `add_test_to_list` is not modelled.
- `ULONG_MAX` is taken as 2^64-1 (LP64).
- Function pointers are numbers, with 0 for null.

## Findings

| source | as written | input that shows it | evidently intended | confidence | as-written member | corrected member |
|---|---|---|---|---|---|---|
| imap.h:281-284, 437 | `imap__xpfx__` returns `imap_u32_t`, so the prefix of a new inner node loses every nibble above the 8th. | Assign keys `0x1_0000_0000` and `0x1_0000_0010`. The inner node gets prefix 1 instead of `0x1_0000_0001`. Key `0x1_0000_0020` then computes `xpos = 8` and splits above the node, so keys end up misplaced. | The prefix keeps all 64 bits of the key above `diff`. | high, not executed | Findings.SplitPrefixAsWritten / Findings.AssignAsWritten / Findings.SplitPrefixTruncates | TreeAssign.SplitPrefix / AssignValid.AssignCorrect |
| imap.h:298-304 | `mark <<= 3` is computed in `imap_u32_t`, while `imap_ensure` lets buffers grow to 0x80000000 bytes (imap.h:354), so the head of the new cells wraps once the mark reaches 2^29. | A tree whose mark is 2^29 + 64, with an empty free list: `imap_setval` of `y >= 2^26` on a slot without a cell takes head 512, cell 8. Those are words 16-17 of block 1, the first node `imap_assign` took, and `y` is written over them. At mark 2^29 the head is 0 and the assertion at imap.h:488 fails. | New value cells lie in the block just taken: the mark must stay below 2^29, or buffers must stop at 0x20000000 bytes. | high, not executed | Findings.AllocWraps | TreeValues.SetvalCorrect |
| imap.h:348-352 | The needed mark is computed in `imap_u32_t`, so `-n * 128` or `n * 128 + ...` wraps for large `\|n\|`. | `imap_ensure(t, -0x200_0000)` on a fresh 256-byte tree: the mark wraps to 64, and the tree is returned as if it had room. `imap_ensure(0, 0x20000000)`: the mark wraps to 56, and a 64-byte tree with no room is returned. | Compute the mark without wrap-around: a request that cannot fit in 0x80000000 bytes fails. | high, not executed | TreeEnsure.EnsureAsWritten / TreeEnsure.EnsureWraps / TreeEnsure.EnsureWrapsNull | TreeEnsure.Ensure / TreeEnsure.EnsureOutcome |
