# tinycc interpreter core in Dafny

This project models the two stateful pieces of the incremental C interpreter built on tinycc.
It proves properties about each.

**The open-addressed hash table** in `help/hash_table.c`. Every symbol, redirection and
file lookup of the interpreter goes through it.
- `hash_table_t` becomes the class `HashTables.HashTable`. It holds a slot array and the array
  of inserted hashes, both updated in place, plus `capacity` and `n`.
- Slot `next` pointers are slot indices. A ghost `rank` witnesses that every chain ends.
- The methods follow the C functions branch for branch: quadratic probing, splicing after the
  home slot, the chain walk of `find`, and the grow-and-rehash of `maybe_grow`. They also cover
  the find-then-update-or-insert entry points and `hash_djb2`.
- `remove` keeps the source's walk and its three cases, but two of those cases are the repaired
  ones listed under "## Findings". `RemoveFindings.RemoveAsWritten` is the removal as written.
  `RemoveFindings.RemoveMatchesSource` proves the two agree on every table where the source's
  removal leaves a sound table.
- Each method is proved against sequence-level specification functions in `HashTableSpec`
  (`Offer`, `FindFrom`/`Lookup`, `RemoveSlots`, `Rehash`).
- The table invariant (`TableInv`) says two things. The `next` links form sound chains
  (`Linked`). Every filled slot is reachable from its home slot (`Findable`).
- Lemmas show that every operation keeps the invariant and that `n` counts the filled slots. They
  also show that lookups change only at the key operated on.

**The incremental loader logic** of `tccrun.c`.
- *Section layout* (`SectionLayout`): the two-group walk that pads the running offset to each
  section's alignment, writes `sh_addr` and advances the offset by the section's size.
  - `offset`, `align` and `max_align` are 32-bit `unsigned`. Addresses are 64-bit `addr_t`.
  - The walk is modelled on the array of sections. It is specified by `Laid`/`End`, functions
    of the table before the pass.
- *Layout properties* (`LayoutProperties`, `BufferCoverage`):
  - placed sections get increasing, disjoint ranges inside the final offset;
  - each lands on its power-of-two alignment;
  - code and data never share a 64-byte unit;
  - when the buffer address is a multiple of `max_align + 1`, the final pass reproduces the
    sizing pass, so every section lies within `offset + max_align` bytes of the buffer. These
    are the bytes requested unless that `unsigned` sum wraps 32 bits;
  - laying out twice is the same as laying out once with the last base.
- *The driver* `tcci_relocate_into_memory` (`Interpreter.InterpState.RelocateIntoMemory`):
  - error codes 1, 2 and 3 after the three unseen passes;
  - the allocation bookkeeping, single-use against accumulated blocks;
  - the two layout passes and the publish loop.
- *Publishing and redirection* (`SymbolTables`, `Interpreter`):
  - the filter that picks `STT_FUNC` symbols of the text section;
  - `tcci_set_interp_symbol`. It keys symbols by djb2 of the name, times djb2 of the file for
    `STB_LOCAL`, and maintains `symbols`, `hash_to_addr` and `addr_to_addr`. On redefinition it
    overwrites every recorded GOT slot with the new address. This is the hot-patching that
    `tests/itptest.c` relies on.
- *Page rounding* (`Pages`): the start and end that `set_pages_executable` hands to `mprotect`.

Two of the source's layout choices differ from a natural reading. The model follows the code:
- **The layout places executable sections first.** The test `k != !(sh_flags & SHF_EXECINSTR)`
  keeps a section in the pass with `k == 0` exactly when it is executable. The k=0 pass (code)
  therefore runs before the k=1 pass (data). The k=0 pass uses base `mem + ptr_diff`; the
  interpreter's own passes use `ptr_diff = 0`.
- **`maybe_grow`'s capacity** is `2 * (2*cap > new_n ? cap : new_n)`. That is `2*cap` when
  doubling is enough, else `2*new_n` (`HashTables.GrownCapacity`).

Some source defects are preconditions of the corresponding methods (see "## Left out"):
- the defects of `maybe_grow` and the `set` loops;
- the NULL dereference of `hash_table_remove` on an absent key whose home slot is filled;
- `hash_table_remove` emptying a slot that is another key's home slot, after which that key is
  no longer found. "## Findings" shows this on the table that inserts 0, 5, 1 build.

The two removal branches that corrupt a table or write through NULL
(help/hash_table.c:108-112 and 117-121) are not preconditions. The model repairs them, and
"## Findings" shows the as-written behaviour on concrete tables.

## Model

| member | source | states |
|---|---|---|
| StringHash.HashDjb2 | help/hash_table.c:8-18 | the loop computes djb2 of the string: seed 5381, then `hash*33 + c` per byte modulo 2^64; the empty string hashes to 5381 |
| StringHash.Djb2Snoc | help/hash_table.c:13-15 | appending a byte applies one step `h*33 + c` (mod 2^64) to the hash of the prefix |
| StringHash.CollidingNames | help/hash_table.c:8-18 | the distinct names "ab" and "bA" have the same djb2 hash, 5863208 |
| HashTables.HashTable.Init | help/hash_table.c:20-31 | a start capacity below 1 becomes 10; n = 0; every slot is empty; no key is present; the table is valid and listed |
| HashTables.HashTable.Clear | help/hash_table.c:39-43 | every slot is emptied and n = 0 with capacity kept; afterwards no key is present |
| HashTableSpec.FreeProbeFrom | help/hash_table.c:55-59 | the probe index found is the first at or after i whose slot `(home + j*j) % capacity` is unfilled; none is found exactly when all those slots are filled |
| HashTableSpec.FreeProbeNotFull | help/hash_table.c:55-59 | if the probe finds a free slot, fewer than capacity slots are filled |
| HashTableSpec.ProbeMirror | help/hash_table.c:55-59 | the probes numbered j and capacity - j meet the same slot |
| HashTableSpec.ProbeHalf | help/hash_table.c:55-59 | the probe of `change_value` gives up exactly when the slots of its first capacity / 2 + 1 probes are all filled |
| HashTableSpec.HalfFilledMiss | help/hash_table.c:55-59 | in a table of capacity 10 with only six slots filled, a key whose home slot is 0 finds no free slot |
| HashTables.HashTable.ProbeFree | help/hash_table.c:49-59 | found exactly when one of the probes (start + i*i) % capacity, 0 <= i < capacity, meets an unfilled slot; index is the slot of the first such probe |
| HashTables.HashTable.PlaceEntry | help/hash_table.c:61-70 | the slots become `PlaceAt(old slots, h, v, index)`: slot index holds (h, filled, v) and, when it is not the home slot, is linked in right after the home slot |
| HashTables.HashTable.ChangeValue | help/hash_table.c:46-73 | the slots become `Offer(old slots, h, v)`; SUCCESS exactly when the probe finds an unfilled slot, else ERROR |
| HashTableSpec.OfferPreserves | help/hash_table.c:46-73 | offering an absent key keeps the table invariant; on success the key maps to v and the filled count grows by one; on failure the slots are unchanged; lookups of other keys are unchanged |
| HashTableSpec.PlacePreserves | help/hash_table.c:61-72 | writing (h, filled, v) into the probed slot and splicing it after the home slot keeps the invariant, makes h map to v, leaves other keys alone and adds one filled slot |
| HashTableSpec.KeysDistinct | help/hash_table.c:61-72 | in a table satisfying the invariant, two filled slots with the same hash are the same slot |
| HashTableSpec.EmptyTableInv | help/hash_table.c:20-31 | a zeroed slot array satisfies the invariant, counts no filled slot and finds no key |
| HashTables.HashTable.Insert | help/hash_table.c:75-83 | for an absent key, SUCCESS exactly when a free slot is probed; then the key maps to v, n grows by one and h is appended to `hashes`; on ERROR slots, n and `hashes` are unchanged and the key stays absent; other keys keep their values |
| HashTableSpec.FindFrom | help/hash_table.c:128-138 | the chain walk returns only a filled slot whose hash equals the key |
| HashTables.HashTable.Find | help/hash_table.c:128-138 | the loop walks the chain from the home slot along `next` and returns `FindFrom` of the home slot |
| HashTableSpec.LookupExact | help/hash_table.c:128-138 | under the invariant, a lookup finds a key exactly when some filled slot holds it, and returns that slot's value |
| HashTables.HashTable.RemoveWalk | help/hash_table.c:94-106 | the walk stops at an unfilled home slot, or at the matching slot and its predecessor along the chain |
| HashTableSpec.RemoveSlotsUnfilled | help/hash_table.c:94-97 | when the home slot is unfilled, removal changes nothing and the key is absent |
| HashTableSpec.RemoveSlotsShape | help/hash_table.c:108-122 | the repaired removal: at the home slot it pulls the successor down and clears the successor's own slot (or clears the home slot); further along the chain it relinks the predecessor to the successor, or to nothing, and clears the slot |
| HashTableSpec.RemovePreserves | help/hash_table.c:85-126 | the repaired removal keeps the invariant, makes the key absent, leaves every other lookup unchanged and lowers the filled count by one exactly when the key was present |
| HashTables.HashTable.Remove | help/hash_table.c:85-126 | returns SUCCESS; slots become the repaired `RemoveSlots(old slots, h)`; the table stays valid; n drops by one when the key was present; h maps to nothing afterwards; other keys keep their values |
| RemoveFindings.RemoveMatchesSource | help/hash_table.c:108-122 | when a key at its home slot has no successor and a key further down a chain has one, the removal as written is defined and equals the repaired `RemoveSlots` |
| HashTables.GrownCapacity | help/hash_table.c:146-149 | the grown capacity exceeds new_n and is at least twice the old capacity; it is 2*cap or 2*new_n |
| HashTables.Realloc | help/hash_table.c:151-152 | the reallocated hash array has the new length and keeps the old contents as its prefix |
| HashTables.HashTable.RehashInto | help/hash_table.c:157-161 | the loop offers each `hashes[i]`, with the value `find` returns for it, to `change_value` on the new slots, in order |
| HashTableSpec.RehashPreserves | help/hash_table.c:157-161 | offering distinct absent keys that all find a free slot keeps the invariant; each key maps to its value; other lookups are unchanged; the filled count grows by the number of keys |
| HashTableSpec.GrowPreserves | help/hash_table.c:140-165 | rehashing the listed keys with their values into a zeroed array of the new capacity gives a valid table with exactly the same contents |
| HashTables.HashTable.Grow | help/hash_table.c:149-164 | capacity becomes `GrownCapacity`; fresh slot and hash arrays of that size; the hash prefix is kept; the slots are the rehash of the old keys into an empty table |
| HashTables.HashTable.MaybeGrow | help/hash_table.c:140-165 | nothing changes when new_n <= capacity; otherwise the capacity grows; either way n, the listed hashes and every key's value are kept and the table stays valid and listed |
| HashTables.HashTable.Exists | help/hash_table.c:167-172 | true exactly when djb2 of the name is a stored key |
| HashTables.HashTable.SetSlotValue | help/hash_table.c:180-182 | overwriting a found slot's value changes only that value; n, slots' keys and links and every other key's value are unchanged |
| HashTableSpec.SetValuePreserves | help/hash_table.c:180-182 | overwriting a filled slot's value keeps the invariant and the filled count, and changes only that key's lookup |
| HashTables.HashTable.Set | help/hash_table.c:174-195 | afterwards djb2(name) maps to val and every other key keeps its value; n grows by one exactly when the key was absent |
| HashTables.HashTable.GrowAndInsert | help/hash_table.c:189-192 | one iteration of the grow-then-insert loop: SUCCESS exactly when the grown table has a free probe slot for h; then h maps to v and n grows by one, else nothing is stored |
| HashTables.HashTable.SetByHash | help/hash_table.c:197-221 | a present key gets the new value; an absent key gets it only if the single grow-and-insert attempt finds a free slot, and otherwise stays absent; other keys keep their values |
| HashTables.HashTable.Get | help/hash_table.c:223-228 | returns the value stored under djb2(name), or nothing (NULL) when it is absent |
| HashTables.HashTable.GetByHash | help/hash_table.c:230-234 | returns the value stored under the hash, or nothing (NULL) when it is absent |
| RemoveFindings.HomeRemovalLosesKey | help/hash_table.c:108-112 | removing the home key of the chain 0 -> 4 -> 1 as written leaves key 10 in two slots and clears key 5's slot, so key 5 is not found |
| RemoveFindings.HomeRemovalRepaired | help/hash_table.c:108-112 | the repaired removal of the same key keeps key 5 with its value and the table valid |
| RemoveFindings.HomeRemovalWritesNull | help/hash_table.c:108-112 | on chain 0 -> 1, removing key 0 is accepted by `RemoveSafe`, yet as written it clears through the NULL `next` of the copied entry |
| RemoveFindings.HomeRemovalNullRepaired | help/hash_table.c:108-112 | the repaired removal of key 0 leaves key 5 alone in slot 0 with its value, a sound table, and key 0 absent |
| RemoveFindings.OfferAtHome | help/hash_table.c:54-64 | when the home slot is free, the probe loop does not run and the key and value go into the home slot, whose link is kept |
| RemoveFindings.OneKeyBuilt | help/hash_table.c:45-72 | inserting key 0 into a zeroed table of capacity 5 stores it in its home slot 0 |
| RemoveFindings.TwoKeysBuilt | help/hash_table.c:45-72 | inserting key 5 next probes slot 1 and splices it after slot 0, giving the chain 0 -> 1 |
| RemoveFindings.ThreeKeysBuilt | help/hash_table.c:45-72 | inserting key 10 next probes slots 0, 1, 4 and splices slot 4 after slot 0, giving the chain 0 -> 4 -> 1 |
| RemoveFindings.HomeInChainBuilt | help/hash_table.c:45-72 | inserting key 1 after keys 0 and 5 meets its home slot 1 taken, lands in slot 2 and is spliced after slot 1, giving the chain 0 -> 1 -> 2 |
| RemoveFindings.OtherHomeRemovalLosesKey | help/hash_table.c:117-121 | on that table, which is sound and maps key 1 to 3, removing key 5 as written relinks slot 0 to slot 2 and clears slot 1, the home slot of key 1; key 1 stays stored but is no longer found. The repaired removal does the same, and `RemoveSafe` excludes the input |
| RemoveFindings.KeysButListed | help/hash_table.c:85-126 | the remaining-keys list holds exactly the stored keys other than the one removed |
| RemoveFindings.KeysButDistinct | help/hash_table.c:124 | with no key stored twice, that list holds each key once and is one shorter than the filled slots exactly when the removed key was stored |
| RemoveFindings.RemoveRebuiltPreserves | help/hash_table.c:85-126 | the corrected removal, a rebuild of the remaining keys at the same capacity, keeps the table sound, makes the key absent, keeps every other key's lookup and lowers the count by one exactly when the key was stored |
| RemoveFindings.OtherHomeRemovalRebuilt | help/hash_table.c:117-121 | the corrected removal of key 5 from that table puts keys 0 and 1 in their home slots, keeps both values and makes key 5 absent |
| RemoveFindings.ChainRemovalMakesCycle | help/hash_table.c:117-121 | removing the last chain member as written leaves a link to the cleared slot; the next insert there links the slot to itself, so no ranking of the chains exists |
| RemoveFindings.ChainRemovalRepaired | help/hash_table.c:117-121 | the repaired removal unlinks the slot, and the same insert afterwards keeps the table valid |
| SectionLayout.GroupOf | tccrun.c:533-534 | a section is kept by the k = 0 pass exactly when it is executable |
| SectionLayout.Mask | tccrun.c:535-537 | the mask is `sh_addralign - 1` as an unsigned, raised to at least RUN_SECTION_ALIGNMENT (63) for the first section of a group |
| SectionLayout.Pad | tccrun.c:540 | the padding `-(addr + offset) & align` never exceeds the mask |
| SectionLayout.LayoutSections | tccrun.c:523-551 | one pass turns the section table into `Laid(old table, mem, ptr_diff)`; the returned offset and max_align are those of `End`; the same loop is tccrun.c:234-262 and 572-600 |
| SectionLayout.LayoutGroup | tccrun.c:528-550 | the inner loop over sections 1..nb_sections-1 for one group ends in the state `Before(.., k, nb_sections)` with the group's sections laid out |
| SectionLayout.PlaceSection | tccrun.c:530-544 | one iteration: a section without SHF_ALLOC or of the other group is skipped; otherwise the offset is padded, `sh_addr` is written (0 for a null base) and the offset grows by `data_offset` |
| LayoutProperties.StepExact | tccrun.c:540-544 | when the walk does not wrap, a placed section starts at offset + padding and the next offset is its start plus its size; a skipped section changes nothing |
| LayoutProperties.OffsetMono | tccrun.c:540-544 | when the walk does not wrap, the running offset never decreases from one visit to a later one |
| LayoutProperties.PlacedInOrder | tccrun.c:527-551 | a placed section of an earlier group, or earlier in the same group, ends at or before the start of a later one, so ranges are disjoint and increasing |
| LayoutProperties.PlacedWithinEnd | tccrun.c:540-544 | every placed section ends within the final offset |
| LayoutProperties.PadAligns | tccrun.c:540 | for a power-of-two mask + 1, position + padding is the position rounded up to mask + 1 |
| LayoutProperties.MaskPow2 | tccrun.c:535-537 | for a power-of-two `sh_addralign` the mask + 1 is a power of two and a multiple of it, and of 64 for a group's first section |
| LayoutProperties.LaidAddr | tccrun.c:543 | `sh_addr` is the group base plus the placement for a non-null base and 0 for a null base |
| LayoutProperties.PlacedAligned | tccrun.c:535-543 | every placed section's address is a multiple of its power-of-two `sh_addralign`, and a group's first section is 64-byte aligned |
| LayoutProperties.CodeDataApart | tccrun.c:203-210 | the last byte of any code section and the first data section lie in different 64-byte units |
| BufferCoverage.PadShift | tccrun.c:540 | the padding is unchanged when the base moves by a multiple of mask + 1 |
| BufferCoverage.MaxAlignGrows | tccrun.c:538-539 | max_align never decreases along the walk |
| BufferCoverage.MaskWithinMax | tccrun.c:538-539 | every mask used is at most the final max_align |
| BufferCoverage.MaxAlignPow2 | tccrun.c:538-539 | with power-of-two alignments, max_align + 1 stays a power of two |
| BufferCoverage.SameEnd | tccrun.c:572-600 | on a base that is a multiple of max_align + 1, the final pass ends with the same offset and max_align as the sizing pass |
| BufferCoverage.SamePlacement | tccrun.c:589-592 | on such a base each section is placed at its sizing-pass offset |
| BufferCoverage.BufferCovers | tccrun.c:562-593 | on such a base each section's `sh_addr` is base + its sizing offset, and its bytes lie within `offset + max_align` bytes of the base; when that `unsigned` sum does not wrap, they lie within the `(offset + max_align) mod 2^32` bytes requested |
| BufferCoverage.RelayoutOverwrites | tccrun.c:572-600 | laying out a table that was already laid out gives the layout of the original table with the new base |
| Pages.PageMaskClears | tccrun.c:1012 | `x & ~(PAGESIZE - 1)` is x minus its offset within the page |
| Pages.RoundDown | tccrun.c:1012 | the masked value is a multiple of 4096 and lies within one page at or below x |
| Pages.RoundUpEnd | tccrun.c:1013-1014 | without 64-bit wrap, `(ptr + length + PAGESIZE - 1) & ~(PAGESIZE - 1)` is the first page boundary at or above ptr + length |
| Pages.PageSpan | tccrun.c:1015 | between page boundaries start <= end, the length `end - start` handed to `mprotect` is the exact difference and a whole number of pages |
| Pages.PageRange | tccrun.c:1012-1014 | start is page-aligned and within a page below ptr; without 64-bit wrap, end is page-aligned and within a page at or above ptr + length, and end - start is a whole number of pages |
| SymbolTables.PatchWrites | tccrun.c:494-501 | after the GOT loop every listed slot holds addr and every other memory cell is unchanged |
| SymbolTables.Lookup | tccrun.c:467-492 | after recording a symbol its key maps to addr in `symbols` and `hash_to_addr` with the new binding and type; other records and `hash_to_addr` entries are unchanged |
| SymbolTables.FirstDefinition | tccrun.c:477-487 | a new key gets a record with the name, the file or "<unknown-file>", and no GOT users; `addr_to_addr` and memory are unchanged |
| SymbolTables.Redefinition | tccrun.c:469-476 | an existing key keeps its name, file and GOT users; `addr_to_addr[old addr]` becomes addr with other pairs unchanged; every GOT slot holds addr and nothing else is written |
| SymbolTables.HotPatch | tests/itptest.c:13-44 | redefining `_getnb` from printings2.c rewrites the GOT slot that `doit` reads, `hash_to_addr` and `addr_to_addr[old]`, and keeps the record from printings.c |
| SymbolTables.CollisionIsRedefinition | tccrun.c:461-469 | recording "bA" after "ab" adds no key and overwrites the address of the record named "ab" |
| SymbolTables.RedirectsNotFlattened | tccrun.c:475 | after three definitions `addr_to_addr` maps a1 to a2 and a2 to a3; a1 is not rewritten to a3 |
| SymbolTables.LastCandidateWins | tccrun.c:679-688 | in single-use state `func_ptr` ends as the value of the last candidate symbol, or unchanged when there is none |
| SymbolTables.StopSticks | tccrun.c:697-702 | once the publish loop stops at a symbol with no file, later symbols do not change the outcome |
| SymbolTables.PublishStops | tccrun.c:689-702 | the publish loop stops exactly at the first exported symbol with no recorded file; when it completes, every exported symbol had one |
| SymbolTables.PublishKeys | tccrun.c:665-716 | a completed publish keeps every earlier key, records every exported symbol's key, and adds no key that no exported symbol has |
| Interpreter.InterpState.HashSymbol | tccrun.c:461-465 | the key is djb2(name), multiplied by djb2(file) modulo 2^64 for `STB_LOCAL` |
| Interpreter.InterpState.PatchGotUsers | tccrun.c:494-501 | the GOT loop leaves memory as `Patch(old memory, got_users, addr)` and no other field changed |
| Interpreter.InterpState.SetInterpSymbol | tccrun.c:458-502 | the tables become `SetSymbol(old tables, ...)` (characterised by Lookup, FirstDefinition and Redefinition); the single-use and memory-block fields are unchanged |
| Interpreter.InterpState.Publish | tccrun.c:662-716 | in single-use state `func_ptr` is the last candidate's value and the tables are unchanged; otherwise the tables are those of `PublishUpTo`, or the loop reports the index where it stopped |
| Interpreter.InterpState.RelocateIntoMemory | tccrun.c:504-608 | code 1 changes nothing; code 2 leaves the null-base layout and allocates nothing; otherwise `offset + max_align` is requested, the buffer goes to `single_use.runtime_mem` or is appended with `runtime_mem_size` grown by exactly that amount, and the sections are laid out at the buffer; code 3 publishes nothing; else the publish outcome |

## Left out

- Machine-code work that runs in files outside this model. `tcc_add_runtime`, `resolve_common_syms`, `build_got_entries`,
  `tcci_relocate_syms`, `relocate_section` and `relocate_plt` are reduced to the number of errors they raise (the
  `prepErrors`, `sizingErrors` and `finalErrors` parameters of `RelocateIntoMemory`). The GOT slots listed in a symbol
  record are filled by code not modelled here.
- The copying and zero-filling of section bytes (`memcpy`/`memset`, tccrun.c:634-659), `mprotect`, `VirtualProtect`
  and `__clear_cache`: the model has no byte memory. Only the page arithmetic of `set_pages_executable` is kept.
- `malloc`/`tcc_malloc`: the address the allocation returns is the parameter `ptr`; an allocation failure is not modelled.
- Windows (`TCC_TARGET_PE`, the `_WIN64` function-table slot) and SELinux paths. RUN_SECTION_ALIGNMENT is the x86 value 63.
- `destroy_hash_table` frees memory only and has no model.
- All debug output (`printf`, `dba`, `dbp`).
- Section 0, the null section, is always present (`requires secs.Length >= 1`); the walks start at index 1 as the source does.
- `symbols`, `hash_to_addr` and `addr_to_addr` of the interpreter are maps. The hash table model shows that `hash_table_set_by_hash` behaves as a map update when it stores. It does not always store. Its loop returns after the first attempt (help/hash_table.c:210-220). `hash_table_maybe_grow` grows only when `n + 1` exceeds the capacity (help/hash_table.c:146-148). The probe of `hash_table_change_value` meets only the slots of its first `capacity / 2 + 1` probes (`HashTableSpec.ProbeHalf`). So an absent key is turned away once those few slots are filled, which can happen when a little over half of the table is filled (`HashTableSpec.HalfFilledMiss`: capacity 10, six slots filled). `hash_table_set_by_hash` then stores nothing and reports nothing, and `tcci_set_interp_symbol` silently loses the symbol record, its `hash_to_addr` entry or its `addr_to_addr` redirect. The interpreter model does not carry that failure.
- SymbolTables.Lookup: describes the source only when each `hash_table_set_by_hash` store of tccrun.c:474-486 succeeds. `HashTables.HashTable.SetByHash` states the precise condition: the key is already stored, or the probe in the table after `maybe_grow(n + 1)` finds a free slot.
- SymbolTables.FirstDefinition: describes the source only when the stores into `symbols` and `hash_to_addr` (tccrun.c:479, 486) succeed, under the condition of `HashTables.HashTable.SetByHash`.
- SymbolTables.Redefinition: describes the source only when the stores into `hash_to_addr` and `addr_to_addr` (tccrun.c:474-475) succeed, under the condition of `HashTables.HashTable.SetByHash`.
- SymbolTables.PublishKeys: describes the source only when every `hash_table_set_by_hash` store made while publishing succeeds, under the condition of `HashTables.HashTable.SetByHash`.
- Interpreter.InterpState.SetInterpSymbol: its tables are `SetSymbol(...)` only when each `hash_table_set_by_hash` store succeeds, under the condition of `HashTables.HashTable.SetByHash`.
- `sym_index_to_filename` is a map from symbol index to file name. The text section is identified by its index.
- A NULL value stored in the hash table cannot be told apart from an absent key by `get`; values are words and absence is `None`.
- `size_t` overflow of `n`, `capacity` and the grown capacity is not modelled (they are unbounded naturals).
- The unspecified tail of `realloc` is modelled as zeroes (`HashTables.Realloc`).
- HashTables.HashTable.Insert: requires the key to be absent, which is how every caller in the source uses it.
- HashTables.HashTable.Remove: requires `RemoveSafe`. It excludes the walk past the chain end, where the source dereferences NULL for an absent key whose home slot is filled. It also excludes emptying a slot that is another stored key's home slot. The source empties that slot anyway, and the other key is then no longer found (`RemoveFindings.OtherHomeRemovalLosesKey`). The corrected removal for this case, `RemoveFindings.RemoveRebuilt`, is proved sound but is not what the method performs.
- HashTables.HashTable.Remove: performs the repaired removal, not the source's, in two cases. For a key at its home slot with a successor, the source clears the successor's successor, or writes through NULL when there is none. For the last key of a chain off its home slot, the source leaves the predecessor's `next` dangling. `RemoveSafe` admits both cases. The model's slots equal the source's exactly under `RemoveFindings.SourceSound` (`RemoveFindings.RemoveMatchesSource`). The three rows under "## Findings" show the differences.
- HashTableSpec.RemoveSlotsShape: states the shape of the repaired removal. In the two cases above it is not what help/hash_table.c:108-122 does; `RemoveFindings.RemoveAsWritten` is.
- HashTableSpec.RemovePreserves: proved for the repaired removal. It does not hold for the removal as written, which loses a key (`RemoveFindings.HomeRemovalLosesKey`), leaves a dangling link (`RemoveFindings.ChainRemovalMakesCycle`) or writes through NULL (`RemoveFindings.HomeRemovalWritesNull`).
- HashTables.HashTable.Remove: does not keep `Listed`, because the source never removes a hash from `hashes`. `maybe_grow` and `set` therefore require a listed table.
- HashTables.HashTable.MaybeGrow: requires `GrowFits`, a listed table whose every rehash placement succeeds. The source dereferences `find`'s result and ignores `change_value`'s failure during the rehash.
- HashTables.HashTable.Set: requires `SetFits`, that the first grow-then-insert attempt succeeds; the model does not iterate the retry loop further.
- HashTables.HashTable.SetByHash: requires `GrowFits` for the grow it performs on an absent key.
- LayoutProperties.PlacedInOrder, LayoutProperties.PlacedWithinEnd, LayoutProperties.OffsetMono: require `Fits`, that the 32-bit `offset` does not wrap. `LayoutSections` itself models the wrap.
- BufferCoverage.BufferCovers: proved only for a buffer address that is a multiple of `max_align + 1`. The general case, where the extra `max_align` bytes absorb a misaligned address, is not proved.
- BufferCoverage.BufferCovers: ties the sections to the bytes requested only when `offset + max_align` stays below 2^32. `Fits` does not rule out that wrap. When it happens, `tcc_malloc` at tccrun.c:562 receives the wrapped sum and the sections run past the buffer; the model computes the same wrapped request (`Interpreter.InterpState.RelocateIntoMemory`).
- RemoveFindings.RemoveRebuiltPreserves: requires every remaining key to find a free probe again during the rebuild, as `GrowFits` does for `maybe_grow`.
- LayoutProperties.PlacedAligned, LayoutProperties.CodeDataApart: require that the 64-bit section addresses do not wrap (`Base(...) + 2^32 <= 2^64` and `mem + 2^32 <= 2^64`). The source adds `offset` to the buffer address in 64-bit arithmetic, and a buffer that close to the top of the address space is not modelled.
- Pages.PageRange: states coverage only when `ptr + length + PAGESIZE - 1` does not wrap 64 bits.
- Interpreter.InterpState.SetInterpSymbol: requires a filename for `STB_LOCAL` symbols; the source would hash a NULL string.
- Interpreter.InterpState.Publish: the `expect("sym_fn not NULL")` failure is modelled as stopping and reporting the symbol's index.

## Findings

| source | as written | input that shows it | evidently intended | confidence | as-written member | corrected member |
|---|---|---|---|---|---|---|
| help/hash_table.c:108-112 | removing a home-slot key with a successor copies the successor down, then clears `entry->next`, which by then is the successor's successor | capacity 5, insert keys 0, 5, 10 (chain 0 -> 4 -> 1), remove key 0 | clear the successor's old slot, so the chain becomes 0 -> 1 | not executed | RemoveFindings.HomeRemovalLosesKey | RemoveFindings.HomeRemovalRepaired |
| help/hash_table.c:117-121 | removing the last member of a chain off the home slot clears it but leaves the predecessor's `next` pointing at it | capacity 5, insert keys 0, 5 (chain 0 -> 1), remove key 5, insert key 10 | set the predecessor's `next` to the removed slot's `next` even when that is NULL | not executed | RemoveFindings.ChainRemovalMakesCycle | RemoveFindings.ChainRemovalRepaired |
| help/hash_table.c:108-112 | removing a home-slot key whose only successor ends the chain copies the successor down; `entry->next` is then NULL, and the `memset` writes through it | capacity 5, insert keys 0, 5 (chain 0 -> 1), remove key 0 | clear the successor's old slot, leaving key 5 alone in slot 0 | not executed | RemoveFindings.HomeRemovalWritesNull | RemoveFindings.HomeRemovalNullRepaired |
| help/hash_table.c:117-121 | removing a key whose slot is the home slot of another stored key empties that slot, so a lookup of the other key starts at an empty slot and fails, while `n` drops by one | capacity 5, insert keys 0, 5, 1 (chain 0 -> 1 -> 2, slot 1 is the home of key 1), remove key 5, find key 1 | key 1 is still found after key 5 is removed, e.g. by rebuilding the remaining keys | not executed | RemoveFindings.OtherHomeRemovalLosesKey | RemoveFindings.OtherHomeRemovalRebuilt |
