# A verified model of the deterministic game-console runtime

The repository is a set of C spikes for a game console that has to behave the same on every host.
Most of it is plumbing; this project models the parts that are algorithms, one Dafny module or a
few per component, in the form the C code has (classes over arrays, loops, recursive procedures),
and proves what they promise for all inputs, all runs and all reachable states.

| component | files |
|---|---|
| first-fit allocator with its free list threaded through the heap bytes | `AllocatorPool.dfy`, `AllocatorHeap.dfy` |
| multi-library loader: recursive DT_NEEDED, placement, first definition wins, second-pass relocation | `LoaderSpec.dfy`, `Loader.dfy`, `LinkedMemory.dfy`, `Linker.dfy`, `LinkerTheorems.dfy`, `LoadingEnds.dfy` |
| canonical Lua-table codec and its reader | `KeyOrder.dfy`, `TableCodec.dfy`, `TableFlatten.dfy`, `TableUnflatten.dfy` |
| hot-reload migration of structs and of whole save buffers | `Migration.dfy`, `MigrationTheorems.dfy`, `NativeState.dfy`, `LoadMigrate.dfy`, `MigrateLoadTheorems.dfy` |
| save state: description, hash, header, regions, hex transport | `Describe.dfy`, `Fnv.dfy`, `FrameState.dfy`, `SaveStateSpec.dfy`, `SaveState.dfy`, `HexTransport.dfy`, `SaveTheorems.dfy` |
| streaming SHA-256 against FIPS 180-4 | `Sha256.dfy`, `Sha256Standard.dfy`, `Sha256Stream.dfy` |
| seccomp filter builders against a BPF interpreter | `Bpf.dfy`, `SeccompFilters.dfy` |
| 64-bit division, the integer printer and parser | `Division.dfy`, `Printer.dfy`, `Vsnprintf.dfy`, `Directives.dfy`, `ReadBack.dfy` |
| state machines: voice-end queue, script table, PCG32, libretro clock and audio | `VoiceQueue.dfy`, `VoiceRuns.dfy`, `AudioBranch.dfy`, `ScriptTable.dfy`, `ScriptRuns.dfy`, `Pcg32.dfy`, `FrameClock.dfy` |
| shared: bytes, words, bits, rotation, NaN patterns, decimal text, facts about division | `Bytes.dfy`, `Rotation.dfy`, `NanBits.dfy`, `Decimal.dfy`, `Arithmetic.dfy` |

`dafny verify dfyconfig.toml` checks everything.

How the source is carried over:

- Machine arithmetic is written out: 32- and 64-bit sums are taken modulo 2^32 or 2^64 wherever the
  C code computes them in that width, and pointers are numbers. Bytes are integers below 256.
- A method that changes state is proved against a function of the old state; what the source
  promises is then proved of that function. `Heap` refines `Pool`, `Linker` refines the resolution
  functions of `LoaderSpec`, `Sink` and `Source` refine the codec, `Queue` refines a set of voices
  and a list of events, `SlotTable` refines a set of slots and their blobs.
- The allocator's callers are represented by block numbers, given as ghost parameters, so that
  "this pointer is a live block" can be said.
- The loader's input is a map from soname to an already parsed image. A Lua table is a finite map
  that `lua_next` lists in any order; floats are bit patterns.
- A tracked region is its description, its canonicalising function and the predicate its load
  callback tests after copying. The load callbacks of spikes K, M and N all have that shape.

Where the code and its own documentation disagree, the code is modelled:

- `save_state_load_migrate` is documented as atomic; it commits region by region. It is
  all-or-nothing, for every earlier state of the regions, exactly when no region fails or the regions
  handed anything up to the first that does have no bytes (`AllOrNothingExactly`); `NotAtomic` runs it on a buffer that passes its checks
  and is left half done. `save_state_load` promises no partial mutation; the voice queue's callback
  copies before it checks, so the same happens there (`LoadAtomicExactly`, `LoadNotAtomic`).
- Its scratch buffer is static and never cleared past the new struct, so a descriptor whose new struct
  is smaller than the region hands the region what an earlier migration left (`StaleExactly`).
- `build_riscv32_only_filter` states and checks 4+2n instructions but emits 5+2n.
- `%.Nd` writes about half the zeros it is asked for: the loop's bound moves as it writes
  (`SignedPrecisionExactly`, `HalfTheZeros`). An unsigned conversion with the zero flag and a precision is not padded
  to its width at all (`WidthExactly`, `ComesOutShort`). `%#x` puts its mark before the blanks of a
  width, and `strtol` then stops at them (`HexReadsBackExactly`).
- `fc32_load_lib` says that it loads dependencies first; it registers the library itself first, so the
  load order is a preorder. A ninth library is mapped but not registered, and then a cycle that could not
  be registered is followed for ever (`LoadingEndsExactly`, `NineNeverEnd`).
- The header of the script table says an over-long write truncates; the code refuses it.
- `voice_end_record` silently drops events past the eighth of a frame, so a voice need not stop when it
  ends: `PlaysUntilItEndsExactly` says on which schedules every voice does, and `NinthPlaysOn` gives one
  on which one does not.

## Model

| member | source | states |
|---|---|---|
| `AllocatorPool.WrapExact` | spikes/spike-c/lib/lua_lib_runtime.c:325-343 | a request gets a block that holds it, and one inside the heap when cut above `brk`, exactly when neither 32-bit sum wraps |
| `AllocatorPool.NeedIsFootprint` | spikes/spike-c/lib/lua_lib_runtime.c:325-330 | the block size computed in 32 bits is the rounded header-plus-payload size unless that needs 33 bits, and then it is at most 8 |
| `AllocatorPool.FirstFit` | spikes/spike-c/lib/lua_lib_runtime.c:332-341 | the walk picks the first free block that is large enough: all earlier ones are too small |
| `AllocatorPool.MallocInv` | spikes/spike-c/lib/lua_lib_runtime.c:327-348 | malloc keeps the tiling invariant, gives out only a block that was not live, records the request, and changes nothing when it fails |
| `AllocatorPool.FreeInv` | spikes/spike-c/lib/lua_lib_runtime.c:358-367 | freeing a live block keeps the tiling invariant |
| `AllocatorPool.ReallocInv` | spikes/spike-c/lib/lua_lib_runtime.c:369-382 | realloc keeps the tiling invariant in all its five outcomes |
| `AllocatorPool.MallocOutcome` | spikes/spike-c/lib/lua_lib_runtime.c:327-348 | malloc takes the first block of the free list that holds the request and its header; with none it cuts one of exactly that size at `brk`; it fails, changing nothing, only when the heap has no room for that |
| `AllocatorPool.ReallocOutcome` | spikes/spike-c/lib/lua_lib_runtime.c:369-382 | realloc stays in place exactly when the block already holds n bytes, fails exactly when it does not and malloc fails, and otherwise frees the old block for malloc's |
| `AllocatorPool.FreeThenMalloc` | spikes/spike-c/lib/lua_lib_runtime.c:358-367 | the block freed last is tried first: asking for no more than it holds gives it back and leaves the rest of the free list as it was |
| `AllocatorPool.GrownSizes` | spikes/spike-c/lib/lua_lib_runtime.c:373-381 | when realloc has to move, the new block is another one, at least as large as the old, and the old one is still where it was |
| `AllocatorPool.LivePayloadsDisjoint` | spikes/spike-c/lib/lua_lib_runtime.c:315-348 | two live payloads share no byte, hold what was asked for and lie below `brk` |
| `AllocatorPool.Conservation` | spikes/spike-c/lib/lua_lib_runtime.c:315-348 | up to every block boundary, live bytes plus free bytes are all the bytes there are |
| `AllocatorPool.EveryRun` | spikes/spike-c/lib/lua_lib_runtime.c:310-382 | over every run of malloc, free of live blocks and realloc from the empty heap: invariant, disjoint payloads, live plus free bytes equal `brk`, which is at most HEAP_SIZE |
| `AllocatorHeap.UnlinkChain` | spikes/spike-c/lib/lua_lib_runtime.c:333-337 | storing a block's link into its predecessor (or the list head) takes exactly that block out of the threaded list |
| `AllocatorHeap.PushChain` | spikes/spike-c/lib/lua_lib_runtime.c:365-366 | storing the old head into the block's second word puts exactly that block in front |
| `AllocatorHeap.PayloadWritten` | spikes/spike-c/lib/lua_lib_runtime.c:318-321 | writing inside one block past its header disturbs no header, no other link word and no other payload |
| `AllocatorHeap.Heap.FindFit` | spikes/spike-c/lib/lua_lib_runtime.c:332-341 | the pointer walk through the heap bytes stops at the block the abstract first fit names, with the link that leads to it |
| `AllocatorHeap.Heap.Unlink` | spikes/spike-c/lib/lua_lib_runtime.c:333-339 | `*pp = b->next` done on the heap bytes leaves a list without that block and every payload off the list untouched |
| `AllocatorHeap.Heap.Bump` | spikes/spike-c/lib/lua_lib_runtime.c:342-347 | cutting a block above `brk` writes its header and leaves every older block's bytes alone |
| `AllocatorHeap.Heap.Malloc` | spikes/spike-c/lib/lua_lib_runtime.c:327-348 | the pointer leads to the first free block that holds the request, else to a new block of that size at the old `brk`, else is null; the byte-level heap stands for the abstract pool after malloc and no live payload changes |
| `AllocatorHeap.Heap.Calloc` | spikes/spike-c/lib/lua_lib_runtime.c:350-356 | as malloc of the 32-bit product, with the payload zeroed |
| `AllocatorHeap.Heap.Free` | spikes/spike-c/lib/lua_lib_runtime.c:358-367 | the byte-level free refines the abstract one and changes no payload that stays live; a null pointer is ignored |
| `AllocatorHeap.Heap.Realloc` | spikes/spike-c/lib/lua_lib_runtime.c:369-382 | in place exactly when the block already holds n bytes, null exactly when it does not and malloc fails; the result begins with all that the old payload held and every other live payload keeps its bytes, also when it fails |
| `AllocatorHeap.Heap.Store` | spikes/spike-c/lib/lua_lib_runtime.c:310-348 | a caller's store through a live pointer keeps the representation and every other live payload |
| `Loader.TableIsFirstDefinitions` | spikes/spike-i/patches/apply-multi-dynload.py:162-178 | a symbol table that never filled up and cut no name answers every lookup with the first definition added |
| `Loader.PlacedGrows` | spikes/spike-i/patches/apply-multi-dynload.py:196-209 | the first library starts at the load address and each next one on the first page boundary not below the end of the one before |
| `Loader.PlacedDisjoint` | spikes/spike-i/patches/apply-multi-dynload.py:327-341 | loaded libraries occupy page-aligned, pairwise disjoint address ranges in load order |
| `Linker.Linker.SymAdd` | spikes/spike-i/patches/apply-multi-dynload.py:162-171 | adds unless the table is full or the name is there: the first definition wins |
| `Linker.Linker.SymFind` | spikes/spike-i/patches/apply-multi-dynload.py:173-178 | returns the first definition of the name, or 0 |
| `Linker.Linker.LibExtent` | spikes/spike-i/patches/apply-multi-dynload.py:196-209 | the highest end address of the segments, in 32-bit arithmetic, never below the base |
| `Linker.Linker.LoadLib` | spikes/spike-i/patches/apply-multi-dynload.py:308-401 | terminates on every dependency graph, cycles included; registers each soname once, only what is reached, with all that it needs, in depth-first preorder; fails only on meeting a library that is not there |
| `Linker.Linker.ApplyLibRela` | spikes/spike-i/patches/apply-multi-dynload.py:237-305 | performs exactly the word writes the relocation table calls for |
| `Linker.Linker.RelocateLibs` | spikes/spike-i/patches/apply-multi-dynload.py:405-434 | the second pass performs every library's writes against the complete table |
| `Linker.Linker.Dynload` | spikes/spike-i/patches/apply-multi-dynload.py:436-596 | on success exactly the sonames reachable from the cart are loaded, in depth-first preorder, each where it was placed; but for the words of the relocations every address of a library holds the last segment's byte that covers it, or zero past the file's end, and every address outside the libraries is as it was; it succeeds exactly when every reachable soname exists |
| `LoaderSpec.ExtentIsAnEnd` | spikes/spike-i/patches/apply-multi-dynload.py:196-209 | the extent of a library is the end of its highest segment |
| `LinkedMemory.LinkedShows` | spikes/spike-i/patches/apply-multi-dynload.py:330-339 | an address no relocation is for holds the byte of the segment that covers it: data at base + p_vaddr + k, zeros up to p_memsz |
| `LinkedMemory.LinkedKeeps` | spikes/spike-i/patches/apply-multi-dynload.py:330-339 | an address in no library that no relocation is for is as it was before the link |
| `LoadingEnds.VisitIsPreorder` | spikes/spike-i/patches/apply-multi-dynload.py:308-401 | until the registry is full and as long as nothing is missing, the steps of the traversal are those of the preorder |
| `LoadingEnds.LoadingEndsExactly` | spikes/spike-i/patches/apply-multi-dynload.py:227-229 | for every dependency graph and all roots, loading ends exactly when nothing is left once the registry has filled, or what holds up the rest is not among available, unregistered libraries that hold up each other |
| `LoadingEnds.AcyclicEnds` | spikes/spike-i/patches/apply-multi-dynload.py:308-401 | without a cycle loading ends, however many libraries there are |
| `LoadingEnds.NineNeverEnd` | spikes/spike-i/patches/apply-multi-dynload.py:227-229 | a cart that needs the first of nine libraries, each needing the next and the last itself, is loaded for ever |
| `Linker.AllLoaded` | spikes/spike-i/patches/apply-multi-dynload.py:382-397 | a registry whose members have all their dependencies holds exactly what the roots reach |
| `LoaderSpec.SatisfiedIsClosed` | spikes/spike-i/patches/apply-multi-dynload.py:382-397 | following any dependency path from a loaded library stays among the loaded ones |
| `LoaderSpec.DistinctWrites` | spikes/spike-i/patches/apply-multi-dynload.py:123-126 | after writes to distinct words, each word holds what was written to it |
| `LoaderSpec.OtherBytesStay` | spikes/spike-i/patches/apply-multi-dynload.py:123-126 | bytes outside the relocated words are as the images left them |
| `LinkerTheorems.LibraryWordResolved` | spikes/spike-i/patches/apply-multi-dynload.py:263-296 | the word of every RELATIVE, R_RISCV_32, JUMP_SLOT and GLOB_DAT entry of a library ends up holding base plus addend, or the first definition in force, else the library's own value, else zero, plus the addend where the type has one |
| `LinkerTheorems.CartPltResolved` | spikes/spike-i/patches/apply-multi-dynload.py:523-545 | every cart PLT word whose symbol is defined anywhere holds that first definition |
| `LinkerTheorems.CartWordResolved` | spikes/spike-i/patches/apply-multi-dynload.py:547-587 | the same for the cart's own entries outside its PLT |
| `LinkerTheorems.FirstGiven` | spikes/spike-i/patches/apply-multi-dynload.py:354-375 | the definition in force is the cart's first, else base plus value of the first one in the first library, in load order, that has any, else none |
| `KeyOrder.KeyCmp` | spikes/spike-m/lib/lua_table_flatten.c:130-139 | the sign of the result is the order by bytes, then length, and zero means equal |
| `KeyOrder.IncreasingUnique` | spikes/spike-m/lib/lua_table_flatten.c:141-153 | a set of keys has only one sorted listing |
| `KeyOrder.Insert` | spikes/spike-m/lib/lua_table_flatten.c:144-152 | one insertion step extends the sorted front by the new key and keeps the same keys |
| `KeyOrder.KeySort` | spikes/spike-m/lib/lua_table_flatten.c:142-153 | the first n keys end up sorted and are the keys that were there |
| `TableFlatten.Sink.PutBytes` | spikes/spike-m/lib/lua_table_flatten.c:77-81 | the sink keeps all that was offered or says that it did not fit |
| `TableFlatten.DetectArray` | spikes/spike-m/lib/lua_table_flatten.c:165-208 | accepts exactly the tables whose keys are 1..N with one primitive subtype; each error names a defect that is there |
| `TableFlatten.CollectKeys` | spikes/spike-m/lib/lua_table_flatten.c:297-315 | collects all keys exactly when all are strings, few enough and short enough, and each error names a defect that is there |
| `TableFlatten.EmitFields` | spikes/spike-m/lib/lua_table_flatten.c:320-338 | emits the canonical encoding, or stops at the first field in key order whose value cannot be encoded, with the error that names its defect, or once the fields so far do not fit |
| `TableFlatten.Flatten` | spikes/spike-m/lib/lua_table_flatten.c:288-339 | whatever the enumeration order, success means the table is of the accepted shape and the buffer holds its canonical encoding; an accepted table fails only when the encoding exceeds the capacity; a defect of the keys is reported before any of the values, and the one reported is there |
| `TableCodec.CanonicalUnique` | spikes/spike-m/lib/lua_table_flatten.c:317-318 | the sorted key list depends on the table alone |
| `TableCodec.ArrayKeys` | spikes/spike-m/lib/lua_table_flatten.c:165-208 | an accepted array has exactly the keys 1..N |
| `TableCodec.ScalarRoundTrip` | spikes/spike-m/lib/lua_table_flatten.c:210-284 | every scalar payload decodes to itself up to NaN canonicalisation and leaves what follows |
| `TableCodec.ArrayRoundTrip` | spikes/spike-m/lib/lua_table_flatten.c:345-382 | every array decodes to itself up to NaN canonicalisation and leaves what follows |
| `TableCodec.RoundTrip` | spikes/spike-m/lib/lua_table_flatten.c:288-436 | decoding an encoding gives the table back up to NaN canonicalisation, whatever bytes follow |
| `TableCodec.EncodingInjective` | spikes/spike-m/lib/lua_table_flatten.c:288-339 | tables with one encoding are equal up to NaN canonicalisation |
| `TableCodec.CanonExactly` | spikes/spike-m/lib/lua_table_flatten.c:31-40 | a float that is no NaN, bit by bit, keeps its bits; every NaN becomes 0x7ff8000000000000 |
| `TableCodec.RoundTripExact` | spikes/spike-m/lib/lua_table_flatten.c:288-436 | a table without NaNs is read back exactly as it was, whatever bytes follow |
| `TableCodec.EncodingInjectiveExact` | spikes/spike-m/lib/lua_table_flatten.c:288-339 | tables without NaNs that have one encoding are the same table |
| `TableCodec.SampleBytes` | spikes/spike-m/lib/lua_table_flatten.h:9-25 | the bytes of a table with a field of every kind |
| `TableUnflatten.Source.TakeRunOf` | spikes/spike-m/lib/lua_table_flatten.c:369-371 | the length guard in 32-bit arithmetic accepts a run exactly when it is there, unless the position wraps |
| `TableUnflatten.Source.ReadArray` | spikes/spike-m/lib/lua_table_flatten.c:345-382 | reads an array as the format defines it, or gives the format's error |
| `TableUnflatten.Unflatten` | spikes/spike-m/lib/lua_table_flatten.c:417-436 | on any bytes the reader returns what the format says, table or error |
| `Migration.MoveField` | spikes/spike-n/cart_runtime/migrate.c:69-119 | one field: both bounds checks, then the matching old bytes, the callback's output, or nothing |
| `Migration.MigrateRegionBytes` | spikes/spike-n/cart_runtime/migrate.c:55-123 | returns 1 exactly when every new field and every matching old field is in bounds, and then the new struct is the field-by-field migration; bytes past the struct are untouched |
| `MigrationTheorems.EveryFieldMigrated` | spikes/spike-n/cart_runtime/migrate.c:59-119 | with disjoint fields, every new field holds its old bytes, the callback's output or zero, and every byte outside the fields is zero |
| `MigrationTheorems.MatchedField` | spikes/spike-n/cart_runtime/migrate.c:79-119 | a new field holds the bytes of the first old field of its name when type and size agree, else what the callback makes of them from the old and new type, else zeros |
| `MigrationTheorems.UnmatchedField` | spikes/spike-n/cart_runtime/migrate.c:79-90 | a field that the old struct does not have is zero |
| `MigrationTheorems.RoundTripExact` | spikes/spike-n/cart_runtime/migrate.c:100-102 | between two layouts of the same fields, there and back is the identity exactly when the original's padding is zero |
| `MigrationTheorems.Composition` | spikes/spike-n/cart_runtime/migrate.c:79-102 | migrating through a layout that keeps every shared name equals migrating directly, when types agree |
| `NativeState.WidenKeepsValue` | spikes/spike-n/cart_runtime/region_native_state.c:141-154 | the i32 to i64 callback keeps the signed value |
| `NativeState.V4ToV5` | spikes/spike-n/cart_runtime/region_native_state.c:112-128 | migrating version 4 to 5 keeps the signed frame_count and the other two fields' bytes |
| `NativeState.ReorderRoundTrip` | spikes/spike-n/cart_runtime/region_native_state.c:121-137 | versions 5 and 6 migrate into each other and back without loss, both ways |
| `NativeState.EditsCompose` | spikes/spike-n/cart_runtime/region_native_state.c:93-119 | version 0 to 3 to 4 is version 0 to 4 |
| `Migration.CheckExactly` | spikes/spike-n/cart_runtime/migrate.c:76-79 | the 32-bit bounds check tells a field that does not fit exactly when the sum does not wrap or its remainder is past the end too |
| `Migration.WrapsPast` | spikes/spike-n/cart_runtime/migrate.c:76-79 | a one-byte field at the end of the address space passes the check of every struct |
| `LoadMigrate.FindDescriptor` | spikes/spike-n/cart_runtime/save_state_n.c:46-56 | the first descriptor of that name, skipping null entries and null names |
| `LoadMigrate.CheckSizes` | spikes/spike-n/cart_runtime/save_state_n.c:97-112 | passes exactly when the old buffer covers every region |
| `LoadMigrate.Turn` | spikes/spike-n/cart_runtime/save_state_n.c:125-171 | one region: the load callback is reached exactly when the region is convertible, and is then handed the scratch buffer or the old bytes; otherwise the turn fails and changes nothing; the pointer advances by the old size |
| `LoadMigrate.Load` | spikes/spike-n/cart_runtime/save_state_n.c:81-175 | header failures and a truncated buffer change nothing; an equal layout hash loads as is; otherwise the regions are those the walk leaves, the scratch buffer keeping between regions and calls what the last migration did not overwrite |
| `LoadMigrate.HeaderOkExactly` | spikes/spike-n/cart_runtime/save_state_n.c:83-95 | what passes the header check is a header of this magic and version whose size is that of the buffer or less |
| `MigrateLoadTheorems.StaleExactly` | spikes/spike-n/cart_runtime/save_state_n.c:123-150 | what is left in the scratch buffer reaches a region exactly when its descriptor's new struct is smaller than the region |
| `MigrateLoadTheorems.HandedItsOwn` | spikes/spike-n/cart_runtime/save_state_n.c:136-164 | with layouts of the right sizes a region gets the migration of exactly its own old bytes, whatever follows them and whatever the scratch buffer holds |
| `MigrateLoadTheorems.SucceedsExactly` | spikes/spike-n/cart_runtime/save_state_n.c:114-174 | where load callbacks check the size only, the load succeeds exactly when every region is convertible |
| `MigrateLoadTheorems.EveryRegionMigrated` | spikes/spike-n/cart_runtime/save_state_n.c:114-174 | after a load that succeeds, a region with layouts of the right sizes holds the migration of exactly its own old slice |
| `MigrateLoadTheorems.SavedThenMigrated` | spikes/spike-n/cart_runtime/save_state_n.c:114-174 | a buffer that an earlier registry saved is loaded with every region migrated from exactly what that registry had in it |
| `MigrateLoadTheorems.LookupIsFirst` | spikes/spike-n/cart_runtime/save_state_n.c:46-56 | the descriptor of a region is the first of its name |
| `MigrateLoadTheorems.AllOrNothingExactly` | spikes/spike-n/cart_runtime/save_state_n.c:17-20 | the promised atomicity, for every earlier state of the regions and any load callbacks, holds exactly when no region fails or the regions handed anything up to the first that does have no bytes; a region fails when it is not convertible or its callback refuses what it is handed |
| `MigrateLoadTheorems.NotAtomic` | spikes/spike-n/cart_runtime/save_state_n.c:114-174 | on a registry of two one-byte regions, a buffer that passes header, hash and size checks makes the load fail with the first region overwritten, whatever it held |
| `Sha256Stream.Sha256.Schedule` | spikes/spike-n/harness/stub_packer.c:81-87 | the message schedule of section 6.2.2 step 1 of FIPS 180-4 |
| `Sha256Stream.Sha256.Transform` | spikes/spike-n/harness/stub_packer.c:81-97 | the compression function of section 6.2.2 on the buffered block |
| `Sha256Stream.Sha256.Push` | spikes/spike-n/harness/stub_packer.c:110-114 | one more byte: the message grows by it, compressing whenever 64 are there |
| `Sha256Stream.Sha256.Update` | spikes/spike-n/harness/stub_packer.c:108-115 | the message grows by the bytes given, however they are split into calls |
| `Sha256Stream.Sha256.FinishInOne` | spikes/spike-n/harness/stub_packer.c:117-126 | padding that fits the last block gives the padded message of section 5.1.1 |
| `Sha256Stream.Sha256.FinishInTwo` | spikes/spike-n/harness/stub_packer.c:121-126 | padding that spills into a second block gives the padded message of section 5.1.1 |
| `Sha256Stream.Sha256.Final` | spikes/spike-n/harness/stub_packer.c:117-137 | the 32 bytes are the digest of everything fed in, for every message below 2^61 bytes and every split; the rows of `Sha256Standard` say which function that is |
| `Sha256Spec.CutOfJoined` | spikes/spike-n/harness/stub_packer.c:108-126 | the blocks compressed one by one are the blocks of the padded message |
| `Sha256Standard.RoundConstants` | spikes/spike-n/harness/stub_packer.c:50-62 | each round constant is the first 32 bits of the fractional part of the cube root of its prime |
| `Sha256Standard.InitialHash` | spikes/spike-n/harness/stub_packer.c:99-106 | the initial words are those of the square roots of the first eight primes |
| `Sha256Standard.RotrBit` | spikes/spike-n/harness/stub_packer.c:65 | bit i of a rotation by n is bit i + n, modulo 32 |
| `Sha256Standard.ChBit` | spikes/spike-n/harness/stub_packer.c:67 | the bit of the second word where the first has a one, else of the third |
| `Sha256Standard.MajBit` | spikes/spike-n/harness/stub_packer.c:68 | the bit that two of the three have |
| `Sha256Standard.BigSigma0Bit` | spikes/spike-n/harness/stub_packer.c:69 | the exclusive or of bits i + 2, i + 13 and i + 22 |
| `Sha256Standard.BigSigma1Bit` | spikes/spike-n/harness/stub_packer.c:70 | the exclusive or of bits i + 6, i + 11 and i + 25 |
| `Sha256Standard.SmallSigma0Bit` | spikes/spike-n/harness/stub_packer.c:71 | the exclusive or of bits i + 7 and i + 18 round the word and of bit i + 3 if there is one |
| `Sha256Standard.SmallSigma1Bit` | spikes/spike-n/harness/stub_packer.c:72 | the exclusive or of bits i + 17 and i + 19 round the word and of bit i + 10 if there is one |
| `Sha256Standard.ScheduleWord` | spikes/spike-n/harness/stub_packer.c:84-87 | sixteen big-endian words, then each a sum modulo 2^32 of four earlier ones |
| `Sha256Standard.RoundSums` | spikes/spike-n/harness/stub_packer.c:90-94 | one round as sums modulo 2^32 |
| `Sha256Standard.CompressSums` | spikes/spike-n/harness/stub_packer.c:88-97 | the words after the rounds are added to the hash so far, each modulo 2^32 |
| `Sha256Standard.PaddedMessage` | spikes/spike-n/harness/stub_packer.c:117-126 | the message, 0x80, zeros, and the length in bits as the last eight bytes |
| `Sha256Standard.DigestOfBlocks` | spikes/spike-n/harness/stub_packer.c:108-126 | the digest is the initial hash compressed with the blocks of the padded message in order |
| `Sha256Standard.HashValues` | spikes/spike-n/harness/stub_packer.c:127-136 | its words, each most significant byte first |
| `Bpf.CheckedReturns` | spikes/spike-s/seccomp_allowlist_s.h:152-170 | in a filter whose jumps stay inside it, every path ends at a return |
| `SeccompFilters.BuildArchDispatch` | spikes/spike-s/seccomp_allowlist_s.h:171-224 | refused exactly when it does not fit or the first list is too long for a byte jump; otherwise the buffer holds the dispatch program |
| `SeccompFilters.BuildRiscv32Only` | spikes/spike-s/seccomp_allowlist_s.h:240-275 | refused exactly by its own size check, otherwise the program of 5+2n instructions, which runs one past the size it was told exactly when that is 4+2n |
| `SeccompFilters.BuildUnified` | spikes/spike-r/seccomp_allowlist.h:143-180 | refused exactly when it does not fit; otherwise the one-architecture program with the given default |
| `SeccompFilters.OverrunsExactly` | spikes/spike-s/seccomp_allowlist_s.h:244-249 | the size check lets through exactly one size that is too small, 4+2n |
| `SeccompFilters.SingleArchDecides` | spikes/spike-r/seccomp_allowlist.h:117-180 | on its architecture the filter allows exactly the listed numbers and else gives the default action; any other architecture is killed |
| `SeccompFilters.DispatchDecides` | spikes/spike-s/seccomp_allowlist_s.h:152-224 | allows exactly a number on the list of its own architecture, kills everything else, unknown architectures included |
| `SeccompFilters.TruncatedDecides` | spikes/spike-s/seccomp_allowlist_s.h:182-198 | with a first list too long for the byte jump, every other architecture's calls are allowed outright, or decided by the first list when the jump is cut to 0 |
| `SeccompFilters.DispatchExactly` | spikes/spike-s/seccomp_allowlist_s.h:182-198 | the filter decides every call of every architecture as it should exactly when the first list is within the bound that is tested |
| `SeccompFilters.FiltersChecked` | spikes/spike-s/seccomp_allowlist_s.h:196-224 | every emitted filter passes the in-range check of jumps and loads |
| `Division.Normalize` | spikes/spike-c/lib/lua_lib_runtime.c:879-880 | finds the largest doubling of d that is at most n, without a wrapped shift |
| `Division.UDivMod` | spikes/spike-c/lib/lua_lib_runtime.c:874-888 | for every n and d > 0 the quotient and remainder of Euclidean division; zero for d = 0 |
| `Division.UDivBitwise` | spikes/spike-a/ports/rv32emu/softfloat-glue.c:102-110 | the 64-step form computes the same quotient for every d > 0, and all ones for d = 0 |
| `Division.UModBitwise` | spikes/spike-a/ports/rv32emu/softfloat-glue.c:111-115 | its remainder is the Euclidean one, and n for d = 0 |
| `Division.Div` | spikes/spike-c/lib/lua_lib_runtime.c:898-905 | the signed quotient truncates toward zero, MIN / -1 wraps to MIN, and dividing by zero gives zero |
| `Division.TruncatedFits` | spikes/spike-c/lib/lua_lib_runtime.c:898-905 | truncated division is representable except for MIN / -1 |
| `Division.Mod` | spikes/spike-c/lib/lua_lib_runtime.c:906-914 | the signed remainder is that of truncated division, smaller than the divisor and with the dividend's sign; zero for a zero divisor |
| `VoiceQueue.Queue.VoiceStart` | spikes/spike-k/cart_runtime/region_voice_end_queue.c:22-35 | the voice plays and its own pending events are dropped, the others keeping their order |
| `VoiceQueue.Queue.ApplyPending` | spikes/spike-k/cart_runtime/region_voice_end_queue.c:42-53 | exactly the voices with a pending event stop, and the queue is empty |
| `VoiceQueue.Queue.Record` | spikes/spike-k/cart_runtime/region_voice_end_queue.c:55-62 | appends, or drops the event when eight are waiting |
| `VoiceQueue.Queue.Load` | spikes/spike-k/cart_runtime/region_voice_end_queue.c:80-89 | copies the whole struct and only then refuses a count above eight |
| `VoiceQueue.Queue.ReportEndOfFrame` | spikes/spike-k/lib/synthetic_mixer.c:19-29 | appends this frame's endings in schedule order, as far as there is room |
| `VoiceQueue.Queue.Frame` | spikes/spike-k/ports/rv32emu/det_audio_branch_full.c:52-58 | one frame drains the queue, shows what is left playing, and queues this frame's endings |
| `VoiceRuns.Loop` | spikes/spike-k/ports/rv32emu/det_audio_branch_full.c:52-58 | the frame loop shows the voices of the abstract run in every frame |
| `VoiceRuns.PlayingExactly` | spikes/spike-k/cart_runtime/region_voice_end_queue.c:22-62 | for every schedule, a voice plays at frame f exactly when it was started and no ending the queue took is from an earlier frame |
| `VoiceRuns.PlaysUntilItEndsExactly` | spikes/spike-k/cart_runtime/region_voice_end_queue.c:55-62 | every started voice plays exactly until its first ending, in every frame, if and only if by each ending of a started voice the queue has taken one of it, that is, one was among the first eight of its frame |
| `VoiceRuns.EightSuffice` | spikes/spike-k/cart_runtime/region_voice_end_queue.c:55-62 | with at most eight endings a frame every voice plays until it ends |
| `VoiceRuns.NinthPlaysOn` | spikes/spike-k/cart_runtime/region_voice_end_queue.c:55-62 | nine voices ending in frame 0: the ninth plays in every later frame |
| `AudioBranch.SaveTransportResume` | spikes/spike-k/ports/rv32emu/det_audio_branch_load.c:40-88 | the three branches of the audio test: saving both regions, printing, parsing and loading into a runtime and a queue in any condition, and going on from the frame number in the buffer shows exactly what the straight run shows from there on, and ends in the same state |
| `AudioBranch.StoresBack` | spikes/spike-k/cart_runtime/region_voice_end_queue.c:73-89 | the packed bytes of a saved queue hold the same voices and waiting events |
| `AudioBranch.QueueOffsets` | spikes/spike-k/cart_runtime/region_voice_end_queue.h:35-45 | where the packed queue has its fields |
| `VoiceRuns.RestartSurvives` | spikes/spike-k/cart_runtime/region_voice_end_queue.c:22-35 | a restart before its ending is applied keeps the voice playing and decides nothing for any other voice |
| `ScriptTable.StoresBothWays` | spikes/spike-m/cart_runtime/region_persistent_scripts.c:150-165 | the saved struct is a function of the taken slots and the blobs, and determines them |
| `ScriptTable.SlotTable.Reset` | spikes/spike-m/cart_runtime/region_persistent_scripts.c:12-16 | every slot free and empty |
| `ScriptTable.SlotTable.UnmarkAll` | spikes/spike-m/cart_runtime/region_persistent_scripts.c:18-22 | no slot taken, every blob kept |
| `ScriptTable.SlotTable.Alloc` | spikes/spike-m/cart_runtime/region_persistent_scripts.c:44-63 | takes the lowest free slot and keeps its bytes, or -1 when all 64 are taken |
| `ScriptTable.SlotTable.Free` | spikes/spike-m/cart_runtime/region_persistent_scripts.c:65-73 | a taken slot is freed and emptied; any other call changes nothing |
| `ScriptTable.SlotTable.Write` | spikes/spike-m/cart_runtime/region_persistent_scripts.c:75-87 | stores the blob with a zero tail exactly when the slot is taken and the blob fits |
| `ScriptTable.SlotTable.Read` | spikes/spike-m/cart_runtime/region_persistent_scripts.c:89-97 | the blob of a taken slot when the caller has room, else -1 |
| `ScriptTable.SlotTable.ActiveCount` | spikes/spike-m/cart_runtime/region_persistent_scripts.c:105-110 | the number of taken slots |
| `ScriptTable.MarkedShows` | spikes/spike-m/cart_runtime/region_persistent_scripts.c:34-37 | setting a bit of the two-word bitmap adds exactly that slot |
| `ScriptTable.UnmarkedShows` | spikes/spike-m/cart_runtime/region_persistent_scripts.c:39-42 | clearing a bit removes exactly that slot |
| `ScriptRuns.RunsStayTidy` | spikes/spike-m/cart_runtime/region_persistent_scripts.c:44-87 | from a reset table, a slot that is not taken is always empty |
| `ScriptRuns.TidyDetermined` | spikes/spike-m/cart_runtime/region_persistent_scripts.c:150-157 | so the saved state is determined by the taken slots and their blobs |
| `ScriptRuns.RunsAreDense` | spikes/spike-m/cart_runtime/region_persistent_scripts.c:44-63 | without frees the taken slots are always the first ones, and a slot not reached yet keeps what it held |
| `ScriptRuns.FreshSlotsInOrder` | spikes/spike-m/cart_runtime/region_persistent_scripts.c:44-63 | on a fresh table the i-th allocation returns slot i |
| `ScriptRuns.ResumeMeetsItsSlots` | spikes/spike-m/cart_runtime/region_persistent_scripts.c:46-58 | after load and unmark, the i-th allocation of any run without frees returns slot i with the blob saved in it |
| `ScriptRuns.Resume` | spikes/spike-m/cart_runtime/region_persistent_scripts.c:44-63 | the same, through the saved struct and two tables |
| `Printer.Context.Put` | spikes/spike-c/lib/lua_lib_runtime.c:515-519 | counts every character and stores it while one byte is left for the terminator |
| `Printer.Context.EmitUint` | spikes/spike-c/lib/lua_lib_runtime.c:526-545 | up to a precision of 33: inside its 33 characters of scratch, digits in the base, padded to the precision, then to the width by the flags |
| `Printer.Context.EmitInt` | spikes/spike-c/lib/lua_lib_runtime.c:547-580 | when precision and digits are at most 68: inside its 34 characters of scratch, sign, digits and padding by width and flags |
| `Printer.UintFitsExactly` | spikes/spike-c/lib/lua_lib_runtime.c:529-538 | the unsigned printer stays inside its scratch array exactly up to a precision of 33 |
| `Printer.IntFitsExactly` | spikes/spike-c/lib/lua_lib_runtime.c:567-571 | the signed printer stays inside its scratch array exactly when precision and digits together are at most 68 |
| `Vsnprintf.ReadDirective` | spikes/spike-c/lib/lua_lib_runtime.c:655-682 | flags, width, precision, length modifiers and conversion of one directive |
| `Vsnprintf.Format` | spikes/spike-c/lib/lua_lib_runtime.c:651-758 | for every format whose directives are complete and keep the printers inside their scratch arrays, the result is the length of the whole text, and the buffer holds its longest prefix that leaves room for the NUL, the NUL, and nothing else changed |
| `Vsnprintf.Strtol` | spikes/spike-c/lib/lua_lib_runtime.c:226-250 | blanks, sign, base prefix and digits, with 32-bit wrap-around |
| `Vsnprintf.PrintedReadsBack` | spikes/spike-c/lib/lua_lib_runtime.c:547-580 | for every long above LONG_MIN, every width and every mix of the four flags, reading the printed text in base 10 gives the number back |
| `Vsnprintf.SignedPrecisionExactly` | spikes/spike-c/lib/lua_lib_runtime.c:568-571 | the signed printer honours a precision exactly when it asks for at most one zero |
| `Vsnprintf.HalfTheZeros` | spikes/spike-c/lib/lua_lib_runtime.c:571 | the directive %.5d of 7 prints 007, two of the four zeros it is asked for |
| `Vsnprintf.UnsignedPrecision` | spikes/spike-c/lib/lua_lib_runtime.c:534-539 | the unsigned printer honours every precision |
| `Vsnprintf.WidthExactly` | spikes/spike-c/lib/lua_lib_runtime.c:540-544 | the unsigned printer fills the width exactly when it is not asked for zeros and a precision at once, or the digits reach it anyway |
| `Vsnprintf.ComesOutShort` | spikes/spike-c/lib/lua_lib_runtime.c:542-543 | the directive %05.3u of 7 prints 007, two characters short of its width |
| `Vsnprintf.SignedWidth` | spikes/spike-c/lib/lua_lib_runtime.c:547-580 | the signed printer always fills the width |
| `Vsnprintf.StoredExactly` | spikes/spike-c/lib/lua_lib_runtime.c:515-519 | the buffer holds as much of the text as leaves room for the NUL, then the NUL, and is unchanged behind it |
| `ReadBack.BodyValue` | spikes/spike-c/lib/lua_lib_runtime.c:526-539 | the digits and zeros printed in any base up to 16 are worth the number |
| `ReadBack.LetterCase` | spikes/spike-c/lib/lua_lib_runtime.c:526-533 | letters are A to F for X and a to f otherwise |
| `ReadBack.UintReadsBack` | spikes/spike-c/lib/lua_lib_runtime.c:226-250 | every 32-bit number printed in octal, decimal or hex with any width, precision and flags is read back in that base as the long with the same bits |
| `ReadBack.DecimalAndOctalReadBack` | spikes/spike-c/lib/lua_lib_runtime.c:689-710 | the conversions u and o, read back in bases 10 and 8 |
| `ReadBack.HexReadsBackExactly` | spikes/spike-c/lib/lua_lib_runtime.c:694-705 | the conversions x and X are read back in base 16 exactly when # does not put its mark before blanks |
| `ReadBack.MarkedReadsBackExactly` | spikes/spike-c/lib/lua_lib_runtime.c:232-233 | with the mark in base 0 or 16, exactly when no blanks come between the mark and the digits |
| `ReadBack.PointerReadsBack` | spikes/spike-c/lib/lua_lib_runtime.c:711-716 | a pointer is 0x and at least eight digits, read back in base 16 and in base 0 |
| `ReadBack.BaseZero` | spikes/spike-c/lib/lua_lib_runtime.c:232-239 | in base 0 a leading zero announces octal, and digits without one are decimal |
| `ReadBack.BlanksInFrontOf` | spikes/spike-c/lib/lua_lib_runtime.c:229 | spaces and tabs in front change nothing but the end position |
| `ReadBack.SignedText` | spikes/spike-c/lib/lua_lib_runtime.c:547-580 | without a width: the sign character, minus before plus before space, then the decimal digits |
| `ReadBack.TextConversions` | spikes/spike-c/lib/lua_lib_runtime.c:717-736 | s and c: the string cut to the precision, (null) for a null one, or one character, in a field of the width |
| `Directives.FrontRead` | spikes/spike-c/lib/lua_lib_runtime.c:657-669 | flags in any order and number and then a width, as digits or from an argument, are read back |
| `Directives.BackRead` | spikes/spike-c/lib/lua_lib_runtime.c:670-676 | so is a precision, and none is -1 |
| `Directives.LengthRead` | spikes/spike-c/lib/lua_lib_runtime.c:677-681 | length modifiers are passed over |
| `Directives.DirectiveParts` | spikes/spike-c/lib/lua_lib_runtime.c:655-682 | a directive is these four readings one after the other and the conversion behind them |
| `Describe.StringSink.Putc` | spikes/spike-k/cart_runtime/runtime_tracked.c:19-23 | the sink holds the text cut at its capacity, and its flag says exactly whether it was cut |
| `Describe.StringSink.Putu` | spikes/spike-k/cart_runtime/runtime_tracked.c:33-40 | appends the decimal digits |
| `Describe.StringSink.DescribeAll` | spikes/spike-k/cart_runtime/runtime_tracked.c:44-60 | appends the description of all regions in order |
| `Describe.SumSizes` | spikes/spike-k/cart_runtime/runtime_tracked.c:62-69 | the sum of the sizes in 32 bits |
| `Describe.DescriptionInjective` | spikes/spike-k/cart_runtime/runtime_tracked.c:44-60 | registries with one description have the same names, sizes and field text in the same order |
| `Describe.SampleDescription` | spikes/spike-k/cart_runtime/runtime_tracked.c:44-60 | the text of a registry of two regions, one without fields |
| `Decimal.ValueOfDigits` | spikes/spike-k/cart_runtime/runtime_tracked.c:33-40 | the digits printed for a number have that value |
| `Fnv.Fnv1a64` | spikes/spike-k/cart_runtime/save_state.c:25-31 | the loop folds the bytes from the offset basis |
| `Fnv.StepExactly` | spikes/spike-k/cart_runtime/save_state.c:25-31 | each byte is exclusive-or'ed into the low bits first and the result multiplied by 1099511628211 modulo 2^64 |
| `Fnv.StepInjective` | spikes/spike-d/cart_runtime/digest.c:34-37 | one step never merges two states |
| `Fnv.OneByteDetected` | spikes/spike-d/cart_runtime/digest.c:30-39 | changing one byte of any input always changes the hash |
| `Pcg32.Pcg.Draw` | spikes/spike-d/cart_runtime/pcg32.h:39-46 | advances the state by a step that can be undone; bit k of the 32-bit result is the exclusive or of bits j+45 and j+27 of the old state, where j is k moved round by the state's top five bits |
| `Rotation.RotatedBit` | spikes/spike-d/cart_runtime/pcg32.h:45 | the two shifts or'ed together, the left one by the negated count modulo 32, are a rotation, for every count |
| `Pcg32.OneOutput` | spikes/spike-d/cart_runtime/pcg32.h:43-45 | a 32-bit word with those bits is the only one, so the result is determined |
| `Pcg32.BackOfNext` | spikes/spike-d/cart_runtime/pcg32.h:39-42 | the state update can be undone |
| `Pcg32.NextIs` | spikes/spike-d/cart_runtime/pcg32.h:41-42 | the state update is multiplication by 6364136223846793005 and addition of the increment, modulo 2^64 |
| `Pcg32.NextOfBack` | spikes/spike-d/cart_runtime/pcg32.h:39-42 | and every state is the update of one |
| `Pcg32.NeverMerge` | spikes/spike-d/cart_runtime/pcg32.h:39-46 | two generators with one increment agree after n draws exactly when they agree now |
| `Pcg32.SeedsDiffer` | spikes/spike-d/cart_runtime/pcg32.h:29-37 | two seeds on one stream give the same first state only when they are the same |
| `FrameState.FrameStateRegion.Save` | spikes/spike-k/cart_runtime/region_frame_state.c:51-70 | every sin, cos, sqrt, misc and mob x, y, vx, vy is its own old value, or 0x7fc00000 if that is a NaN, bit by bit; frame, generator and mob state are unchanged; what is saved is the image of that |
| `FrameState.CanonExactly` | spikes/spike-d/cart_runtime/nan_canon.h:24-33 | a float that is no NaN keeps its bits; every NaN becomes 0x7fc00000 |
| `FrameState.SavedWord` | spikes/spike-k/cart_runtime/region_frame_state.c:51-70 | word by word of the saved bytes: the float words as above, every other word unchanged |
| `FrameState.NanFreeStays` | spikes/spike-k/cart_runtime/region_frame_state.c:51-70 | a save changes nothing where there are no NaNs |
| `FrameState.FieldOffsets` | spikes/spike-d/cart_runtime/frame_state.h:28-45 | where the packed struct has its fields |
| `NanBits.NanFields` | spikes/spike-d/cart_runtime/nan_canon.h:26-31 | the test by shifts and masks holds exactly when every exponent bit is set and some fraction bit is |
| `FrameState.FrameStateRegion.Load` | spikes/spike-k/cart_runtime/region_frame_state.c:72-78 | takes exactly a buffer of the struct's size, after which the struct's image is that buffer |
| `FrameState.FrameOfImage` | spikes/spike-d/cart_runtime/frame_state.h:28-45 | the packed image determines every field |
| `FrameState.ImageOfFrame` | spikes/spike-d/cart_runtime/frame_state.h:28-45 | every byte string of that size is the image of a state |
| `FrameState.CanonBytesTwice` | spikes/spike-d/cart_runtime/nan_canon.h:24-33 | saving a saved state again changes nothing |
| `SaveState.Runtime.Init` | spikes/spike-k/cart_runtime/save_state.c:38-56 | the layout hash is FNV-1a-64 of the description |
| `SaveState.Runtime.Save` | spikes/spike-k/cart_runtime/save_state.c:68-89 | 0 and nothing done when the buffer is too small, else header and canonical regions in order, nothing past them |
| `SaveState.Runtime.Load` | spikes/spike-k/cart_runtime/save_state.c:91-111 | a failed gate changes no region; past the gates the regions are those the walk leaves |
| `SaveState.Runtime.LoadRegions` | spikes/spike-k/cart_runtime/save_state.c:102-110 | the walk stays inside the buffer and ends exactly at the total size |
| `SaveStateSpec.HeaderBack` | spikes/spike-k/cart_runtime/save_state.c:75-80 | the five header fields are read back from any buffer that starts with them |
| `SaveStateSpec.GatesExactly` | spikes/spike-k/cart_runtime/save_state.c:91-100 | a buffer passes the gates exactly when it begins with the header of this magic, version, layout and size, whatever the frame number, and is long enough |
| `SaveStateSpec.SliceOfImage` | spikes/spike-k/cart_runtime/save_state.c:82-87 | the i-th slice of a saved buffer is the i-th region |
| `SaveStateSpec.RunIsWalked` | spikes/spike-k/cart_runtime/save_state.c:104-109 | the walk commits everything before the first bad region, that one too if it was handed anything, and nothing after it |
| `SaveStateSpec.AtomicExactly` | spikes/spike-k/cart_runtime/save_state.c:102-110 | for any walk and whatever the regions held: all of them are replaced or none is changed, exactly when the walk succeeds or the regions handed anything up to the failing one have no bytes |
| `SaveStateSpec.LoadAtomicExactly` | spikes/spike-k/cart_runtime/save_state.c:102-110 | a load past its gates is all-or-nothing, whatever the regions held, exactly when every load callback takes its slice or the regions up to and including the first that refuses have no bytes |
| `SaveTheorems.SavedPassesGates` | spikes/spike-k/cart_runtime/save_state.c:68-100 | a buffer this registry saved passes every gate of this registry |
| `SaveTheorems.LoadOfSaved` | spikes/spike-k/cart_runtime/save_state.c:68-111 | loaded into any other state it reproduces every region with NaNs canonical, exactly when every region takes back its own bytes |
| `SaveTheorems.Transport` | spikes/spike-k/cart_runtime/save_state.c:68-140 | save, chunked hex, parse and load into another runtime: the same, end to end |
| `SaveTheorems.LayoutEditRejected` | spikes/spike-k/cart_runtime/save_state.c:91-100 | one changed character in a description of the same length makes the load fail its gates |
| `SaveTheorems.SaveTwice` | spikes/spike-k/cart_runtime/save_state.c:68-89 | two saves of the audio branch: the second finds nothing left to canonicalise, and the two buffers are equal outside the frame word |
| `SaveTheorems.AudioTakesBack` | spikes/spike-k/cart_runtime/region_voice_end_queue.c:80-89 | the audio branch takes back what it saved exactly when its queue counts at most eight events |
| `SaveTheorems.AudioCanonical` | spikes/spike-k/cart_runtime/region_frame_state.c:51-70 | what a save makes of the audio branch, word by word; nothing when its frame state has no NaNs |
| `SaveTheorems.TransportAudio` | spikes/spike-k/cart_runtime/save_state.c:68-140 | the audio branch arrives as it was sent, but for NaN patterns, exactly when its queue counts at most eight events; without NaNs sender and receiver hold exactly the sender's bytes |
| `SaveTheorems.LoadNotAtomic` | spikes/spike-k/cart_runtime/save_state.c:102-110 | loading a buffer that passes every gate and whose queue counts nine events fails with both regions of the audio branch overwritten, whatever they held |
| `HexTransport.EmitHex` | spikes/spike-k/cart_runtime/save_state.c:116-140 | one line: BUFFER, the frame number and the lower-case hex of the whole buffer, in chunks of 256 bytes |
| `HexTransport.HexAt` | spikes/spike-k/cart_runtime/save_state.c:122-136 | two lower-case digits a byte, the high half first |
| `HexTransport.SampleLine` | spikes/spike-k/cart_runtime/save_state.c:116-140 | the line of frame 70 and two bytes |
| `HexTransport.ParseHex` | spikes/spike-k/cart_runtime/save_io.c:72-108 | -1 exactly when the payload is not pairs of hex digits between blanks or does not fit, else those bytes |
| `HexTransport.LineDecodes` | spikes/spike-k/cart_runtime/save_io.c:72-108 | parsing an emitted line gives back exactly the buffer, whatever the frame number |
| `FrameClock.LandsOnIdeal` | spikes/spike-l/host/audio_push.c:26-43 | in range, pushing the computed count lands exactly on the ideal total unless that is already passed |
| `FrameClock.Core.CatchUp` | spikes/spike-l/host/retro_core.c:252-276 | at most three updates, and the rest is below one tick or thrown away |
| `FrameClock.Core.Run` | spikes/spike-l/host/retro_core.c:250-306 | elapsed time is always updates times the tick plus the accumulator plus what was dropped, and audio never runs ahead of the ideal |
| `FrameClock.DropsExactly` | spikes/spike-l/host/retro_core.c:266-276 | time is dropped exactly when four ticks or more have piled up; below that the updates are the whole ticks and the rest is kept, from there on three updates are made and one nanosecond less than a tick is kept |
| `FrameClock.TimeIsAccounted` | spikes/spike-l/host/retro_core.c:250-276 | the same balance over every sequence of runs, with the accumulator below one tick and at most three updates a run |
| `FrameClock.OnTimeExactly` | spikes/spike-l/host/retro_core.c:266-276 | nothing is ever dropped exactly when no run finds four ticks, and then the updates are exactly the ticks gone by |
| `FrameClock.PushedStep` | spikes/spike-l/host/audio_push.c:26-43 | in range, each run pushes what the frame computation asks for, clamped |
| `FrameClock.RunAll` | spikes/spike-l/host/retro_core.c:250-306 | a core run at any times with a full mixer goes through exactly the clock of `TimeIsAccounted` and the sample count of `ExactlyOnIdeal` |
| `FrameClock.ExactlyOnIdeal` | spikes/spike-l/host/audio_push.c:39-42 | with a full mixer the total after k runs is floor(k * rate / fps) for every k exactly when rate <= 4096 * fps |
| `FrameClock.CoreOnIdeal` | spikes/spike-l/host/retro_core.c:296-306 | at 48 kHz and 60 fps that is 800 samples a run |

## Left out

- AllocatorPool.EveryRun: frees of blocks that are not live, and requests whose 32-bit sums wrap, are outside it; `WrapExact` says exactly which requests those are.
- Linker.Linker.LoadLib: at most eight available sonames, so that every library is registered; `LoadingEndsExactly` says for any number when loading ends, but what the tables hold after a ninth library is not modelled. Images have to fit the guest memory above their base.
- Linker.Linker.Dynload: the same bound on available sonames; a cart without a dynamic section returns at once and is not modelled; sonames are taken to be below 63 characters and symbol indexes inside their tables; parsing of ELF headers is replaced by the parsed image.
- LinkerTheorems.LibraryWordResolved: needs a symbol table that did not fill up, names below 63 characters and relocation words that do not overlap.
- TableFlatten.Flatten: strings so long that a 32-bit position wraps are outside it; reader positions that wrap are reported by the model's own status `Wild`.
- Migration.MigrateRegionBytes: descriptors on which the bounds check is not sound (`CheckExactly` says which those are), because the walk then writes outside the struct; a callback has to fill exactly the field it is given.
- TableUnflatten.Unflatten: buffers within 16 MiB of 2^32 bytes, at whose end a length word that is cut short can wrap the position.
- LoadMigrate.Load: a new struct longer than the scratch buffer and an old one that reaches past the save buffer, which would be written and read outside the two.
- Sha256Stream.Sha256.Update: messages of 2^61 bytes and more, whose bit length wraps.
- Vsnprintf.Format: formats that end inside a directive, where the C code reads on past the terminator, and precisions with which a printer writes past its scratch array (`UintFitsExactly`, `IntFitsExactly`); the floating-point conversions are a parameter; missing or wrongly typed arguments read as zero or NULL; texts of 2 GiB and more.
- Vsnprintf.PrintedReadsBack: LONG_MIN, whose negation overflows.
- VoiceQueue.Queue.VoiceStart: handles of 64 and more, which shift past the bitmap.
- ScriptTable.SlotTable.Load: images that no table saved, such as one with a length above 256, which the source does not reject either.
- SaveState.Runtime.Init: a description above 4096 bytes, on which the source stops for ever, and registries whose sizes sum past 2^32.
- FrameClock.Core.PushAudio: a backlog of 2^31 samples or a product past 2^64; drawing, palettes and input polling.
- Whole-period claims for PCG32, and any distribution claim about its output or about the hashes.
- The concrete allowlists: the builders are proved for all lists.
- Sockets, files, ecalls, launchers, namespaces, threads and kernel installation of filters.
- The Lua virtual machine, coroutines, and the diagnostics printed on migration failures.
- Float arithmetic: `strtof`, the libm stubs, `emit_double_fixed` and `emit_double_g`, whetstone, screen shake.
- `calloc`'s product wrap beyond what `AllocatorHeap.Heap.Calloc` states, `qsort`, and the string functions.
- The packer's cache and build step, the debug servers, the browser and benchmark hosts.
