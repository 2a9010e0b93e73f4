# Penglai: verified models

Dafny models of the parts of the Penglai enclave system with the most intricate logic, and proofs of what they
promise. `dafny verify dfyconfig.toml` checks everything.

**The dynamic linker** (musl's `dynlink.c`)
- `DepGraph`, `BfsList`, `CtorSort`, `Dso`, `Linker`: the dependency graph, the growing list of dependencies and the
  constructor sort, on heap nodes with marks and a shared queue/stack array. The pure part of the sort works on a value
  (`Dfs`) that the heap state agrees with.
- `CtorProtocol`, `CtorRuns`, `CtorProgress`, `CtorReturn`, `CtorExit`, `CtorShutdown`: `do_init_fini` and `__libc_exit_fini` as a
  state machine. Steps are at least as fine as the stretches between lock operations. The dependency graph is part of
  the state and grows when DSOs are loaded. A thread's nested `dlopen` calls are a stack of frames. A waiting thread
  is one whose next step is not enabled. `CtorRuns` says what no run ever does, `CtorProgress`, `CtorReturn` and
  `CtorExit` when runs come to an end, and `CtorShutdown` what the call of exit fixes.
- `GnuHash`: the GNU hash index on its flat layout of 32-bit words.
- `Words`, `Tls`, `TlsCopies`, `TlsInstall`: offsets, thread areas, reservations and the copies of images in both TLS
  layouts, for any word width.
- `LazyRelocs`, `LazyList`, `LazyRedo`, `LazyPrepare`: deferred relocations, their in-place compaction, and the list of
  DSOs that have any. What an entry means depends on the DSO, since it names a symbol of that DSO's own table; whether
  it may be deferred depends on its type alone. `LazyList` describes links from a head that may run into a cycle, for
  `dlopen` can build such a list.
- `Dlopen`, `Effects`: what `dlopen` adds to the linker's lists and takes back, in terms of the sequence of loads,
  preparations and chain additions that one call performs.
- `Choices`: picking elements out of a list, in order.

**The enclave page table and loader** (`penglai-enclave-page.c`, `penglai-enclave-elfloader.c`)
- `Bits`, `Memory`, `Sv39`: entries, little-endian words in the pool, and the Sv39 walk of section 4.4 of the RISC-V
  Privileged Architecture (version 20211203).
- `PageTree`, `EnclaveMem`: the tree of tables with an owner for each used page, and the driver's operations on the
  pool. An `EnclaveMem` keeps, beside the bytes, the abstract page table that the walk over those bytes computes.
- `Loader`: the segment, section, stack and shared-memory loops.

**SM4 and its modes** (`SM4.c`, `SM4_Enc.c`): `Feistel`, `Sm4`, `Sm4Code`, `Splice`, `Blocks`, `Cbc`, `Ocb` (RFC 7253
on byte strings), `OcbCode`, `OcbModes`. The S-box is a parameter: nothing proved depends on its entries. The modes
know the cipher only through the contract of `SM4_Encrypt` and `SM4_Decrypt`.

**Streaming hashes** (`SM3.c`, `crypt.c`): `Streams` (blocks and padding, for any block size), `Sm3`, `Sm3Code`,
`Sha512`, `Sha512Code`. Words are abstract, with the operations the standards use; the 32- and 64-bit words with the
standards' constants are instances, and the few laws the proofs need are proved for them.

Two idioms recur. A function passed as a ghost parameter stands for a recursive definition whose unfolding a proof does
not need. Links and offsets are specified by what they mean for a whole list or message, never by the loop that writes
them.

## Model

| member | source | states |
|---|---|---|
| `Linkers.Linker.ExtendBfsDeps` | br2-external/package/penglai-sdk/src/musl/ldso/dynlink.c:1212-1261 | on any graph, cyclic or not, the list that grows while it is walked ends with the direct dependencies first, then every other DSO reachable in one or more steps exactly once, and all marks clear |
| `Linkers.Linker.AppendDeps` | br2-external/package/penglai-sdk/src/musl/ldso/dynlink.c:1234-1257 | one turn of the growing loop: the slots counted beforehand are enough for the entries appended and the terminator, and the turn keeps the closure invariant |
| `BfsList.GrownIsBfsDeps` | br2-external/package/penglai-sdk/src/musl/ldso/dynlink.c:1234-1257 | a list whose every entry has been expanded is the transitive closure, by membership both ways |
| `BfsList.BfsListBoundsReach` | br2-external/package/penglai-sdk/src/musl/ldso/dynlink.c:1409-1421 | the length of the finished list plus one bounds the number of DSOs reachable from its owner, even when a cycle puts the owner into its own list |
| `Linkers.Linker.ClearMarks` | br2-external/package/penglai-sdk/src/musl/ldso/dynlink.c:1413-1421 | the slot count exceeds the number of reachable DSOs, and the marks the sort relies on are clear |
| `Linkers.Linker.QueueCtors` | br2-external/package/penglai-sdk/src/musl/ldso/dynlink.c:1402-1462 | the queue holds each DSO reachable from the argument exactly once and nothing else, ends with NULL, and puts v before u for every edge from u to v where v does not reach u; no mark is left behind; the array is a new one unless the argument is the head and it is the shared builtin queue |
| `Linkers.Linker.Sort` | br2-external/package/penglai-sdk/src/musl/ldso/dynlink.c:1436-1458 | the depth-first sort on one array: queue and stack, from opposite ends, never meet, every array access is in range, and the loop ends by a measure over marks and next_dep |
| `CtorSort.AdvanceInv` | br2-external/package/penglai-sdk/src/musl/ldso/dynlink.c:1447-1448 | skipping a marked dependency keeps the sort's invariant on arbitrary cyclic graphs |
| `CtorSort.DescendInv` | br2-external/package/penglai-sdk/src/musl/ldso/dynlink.c:1450-1453 | descending into an unmarked dependency keeps it |
| `CtorSort.EmitInv` | br2-external/package/penglai-sdk/src/musl/ldso/dynlink.c:1445-1456 | emitting a finished DSO keeps it, including the order of what is already in the queue |
| `CtorSort.DoneIsCtorOrder` | br2-external/package/penglai-sdk/src/musl/ldso/dynlink.c:1444-1457 | with an empty stack the invariant is the constructor order |
| `CtorSort.SlotsSuffice` | br2-external/package/penglai-sdk/src/musl/ldso/dynlink.c:1433-1456 | queue and stack together never hold more DSOs than are reachable |
| `DepGraph.CtorOrderExtends` | br2-external/package/penglai-sdk/src/musl/ldso/dynlink.c:2050-2052 | a queue that is in order for the DSOs loaded when it was built stays in order for every larger graph, so it may be run after further loads |
| `DepGraph.ReachesExtends` | br2-external/package/penglai-sdk/src/musl/ldso/dynlink.c:2046-2048 | loading more DSOs changes nothing about which loaded DSO depends on which |
| `BfsList.BfsDepsExtends` | br2-external/package/penglai-sdk/src/musl/ldso/dynlink.c:1212-1261 | a finished dependency list stays the list of its DSO, for every larger graph |
| `CtorProtocol.InvStep` | br2-external/package/penglai-sdk/src/musl/ldso/dynlink.c:1372-1500 | every step of any thread in do_init_fini, of a nested dlopen or of the exiting thread keeps the protocol's invariant |
| `CtorProtocol.ClaimFindsDependencies` | br2-external/package/penglai-sdk/src/musl/ldso/dynlink.c:1471-1476 | in a state of the invariant, a thread about to start the constructors of u finds each non-circular dependency constructed or under construction by itself |
| `CtorRuns.RunInv` | br2-external/package/penglai-sdk/src/musl/ldso/dynlink.c:1372-1500 | the invariant holds in every state of every run, for any number of threads and any interleaving |
| `CtorRuns.DependenciesFirst` | br2-external/package/penglai-sdk/src/musl/ldso/dynlink.c:1464-1502 | in every run, when a thread starts the constructors of u, each dependency v of u that does not reach u is constructed, or is being constructed by the same thread - by the graph of that moment and by every later one, whatever is loaded in between |
| `CtorRuns.ConstructorsAtMostOnce` | br2-external/package/penglai-sdk/src/musl/ldso/dynlink.c:1472-1476 | no two steps of a run start the constructors of the same DSO |
| `CtorRuns.FiniListFrozen` | br2-external/package/penglai-sdk/src/musl/ldso/dynlink.c:1378-1385 | once shutting_down is set the fini list and the exiting thread never change |
| `CtorShutdown.ExiterFixed` | br2-external/package/penglai-sdk/src/musl/ldso/dynlink.c:1372-1384 | the thread whose step begins the exit is the exiting one in every later state, and its stack never changes again; nor do the claims and the fini list, and no thread enters a further call |
| `CtorShutdown.UnderConstruction` | br2-external/package/penglai-sdk/src/musl/ldso/dynlink.c:1385-1388 | a DSO that the exiting thread was constructing when it called exit is never constructed and never destroyed, and the exit loop does not wait for it |
| `CtorShutdown.AloneExits` | br2-external/package/penglai-sdk/src/musl/ldso/dynlink.c:1372-1399 | a thread that calls exit while no other thread is inside do_init_fini reaches the end of the fini list |
| `CtorRuns.DestructorsReverseClaims` | br2-external/package/penglai-sdk/src/musl/ldso/dynlink.c:1385-1399 | destructors run in the reverse of the order in which constructors were claimed, never twice, only for constructed DSOs with a fini entry, and for all of them when the loop is through |
| `CtorRuns.DependentsDestroyedFirst` | br2-external/package/penglai-sdk/src/musl/ldso/dynlink.c:1385-1399 | a constructed DSO is destroyed before the dependencies that do not depend on it |
| `CtorProgress.RunOk` | br2-external/package/penglai-sdk/src/musl/ldso/dynlink.c:1464-1502 | in every state of every run, a DSO with a visitor is being constructed in some call on that thread's stack |
| `CtorProgress.ReturnedCall` | br2-external/package/penglai-sdk/src/musl/ldso/dynlink.c:1464-1502 | when a call of do_init_fini returns, every DSO its root depends on is constructed, or under construction in an outer call of the same thread; after an outermost call all of them are constructed |
| `CtorProgress.WorkUnlessDeadlocked` | br2-external/package/penglai-sdk/src/musl/ldso/dynlink.c:1471-1502 | before exit, some thread inside do_init_fini can make a turn if and only if those threads do not all wait for each other |
| `CtorProgress.DeadlockIsNested` | br2-external/package/penglai-sdk/src/musl/ldso/dynlink.c:1472-1473 | a thread that waits and is waited for is inside a dlopen that a constructor has called |
| `CtorProgress.AllReturn` | br2-external/package/penglai-sdk/src/musl/ldso/dynlink.c:1464-1502 | if not two threads are inside such nested calls, then in whatever order turns are made, a further turn can be made until every call has returned |
| `CtorProgress.WorkEnds` | br2-external/package/penglai-sdk/src/musl/ldso/dynlink.c:1471-1502 | in any case only a bounded number of turns can be made without a new call |
| `CtorProgress.TwoNestedDeadlock` | br2-external/package/penglai-sdk/src/musl/ldso/dynlink.c:1472-1473 | two nested calls are enough for a deadlock: a run in which two threads open a DSO each, and the constructors of each open the other |
| `CtorProgress.DeadlockForever` | br2-external/package/penglai-sdk/src/musl/ldso/dynlink.c:1472-1473 | threads that wait for each other do so in every continuation, with their stacks unchanged |
| `CtorReturn.ReturnIff` | br2-external/package/penglai-sdk/src/musl/ldso/dynlink.c:1464-1502 | before exit, all calls of do_init_fini can return if and only if there are no calls that wait for one another: each for one above it on its own stack, or for one above a call of another thread that is constructing a DSO it has yet to look at |
| `CtorReturn.KnotForever` | br2-external/package/penglai-sdk/src/musl/ldso/dynlink.c:1472-1473 | calls that wait for one another go on doing so in every continuation |
| `CtorReturn.KnotIsNested` | br2-external/package/penglai-sdk/src/musl/ldso/dynlink.c:1472-1473 | that takes two threads inside dlopen calls that constructors have made |
| `CtorExit.ExitEndsIff` | br2-external/package/penglai-sdk/src/musl/ldso/dynlink.c:1385-1388 | once exit has begun, its loop can reach the end of the fini list if and only if no DSO left on it is being constructed by another thread below a nested call that has more of its queue to look at |
| `CtorExit.BlockedForever` | br2-external/package/penglai-sdk/src/musl/ldso/dynlink.c:1386-1387 | and if there is such a DSO, it is so in every continuation: the loop waits for ever |
| `GnuHash.Hash` | br2-external/package/penglai-sdk/src/musl/ldso/dynlink.c:223-230 | the wrapped 32-bit accumulation is the value modulo 2^32 of the polynomial in 33 with start value 5381 |
| `GnuHash.Lookup` | br2-external/package/penglai-sdk/src/musl/ldso/dynlink.c:246-265 | on a well-formed table the bucket walk returns an index if and only if some hashed symbol has that name and a version that is not negative (hidden), and then the lowest such index: what a linear scan returns |
| `GnuHash.WalkBucket` | br2-external/package/penglai-sdk/src/musl/ldso/dynlink.c:250-264 | the chain loop stays inside the table and ends, for any hash and any assignment of names to buckets |
| `GnuHash.LookupFiltered` | br2-external/package/penglai-sdk/src/musl/ldso/dynlink.c:267-277 | the Bloom-filtered lookup returns what the linear scan returns: the filter never rejects a name that is present |
| `GnuHash.FilterIndex` | br2-external/package/penglai-sdk/src/musl/ldso/dynlink.c:270 | masking with the filter size less one is reduction modulo the size, so the Bloom word is inside the table |
| `Bits.AndIsAnd` | br2-external/package/penglai-sdk/src/musl/ldso/dynlink.c:30-31 | the bitwise conjunction of natural numbers has the one law that all mask arguments use: it works bit by bit |
| `Words.MaxP2IsMax` | br2-external/package/penglai-sdk/src/musl/ldso/dynlink.c:30 | the negate-and-negate macro is the maximum of two powers of two, at any word width |
| `Words.LowMask` | br2-external/package/penglai-sdk/src/musl/ldso/dynlink.c:1140-1146 | masking a wrapped difference with an alignment less one is reduction of the true difference modulo the alignment |
| `Tls.TlsArea.StartApp` | br2-external/package/penglai-sdk/src/musl/ldso/dynlink.c:1806-1820 | the main program's module gets the offset that loading a first module would give, and the layout invariant holds |
| `Tls.TlsArea.Load` | br2-external/package/penglai-sdk/src/musl/ldso/dynlink.c:1136-1155 | every load, in both TLS layouts, keeps all blocks pairwise disjoint and congruent to their images, appends the new module, takes the larger alignment, and wastes less than one alignment |
| `Tls.LoadKeepsLayout` | br2-external/package/penglai-sdk/src/musl/ldso/dynlink.c:1138-1148 | the offset computations of both layouts preserve the layout invariant |
| `Tls.AppIsFirstLoad` | br2-external/package/penglai-sdk/src/musl/ldso/dynlink.c:1809-1818 | the start-up formulas agree with the loading formulas from an empty area |
| `Tls.BlocksOfThread` | br2-external/package/penglai-sdk/src/musl/ldso/dynlink.c:1138-1148 | for every thread pointer aligned to tls_align, each block starts congruent to its image modulo its alignment, all blocks lie next to the thread pointer, and no two share a byte |
| `TlsCopies.CopyTls` | br2-external/package/penglai-sdk/src/musl/src/env/__init_tls.c:39-72 | in an area of the size update_tls_size computes, the thread pointer is aligned, and vector, thread structure and all TLS blocks fit without overlap, in both layouts; the vector holds the address of each block, each block holds its image, and no byte outside the blocks' area changes |
| `TlsCopies.AlignIsRoundUp` | br2-external/package/penglai-sdk/src/musl/ldso/dynlink.c:31 | the alignment macro rounds up by less than the alignment |
| `TlsCopies.Reserve` | br2-external/package/penglai-sdk/src/musl/ldso/dynlink.c:1114-1151 | the bytes allocated with a DSO hold its name, then a vector with one slot more than there are modules for every thread counted at that time, then an aligned copy for every one of them |
| `TlsInstall.InstallNewTls` | br2-external/package/penglai-sdk/src/musl/ldso/dynlink.c:1534-1568 | for as many threads as are left of those counted when each module was loaded: every thread's new vector keeps its old slots and gains, for each module loaded since, the aligned address of the thread's own copy; every vector lies in the provider's reservation and every copy in its module's; in the end all copies hold their images, and no byte outside the blocks reserved for them has changed; the walk over the DSO list stays inside it |
| `TlsInstall.CopiesApart` | br2-external/package/penglai-sdk/src/musl/ldso/dynlink.c:1555-1565 | copies of different modules or for different threads share no byte, also when the modules were loaded with different numbers of threads |
| `TlsCopies.CopyInReservation` | br2-external/package/penglai-sdk/src/musl/ldso/dynlink.c:1553-1566 | thread j's copy is congruent to the image and lies in slice j of the reservation, so copies never overlap and never leave the allocation |
| `TlsCopies.RowInReservation` | br2-external/package/penglai-sdk/src/musl/ldso/dynlink.c:1546-1551 | thread j's new vector lies in the reservation before the copies |
| `LazyRelocs.DoRelocs` | br2-external/package/penglai-sdk/src/musl/ldso/dynlink.c:349-504 | in terms of each entry's type and of what is known of its symbol: the pass succeeds if and only if every entry but REL_NONE whose symbol is missing may be deferred and the DSO has a table, and every one whose symbol is there has a type the architecture knows and no dynamic TLS definition for a static-TLS relocation; then it applies exactly the entries whose symbol is there, in order, and appends exactly those whose symbol is missing, in order - also when it reads that very table |
| `LazyRelocs.CapacitySuffices` | br2-external/package/penglai-sdk/src/musl/ldso/dynlink.c:1961-1967 | the capacity computed from the three table sizes exceeds the number of entries in them |
| `LazyRelocs.RelocDso` | br2-external/package/penglai-sdk/src/musl/ldso/dynlink.c:1317-1328 | the same for the three passes in their order: the entries applied and the entries left in the table partition those of the three tables, all entries left are deferrable, and the capacity is never exceeded |
| `LazyPrepare.PrepareLazy` | br2-external/package/penglai-sdk/src/musl/ldso/dynlink.c:1954-1974 | a DSO that binds at once is left alone; any other gets a table of its own with the capacity, and becomes the head, linked to the old head - to itself when it was that |
| `LazyPrepare.PrepareDeps` | br2-external/package/penglai-sdk/src/musl/ldso/dynlink.c:2053-2058 | the list after dlopen's loop is the prepared DSOs, last one first, and then the old list, if and only if the DSO, when it is to be prepared, is not among its own dependencies and no DSO to be prepared is a direct dependency twice; otherwise the links never end and every DSO of the old list is lost |
| `LazyPrepare.PreparedOnce` | br2-external/package/penglai-sdk/src/musl/ldso/dynlink.c:2053-2058 | that condition on the graph is what makes the loop prepare no DSO twice |
| `LazyPrepare.CycleLosesList` | br2-external/package/penglai-sdk/src/musl/ldso/dynlink.c:2053-2058 | where it fails: on a cycle of p and q with an older x on the list, p, q and p are prepared, and x is lost |
| `LazyPrepare.RepeatLosesList` | br2-external/package/penglai-sdk/src/musl/ldso/dynlink.c:2053-2058 | where it fails: on a p that lists q twice, with an older x, p, q and q are prepared, and both p and x are lost |
| `LazyPrepare.WaitingOf` | br2-external/package/penglai-sdk/src/musl/ldso/dynlink.c:1966-1971 | the tables that prepare_lazy makes are all different, which is what redo_lazy_relocs needs of them |
| `LazyList.PushAllExact` | br2-external/package/penglai-sdk/src/musl/ldso/dynlink.c:1972-1973 | pushing DSOs that are not on a list puts them all in front of it if and only if none is pushed twice; if one is, nothing of the old list can be reached |
| `LazyList.LassoUnique` | br2-external/package/penglai-sdk/src/musl/ldso/dynlink.c:508-511 | a head and the links determine what is on a list and where it runs into a cycle |
| `LazyRedo.RedoLazyRelocs` | br2-external/package/penglai-sdk/src/musl/ldso/dynlink.c:506-524 | for any list, with or without a cycle, and with each DSO's own symbols: the walk ends; each table is compacted in place to exactly the entries still missing, in order; every other entry of it has been applied, in order and once; the list afterwards holds exactly the DSOs that have any left, and the others have no table; it has a cycle again exactly when the old one had one that began at a DSO that is kept |
| `LazyList.KeptExactly` | br2-external/package/penglai-sdk/src/musl/ldso/dynlink.c:515-522 | the relinked list has every DSO with entries left once, last one first, and no other |
| `LazyRelocs.NeverStops` | br2-external/package/penglai-sdk/src/musl/ldso/dynlink.c:512-514 | a pass over a table of deferrable entries cannot take an error path, so redoing them never abandons dlopen half-way |
| `LazyRelocs.DeferredIsDeferrable` | br2-external/package/penglai-sdk/src/musl/ldso/dynlink.c:376-390 | what a pass defers is of a deferrable type, so it stays so for every later state of the symbols |
| `Dlopen.Rtld.AddToSyms` | br2-external/package/penglai-sdk/src/musl/ldso/dynlink.c:1277-1283 | the symbol chain stays acyclic and without repeats, and gains the DSO exactly when it was not on it |
| `Dlopen.OnListIff` | br2-external/package/penglai-sdk/src/musl/ldso/dynlink.c:1279 | a DSO is on the chain exactly when syms_next is set or it is syms_tail |
| `Dlopen.Rtld.RevertSyms` | br2-external/package/penglai-sdk/src/musl/ldso/dynlink.c:1285-1295 | the chain is cut right after the given DSO, and the DSOs cut off have no link |
| `Dlopen.Rtld.Rollback` | br2-external/package/penglai-sdk/src/musl/ldso/dynlink.c:2007-2036 | whatever sequence of loads, lazy preparations and chain additions happened, the failure branch restores the complete linker state: DSO list, symbol chain, TLS list, its counters and the lazy list |
| `Dlopen.Rtld.DlOpen` | br2-external/package/penglai-sdk/src/musl/ldso/dynlink.c:1976-2074 | a failed or refused dlopen leaves the complete state as it was; a successful one takes the DSO list, the TLS list with its offset and alignment, and the list of prepared DSOs to what its loads, preparations and additions come to; with RTLD_GLOBAL the symbol chain too, and without it the chain is as it was; the lazy list, before deferred entries are redone, continues with the old one if and only if no DSO was prepared twice, and otherwise has lost all of it |
| `Effects.TailCounts` | br2-external/package/penglai-sdk/src/musl/ldso/dynlink.c:2037-2048 | every load adds one DSO, and nothing else does |
| `Effects.TlsLaw` | br2-external/package/penglai-sdk/src/musl/ldso/dynlink.c:1136-1155 | each load with TLS, and nothing else, appends its DSO to the TLS list |
| `Effects.PreparedLaw` | br2-external/package/penglai-sdk/src/musl/ldso/dynlink.c:2053-2058 | each preparation of a DSO that this dlopen has loaded appends it, and nothing else does |
| `Effects.ChainLaw` | br2-external/package/penglai-sdk/src/musl/ldso/dynlink.c:2059-2065 | the chain grows by exactly the DSOs added that were not on it, once each |
| `Effects.ChainOrder` | br2-external/package/penglai-sdk/src/musl/ldso/dynlink.c:1277-1283 | those DSOs are on the chain in the order in which they were first added |
| `Dlopen.LinksDetermined` | br2-external/package/penglai-sdk/src/musl/ldso/dynlink.c:1285-1295 | the links of a list are determined by its members, so cutting the chain back restores every link |
| `Sv39.LeafDecodes` | br2-external/package/penglai-driver/src/penglai-enclave-page.c:60-88 | a leaf entry made by the driver decodes, as Sv39 does, to the page number and flags put in |
| `Sv39.PtdDecodes` | br2-external/package/penglai-driver/src/penglai-enclave-page.c:60-73 | a descriptor entry decodes to the table's page number |
| `Sv39.DecodeFaults` | br2-external/package/penglai-driver/src/penglai-enclave-page.c:109-134 | the walk that the driver's tables are judged by is that of the standard: exactly invalid, reserved, misaligned or last-level table entries fault |
| `Sv39.VpnOfBits` | br2-external/package/penglai-driver/src/penglai-enclave-page.c:90-95 | the three table indices hold bits 12 to 38 of an address and nothing else |
| `EnclaveMems.EnclaveMem.constructor` | br2-external/package/penglai-driver/src/penglai-enclave-page.c:173-186 | on a zeroed pool: root table and reserved page taken, an empty page table, and the free list the ascending run of the other pages |
| `EnclaveMems.EnclaveMem.GetFreeMem` | br2-external/package/penglai-driver/src/penglai-enclave-page.c:3-21 | the page taken from the list is always the one right above the used pages, and 0 exactly when none is left |
| `EnclaveMems.EnclaveMem.InitFreeMem` | br2-external/package/penglai-driver/src/penglai-enclave-page.c:32-44 | the queue is the ascending run of all pool pages |
| `EnclaveMems.EnclaveMem.CreatePtdPage` | br2-external/package/penglai-driver/src/penglai-enclave-page.c:97-107 | linking a fresh table into the tree changes no translation and no data page |
| `EnclaveMems.EnclaveMem.WalkEnclavePt` | br2-external/package/penglai-driver/src/penglai-enclave-page.c:109-134 | the walk finds v's last-level entry, creating exactly the missing tables, at most two; it returns NULL exactly when the pool has fewer pages than that; no translation changes |
| `EnclaveMems.EnclaveMem.MapPage` | br2-external/package/penglai-driver/src/penglai-enclave-page.c:155-171 | afterwards the Sv39 walk over the bytes of the pool is the old abstract page table updated at v; tables are shared with nothing and no data page changes |
| `EnclaveMems.EnclaveMem.MapVa2Pa` | br2-external/package/penglai-driver/src/penglai-enclave-page.c:165-171 | mapping a page outside the pool is a map update at v and nowhere else |
| `EnclaveMems.EnclaveMem.EnclaveAllocPage` | br2-external/package/penglai-driver/src/penglai-enclave-page.c:155-163 | takes one data page, the next free one, all zero, plus the missing tables, and maps it at v and nowhere else, so that no pool page is ever mapped twice; every other address translates as before and no data page's contents change |
| `EnclaveMems.ExclusiveMeans` | br2-external/package/penglai-driver/src/penglai-enclave-page.c:155-163 | what every operation keeps: two virtual pages never share a page of the pool |
| `EnclaveMems.EnclaveMem.ClearEnclavePt` | br2-external/package/penglai-driver/src/penglai-enclave-page.c:136-153 | removes v from the abstract page table and nothing else; 0 exactly when a table on the way is missing |
| `EnclaveMems.EnclaveMem.HandOffFreeMem` | br2-external/package/penglai-driver/src/penglai-enclave-ioctl.c:160-165 | the one address handed to the monitor separates used from unused pages, and every mapped pool page lies below it |
| `EnclaveMems.WordsTranslate` | br2-external/package/penglai-driver/src/penglai-enclave-page.c:109-134 | the hardware walk over the pool's bytes is the walk over its words |
| `PageTree.WalkShape` | br2-external/package/penglai-driver/src/penglai-enclave-page.c:109-134 | in a tree with owners, the three entries a walk reads are empty, or lead to the table that belongs to exactly that path |
| `PageTree.AddTableWalk` | br2-external/package/penglai-driver/src/penglai-enclave-page.c:97-107 | a new empty table changes the walk of no address |
| `PageTree.SetLeafWalk` | br2-external/package/penglai-driver/src/penglai-enclave-page.c:160-169 | storing a last-level entry changes the walk of its own page and of no other |
| `PageTree.MappedPagesAreData` | br2-external/package/penglai-driver/src/penglai-enclave-page.c:155-163 | no mapped page is a table page |
| `Loader.LoadProgram` | br2-external/package/penglai-driver/src/penglai-enclave-elfloader.c:24-41 | on a page-aligned segment, reading each address through the built page table in user mode gives the file's byte, and zero after it up to the end of the last page; code in user mode may fetch from, read and write every page of the range, every address outside the segment's pages reads as before, and three free pages per page are enough to succeed |
| `Loader.LoadNobits` | br2-external/package/penglai-driver/src/penglai-enclave-elfloader.c:3-18 | the section's range reads as zero through the page table, its pages may be fetched from, read and written in user mode, and every other address reads as before |
| `Loader.LoadRange` | br2-external/package/penglai-driver/src/penglai-enclave-elfloader.c:24-41 | the loop maps exactly the pages of the range, each to a data page of its own, no two the same |
| `Loader.MapStack` | br2-external/package/penglai-driver/src/penglai-enclave-elfloader.c:180-183 | every stack page is mapped to a data page of its own, no two the same, which reads as zero and which code in user mode may read and write but not execute; earlier data is unchanged |
| `Loader.MapShared` | br2-external/package/penglai-driver/src/penglai-enclave-elfloader.c:194-215 | consecutive virtual pages are mapped to consecutive physical pages outside the pool, which code in user mode may read and write but not execute; nothing else changes |
| `Loader.FlagsAllow` | br2-external/package/penglai-driver/src/penglai-enclave-page.h:30-33 | the driver's flag constants give user code exactly those rights by the permission rules of Sv39 |
| `Feistel.OutputInverts` | br2-external/package/penglai-sdk/src/lib/gm/source/SM4.c:108-128 | running an unbalanced Feistel network with reversed keys on the reversed output gives the input back, for any round function that undoes itself |
| `Sm4Code.KeySchedule` | br2-external/package/penglai-sdk/src/lib/gm/source/SM4.c:63-83 | the loop computes the 32 round keys of the same network on the masked key |
| `Sm4Code.Crypt` | br2-external/package/penglai-sdk/src/lib/gm/source/SM4.c:101-177 | the code computes the block function of section 7 of GB/T 32907-2016 in either direction, also when input and output are the same buffer |
| `Sm4.RoundsAre` | br2-external/package/penglai-sdk/src/lib/gm/source/SM4.c:71-79 | the rounds change the oldest word by the linear map of the S-box outputs of the sum of the other three and the round key |
| `Sm4.LinearRotates` | br2-external/package/penglai-sdk/src/lib/gm/source/SM4.c:78-120 | the linear maps of section 6.2 of GB/T 32907-2016 are sums of rotations by 2, 10, 18 and 24, and by 13 and 23 |
| `Sm4.ConstantsAreCk` | br2-external/package/penglai-sdk/src/lib/gm/source/SM4.c:17-25 | byte j of CK_i is 7(4i + j) modulo 256 |
| `Sm4.DecryptInvertsEncrypt` | br2-external/package/penglai-sdk/src/lib/gm/source/SM4.c:101-177 | decryption inverts encryption for every key, block and S-box |
| `Cbc.Encrypt` | br2-external/package/penglai-sdk/src/lib/gm/source/SM4_Enc.c:35-72 | 0 when the buffer is too small, else the chained blocks of the zero-padded message and their length; message, initial vector and ciphertext may be one buffer |
| `Cbc.Decrypt` | br2-external/package/penglai-sdk/src/lib/gm/source/SM4_Enc.c:86-127 | as much of the plaintext as the buffer holds, and its length; 0 for a ciphertext that is not whole blocks; ciphertext, initial vector and plaintext may be one buffer |
| `Cbc.CbcRoundTrip` | br2-external/package/penglai-sdk/src/lib/gm/source/SM4_Enc.c:35-127 | given the original length, decryption recovers a message of any length, for every cipher with an inverse |
| `Cbc.Sm4CbcRoundTrip` | br2-external/package/penglai-sdk/src/lib/gm/source/SM4_Enc.c:35-127 | the same with SM4, for every key, initial vector and S-box |
| `Ocb.DoubleIsFieldDoubling` | br2-external/package/penglai-sdk/src/lib/gm/source/SM4_Enc.c:129-141 | bit by bit, the doubling of section 2 of RFC 7253: a shift, and 135 added when the first bit was one |
| `Ocb.ShiftedIsWindow` | br2-external/package/penglai-sdk/src/lib/gm/source/SM4_Enc.c:238-241 | bit by bit, the byte loop yields the window of the stretched nonce of section 4.2 of RFC 7253 |
| `OcbCode.DoubleArr` | br2-external/package/penglai-sdk/src/lib/gm/source/SM4_Enc.c:129-141 | the in-place loop is that doubling of one row, and changes nothing else |
| `OcbCode.BuildTable` | br2-external/package/penglai-sdk/src/lib/gm/source/SM4_Enc.c:206-224 | the table rows are L_0, L_1 and so on, with L_* and L_$ beside them |
| `OcbCode.InitOffset` | br2-external/package/penglai-sdk/src/lib/gm/source/SM4_Enc.c:225-241 | the offset buffer holds Offset_0 of section 4.2 for every nonce of at most 15 bytes |
| `Ocb.NtzOf` | br2-external/package/penglai-sdk/src/lib/gm/source/SM4_Enc.c:19 | the count used as a table index is the exponent of two in the block number: z exactly when the number is 2^z times an odd number |
| `Ocb.OffsetRecurs` | br2-external/package/penglai-sdk/src/lib/gm/source/SM4_Enc.c:244-246 | so Offset_i is Offset_(i-1) xor L_z for the z with i = 2^z times an odd number, as section 4.2 of RFC 7253 has it |
| `Ocb.Log2Is` | br2-external/package/penglai-sdk/src/lib/gm/source/SM4_Enc.c:20 | the other count is the exponent of the largest power of two within the number |
| `OcbModes.RowsSuffice` | br2-external/package/penglai-sdk/src/lib/gm/source/SM4_Enc.c:203-206 | the table has a row exactly when message or associated data has a full block, and then it has every row that either block loop uses |
| `OcbCode.TableServes` | br2-external/package/penglai-sdk/src/lib/gm/source/SM4_Enc.c:244-246 | each table row used for m blocks exists, and the running offset is Offset_i |
| `OcbCode.HashData` | br2-external/package/penglai-sdk/src/lib/gm/source/SM4_Enc.c:149-184 | HASH of section 4.1, its partial block included |
| `OcbModes.Encrypt` | br2-external/package/penglai-sdk/src/lib/gm/source/SM4_Enc.c:199-278 | writes the ciphertext and tag of section 4.2 of RFC 7253 with SM4 as the cipher, and nothing beyond them |
| `OcbModes.Decrypt` | br2-external/package/penglai-sdk/src/lib/gm/source/SM4_Enc.c:295-381 | writes the plaintext of section 4.3, and returns 0 exactly when the stored tag equals the recomputed one |
| `OcbModes.OcbRoundTrip` | br2-external/package/penglai-sdk/src/lib/gm/source/SM4_Enc.c:199-381 | for every key, nonce, message and associated data, decrypting the encryption yields the message, and the tags agree |
| `OcbModes.EncryptThenDecrypt` | br2-external/package/penglai-sdk/src/lib/gm/source/SM4_Enc.c:199-381 | the two functions one after the other: the result is 0 and the message comes back, its partial last block included |
| `Ocb.OpenSeal` | br2-external/package/penglai-sdk/src/lib/gm/source/SM4_Enc.c:243-266 | the offset-masked blocks and the padded tail come back, for any offsets |
| `Streams.PaddedBlocks` | br2-external/package/penglai-sdk/src/lib/gm/source/SM3.c:299-334 | the blocks that the end of a message adds, one or two, are the rest of the padded message, for any block size and length field |
| `Streams.ZeroCountLeast` | br2-external/package/penglai-sdk/src/lib/gm/source/SM3.c:299-322 | the padding has as few zero bytes as fill a block |
| `Streams.BigEndianValue` | br2-external/package/penglai-sdk/src/lib/gm/source/SM3.c:324-332 | the length field is the number of bits in base 256, the most significant byte first |
| `Streams.FedEnd` | br2-external/package/penglai-sdk/src/lib/gm/source/SM3.c:291-334 | compressing the last blocks from the running state is folding over the whole padded message |
| `Sm3.RunningTIsTj` | br2-external/package/penglai-sdk/src/lib/gm/source/SM3.c:107-116 | the constant carried from round to round is T_j rotated by j mod 32, across the change of constant and the wrap-around |
| `Sm3Words.Words32Turn` | br2-external/package/penglai-sdk/src/lib/gm/source/SM3.c:110-115 | sixteen single rotations are the rotation by sixteen, and thirty-two change nothing |
| `Sm3Words.RotationsRotate` | br2-external/package/penglai-sdk/src/lib/gm/include/SM3.h:41-47 | each rotation of the 32-bit words is by the number of places that the standard gives |
| `Sm3Words.ChChooses` | br2-external/package/penglai-sdk/src/lib/gm/include/SM3.h:45-46 | GG takes a bit from the second word where the first has a one, and else from the third |
| `Sm3Words.MajOnes` | br2-external/package/penglai-sdk/src/lib/gm/include/SM3.h:43-44 | FF has a one where two of the three words have; `MajZeros` and `MajTurns` say the same of zeros and of every two of them |
| `Sm3Code.Cf` | br2-external/package/penglai-sdk/src/lib/gm/source/SM3.c:85-170 | the round loop is the 64 rounds of section 5.3 of GM/T 0004-2012 |
| `Sm3Code.CompressBlock` | br2-external/package/penglai-sdk/src/lib/gm/source/SM3.c:238-249 | the compression function of the block, whatever the in-place byte swap leaves in the buffer |
| `Sm3Code.Sm3State.Process` | br2-external/package/penglai-sdk/src/lib/gm/source/SM3.c:263-279 | whatever was fed before, the state after the call is that of the longer message |
| `Sm3Code.Sm3State.Done` | br2-external/package/penglai-sdk/src/lib/gm/source/SM3.c:291-339 | the digest of everything fed, the extra-block case included |
| `Sm3Code.Sm3Pieces` | br2-external/package/penglai-sdk/src/lib/gm/source/SM3.c:212-339 | for every split of a message into pieces, the digest is the compression function folded over the padded message of section 5.2 |
| `Sha512Code.RingStep` | br2-external/package/penglai-sdk/src/demo/crypt/crypt.c:110-115 | the sixteen-word ring always holds the last sixteen words of the schedule, and its update is the recurrence of section 6.4.2 of FIPS 180-4 |
| `Sha512Words.FormsAgree` | br2-external/package/penglai-sdk/src/demo/crypt/crypt.c:81-115 | the code's forms of Ch, Maj and the sums are those of the standard |
| `Sha512Words.SumsRotate` | br2-external/package/penglai-sdk/src/demo/crypt/crypt.c:61-71 | the two sums are those of the three rotations of section 4.1.3 of FIPS 180-4 |
| `Sha512Words.SigmasRotate` | br2-external/package/penglai-sdk/src/demo/crypt/crypt.c:73-79 | and the small sigmas of two rotations and a shift |
| `Sha512.ConstantsAreRoots` | br2-external/package/penglai-sdk/src/demo/crypt/crypt.c:37-59 | each constant of the rounds is the first 64 bits of the fraction of the cube root of its prime |
| `Sha512.IvIsRoots` | br2-external/package/penglai-sdk/src/demo/crypt/crypt.c:31-35 | each word of the initial hash value is the first 64 bits of the fraction of the square root of its prime |
| `Sha512Code.ProcessBlock` | br2-external/package/penglai-sdk/src/demo/crypt/crypt.c:89-132 | the compression function of section 6.4.2: 80 words, 80 rounds, and the sum with the hash value |
| `Sha512Code.Sha512Ctx.Update` | br2-external/package/penglai-sdk/src/demo/crypt/crypt.c:141-161 | for any chunking, the context after the call is that of the longer message |
| `Sha512Code.Sha512Ctx.Final` | br2-external/package/penglai-sdk/src/demo/crypt/crypt.c:163-183 | the digest with the padding of section 5.1.2, and a context ready for a new message |
| `Sha512Code.Sha512Pieces` | br2-external/package/penglai-sdk/src/demo/crypt/crypt.c:134-183 | for every split of a message into pieces, the digest is the one of the whole message |

## Left out

Assumptions of the model:
- In the linker, allocation succeeds; the build is neither FDPIC nor MIPS; `GAP_ABOVE_TP` is 0, as on riscv64; TLS
  alignments are powers of two; TLS sizes and addresses do not overflow the address space.
- A comment in `queue_ctors` says that a DSO is not in its own dependency list. On a cycle the code does list it. The
  model follows the code, and the bound on the slots holds either way.
- The byte sizes of relocation tables are whole numbers of entries.
- Hash tables are well-formed: symbols sorted by bucket, end bits, first indices and Bloom bits as the format has them.
  Names are strings already looked up in the string table.
- The free pool starts zeroed, since `create_ptd_page` does not clear pages. Where the code would go on with a null
  entry pointer because the pool is exhausted, the model's result says `ok == false`. `__pa` and `__va` are a constant
  offset.
- Segments and sections are page-aligned; the loader copies to the start of a page.
- OCB: a nonce of at most 15 bytes, at least one full block in message or associated data (`OcbModes.RowsSuffice` shows
  that the table is empty otherwise), and an output buffer apart from message, key and associated data.
- SM3: a message of less than 2^32 bits. SHA-512: less than 2^56 bytes, as the code asserts.

Not modelled:
- Dlopen: DSO nodes are their places in the order of loading and links are sequences indexed by them, so aliasing
  between node pointers is not part of that model. The re-examination of deferred relocations after a commit is
  `LazyRedo`.
- CtorExit.ExitEndsIff: says when the loop can reach its end, given that the other threads go on. That they are
  scheduled fairly, and that constructors return, is not part of the model.
- EnclaveMems.EnclaveMem.WalkEnclavePt: models the walk with `create` set, the only way it is called; a virtual address
  is its three table indices, which `Sv39.GetPtIndices` computes.
- Between load_library and install_new_tls threads may exit, but none is created, since dlopen holds off
  `pthread_create`.
- The vectors of thread-local storage are values with an address; their bytes are not part of the modelled memory, and
  image bytes are values too. That reservations of different DSOs are different memory is an assumption about `calloc`.
- Loader.LoadProgram: does not model a failing `copy_from_user`.
- Symbol lookup across DSOs, SysV hash tables, relocation arithmetic and path search: what they return is a parameter of
  the model. File mapping and the start-up of the dynamic linker, which are system calls and straight-line code.
- The kernel driver's ioctl layer, locks and SBI calls beyond the one address handed over; the fixed page budget.
- The output conversion at the end of SM3 and SHA-512 is modelled as the big-endian bytes of the hash value, not as the
  copy and swap.
- AES, SM2, the random generator, sealing, printing, the memory-map shim and the host libraries.
