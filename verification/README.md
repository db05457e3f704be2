# XposedKit: a Dafny model

XposedKit gives Android modules one hooking interface over two frameworks, LSPosed (libxposed) and
Xposed, with a reflection helper, and carries xDL, a native library that finds symbols in loaded ELF
files. This project models the parts of both in which fast or stateful code has to agree with something
simpler, and proves that it does.

Run `dafny verify dfyconfig.toml` with Dafny 4.11.

## What is modelled

**xDL.** `SymbolTable` holds the loaded sections of one ELF file and the linear scans that everything is
measured against. `GnuHashLookup`, `SysvHash` and `SysvHashLookup` are the two indexed name lookups,
`SymbolSearch` the searches by name and by address built on them, `Words` the bit arithmetic they need
(words are naturals, bits are defined one by one, and wrapping at 32 bits or at the machine word is
written out). `LoadOnce` is the double-checked guard as a step machine for any number of threads.
`ModuleIteration` enumerates modules, `AddrCache` is `xdl_addr4` with its linked list of handles,
`CallerSelection` the choice of caller addresses and `LzmaBuffer` the growing output buffer.

**Hooks.** `Priority` is the arithmetic on priorities, `HookIdentifier` the printed ids, `InterceptChain`
LSPosed's nested interceptors, `XposedRegistry` the lists of the Xposed backend and `XposedRuns` its runs,
`BackendOrder` the comparison of the two backends, `HotReload` the reload protocol of LSPosed.

**Deferred values.** `DeferredCell` has the critical sections of `DeferredValue` as a class; the module
`DeferredValue` interleaves any number of setters, `whenInitialize` and `await` calls over them.

**Reflection.** `Descriptor` has JVM types, their names and descriptors; `MethodSearch` the walks up the
superclass chain; `ReflectCache` the string-keyed cache in front of them.

Code that changes things step by step is modelled by methods and classes, proved against functions; the
theorems are about those functions, or about runs of them. Interleavings are sequences of steps chosen by
a schedule.

## What the code does not do

These are properties one would expect that are false of the code. Each has a concrete counterexample and
the exact condition under which the property holds.

- A hot reload is not always equivalent to a fresh load. `hookClassInitializer` takes the last old handle
  of a class's initializer whatever its priority (`LSPosed.kt:161-172`), so an initializer that was hooked
  through plain `hook` at a priority other than the default keeps that priority. Counterexample:
  `HotReload.OddModuleReloadsDifferently`. Reload and fresh load agree for every module if and only if the
  old hooks on class initializers have the default priority: `HotReload.ReloadEqualsFreshLoad`.
- With a SYSV section alone, `xdl_sym` gives up on a name whose first symbol on the chain is an import,
  even when a later one is defined (`xdl.c:776-780`). Counterexample: `SysvExample.ImportHidesDefinition`.
  Condition: `SymbolSearch.SysvAloneResolves`.
- A stale unhook on the Xposed backend breaks the registry: the closure drops the member whenever its own
  list is empty, even if the member has been registered anew since (`Xposed.kt:140-147`). Counterexample:
  `XposedRuns.StaleUnhook`. The registry stays valid if and only if the closure's target is current or the
  member is not registered: `XposedRegistry.Registry.Unhook`. Runs that call each unhook while its handle
  is listed never get there: `XposedRuns.Perform`.
- Override elimination can lose an overload. The search keeps signatures as strings (`Reflect.kt:276-293`),
  and a class in the default package called `int` (or like any other primitive) has the primitive's name: of
  m(int) and m of that class, `methods("m")` keeps the first only, and `method("m")` yields it although there
  are two. Counterexample: `MethodSearch.OverloadIsLost`. The search eliminates overrides and nothing else if
  and only if no two matches have one string without the same name and parameter types:
  `MethodSearch.StringsSuffice`; which have: `MethodSearch.OneStringExactly`. The same for `method(name)`:
  `MethodSearch.NamedMeetsPromise`. Names that Java source can write are safe:
  `MethodSearch.JavaDeclarationsSuffice`.
- Two methods whose types have the same names need not share a descriptor: `int` and the class called `int`
  have one name and two descriptors. Counterexample: `Descriptor.IntAndClassInt`. Condition:
  `Descriptor.SharedDescriptor`. Names that Java source can write are safe:
  `Descriptor.JavaTypesNeverConfusable`.
- The method cache can return a method that the uncached search would not, for the same classes, and for
  one called `null`, whose name stands for any parameter. Counterexamples, each a run of two calls on a
  concrete class: `ReflectCache.ClassCalledInt`, `ReflectCache.ClassCalledNull`. Every sequence of calls
  from a given set is answered right if and only if those of them that collide have the same answer:
  `ReflectCache.RightExactlyWhen`; and right whatever the classes are if and only if no two different ones
  collide: `ReflectCache.RightOnEveryChainExactlyWhen`. Exactly which calls collide:
  `ReflectCache.KeysCollideExactly` (for method names with an opening parenthesis nothing is said). The
  other collisions named there need a comma or a `*` in a class name, which class files allow and Android
  rejects (`ReflectCache.IllegalNamesCollide`). Names that Java source can write never collide:
  `ReflectCache.KeysNeverCollide`, `ReflectCache.JavaCallsAreRight`.

Two more limits are by design. Normalisation gives all priorities between -PRIORITY_DEFAULT and
PRIORITY_DEFAULT one framework priority, and negation merges Int.MIN_VALUE with its successor; LSPosed
orders hooks that merge by its own rules (`Priority.FrameworkOrder`). And a guard that uses its cell's own
value as the sentinel runs its loader once if and only if the loader never yields the sentinel
(`LoadOnce.LoadsOnceExactlyWhen`); the API level is clamped so that it never does, and the page size is
never 0 (`LoadOnce.GuardsOfXdl`).

## Assumptions

- GNU hash tables are as linkers lay them out (`GnuHashLookup.WellFormed`, with a witness in
  `GnuHashExample`); SYSV chains end and stay in range (`SysvHashLookup.ChainsOk`, with a table in
  `SysvExample`); string tables end in a terminator. A malformed table is outside the promises of the code.
- Modules are told apart by their addresses (`AddrCache.Disjoint`), and the set of loaded modules does not
  change between calls on one cache.
- The framework behind LSPosed keeps every hook, runs higher priorities outermost, keeps executable,
  priority and id in `replaceHook`, gives a hook built without a priority the default one, and its
  PRIORITY_DEFAULT is non-negative. The original method is an arbitrary function of what ran before it
  and its arguments.
- The LZMA decoder writes the front of what is still to come, fills its room when it reports that it is
  not finished (which it does not do with neither room nor input), and has nothing left when it is finished
  (`LzmaBuffer.WellBehaved`, with an instance).
- Classes are determined by their names.

## Model

| member | source | states |
|---|---|---|
| CStrings.EqualAt | native/src/main/cpp/external/xdl/xdl.c:663 | comparing with a name inside the string table stays in bounds when the table ends in a terminator, and holds exactly when the C string at that offset is the key |
| CStrings.StartsWith | native/src/main/cpp/external/xdl/xdl_util.c:37-44 | true exactly when the second string is a prefix of the first |
| CStrings.EndsWith | native/src/main/cpp/external/xdl/xdl_util.c:46-53 | true exactly when the second string is a suffix of the first |
| GnuHashLookup.GnuStepIsTimes33 | native/src/main/cpp/external/xdl/xdl.c:622-624 | shift and two wrapping 32-bit additions amount to 33 h + c modulo 2^32 |
| GnuHashLookup.ComputeGnuHash | native/src/main/cpp/external/xdl/xdl.c:619-626 | the loop computes Bernstein's hash of the name modulo 2^32 |
| GnuHashLookup.GnuHashIs | native/src/main/cpp/external/xdl/xdl.c:619-626 | 5381 for the empty name, and a byte more makes 33 h + c modulo 2^32 of it |
| Words.MaskTest | native/src/main/cpp/external/xdl/xdl.c:646-651 | `(word & mask) == mask` holds exactly when the word has both mask bits |
| GnuHashLookup.BloomAdmitsPresent | native/src/main/cpp/external/xdl/xdl.c:645-651 | the Bloom word never rejects the hash of a symbol that is in the table |
| GnuHashLookup.TestSymbol | native/src/main/cpp/external/xdl/xdl.c:659-666 | comparing the hashes with bit 0 forced to 1 before the names accepts exactly the symbols with that name |
| GnuHashLookup.VisitSymbol | native/src/main/cpp/external/xdl/xdl.c:658-672 | one turn of the chain loop: it stops with the least index of that name, stops because no hashed symbol has it, or moves on inside the bucket having missed nothing |
| GnuHashLookup.SearchChain | native/src/main/cpp/external/xdl/xdl.c:657-674 | the walk from a bucket head terminates, stays in bounds and equals the linear scan of all hashed symbols |
| GnuHashLookup.FindSymbol | native/src/main/cpp/external/xdl/xdl.c:642-675 | on every well-formed table and for every name the lookup returns the least index >= symoffset with that name, and NULL exactly when there is none |
| GnuHashExample.ExampleIsWellFormed | native/src/main/cpp/external/xdl/xdl.c:642-675 | the well-formedness the lookup relies on is satisfied by a concrete table with two buckets and a chain of two |
| SysvHash.StepsAgree | native/src/main/cpp/external/xdl/xdl.c:610-615 | one step of the hash, without the test for a zero top nibble, equals one step of the gABI's sample function in 32 bits and stays below 2^28 |
| SysvHash.BitsOfXdlStep | native/src/main/cpp/external/xdl/xdl.c:611-614 | each bit of a step in terms of 16 h + c modulo 2^32: its low 28 bits, with its top four mixed in at bit 4 |
| SysvHash.SysvHashIsGabi | native/src/main/cpp/external/xdl/xdl.c:607-617 | the whole hash equals the function in the 'Hash Table' section of chapter 5 of the System V gABI for every name, and stays below 2^28 |
| SysvHash.ShortNameHash | native/src/main/cpp/external/xdl/xdl.c:607-617 | as long as the bytes of the name, read as digits in base 16, make a number below 2^28, the hash is that number |
| SysvHash.AsciiBound | native/src/main/cpp/external/xdl/xdl.c:607-617 | up to six ASCII bytes always do |
| SysvHash.LongerNameHash | native/src/main/cpp/external/xdl/xdl.c:607-617 | for every name, each bit of its hash in terms of 16 times the hash without its last byte plus that byte |
| SysvHash.Samples | native/src/main/cpp/external/xdl/xdl.c:607-617 | the hashes of the empty name, "a", "aa" and "ab" as numbers |
| SysvHash.ComputeSysvHash | native/src/main/cpp/external/xdl/xdl.c:607-617 | the loop computes that hash |
| SysvHashLookup.FindSymbol | native/src/main/cpp/external/xdl/xdl.c:628-640 | on acyclic in-range chains the search terminates and returns the first symbol on the name's chain with that name, and NULL exactly when the chain has none |
| SysvHashLookup.CompleteSearchFindsAll | native/src/main/cpp/external/xdl/xdl.c:628-640 | when every named symbol is on its own chain the search fails exactly for the names no symbol has |
| SysvHashLookup.AnswerIsUnique | native/src/main/cpp/external/xdl/xdl.c:628-640 | a table and a name determine the answer of the search |
| SymbolSearch.FindByName | native/src/main/cpp/external/xdl/xdl.c:760-783 | GNU first, SYSV as fallback, and an undefined symbol counts as not found; whatever is returned has the name and is defined |
| SymbolSearch.FirstHashedDecides | native/src/main/cpp/external/xdl/xdl.c:770-780 | with a GNU section the first hashed symbol of the name decides, and when it is undefined the SYSV section is not asked |
| SymbolSearch.FallbackDecides | native/src/main/cpp/external/xdl/xdl.c:776-780 | where the GNU section has no symbol of the name, the first one on its SYSV chain decides |
| SymbolSearch.ResolvesExactlyDefinedNames | native/src/main/cpp/external/xdl/xdl.c:760-783 | with a GNU section over imports-then-exports a name resolves if and only if a defined symbol has it, and to the first such symbol; the fallback changes nothing |
| SymbolSearch.SysvAloneResolves | native/src/main/cpp/external/xdl/xdl.c:776-780 | with a SYSV section alone the search meets that promise if and only if no import of the name is met first on the chain of a name that is also defined |
| SysvExample.ImportHidesDefinition | native/src/main/cpp/external/xdl/xdl.c:776-780 | a complete table of three symbols on which the search for a defined name can only return NULL, because an import of the name is first on the chain |
| SymbolSearch.HeadAtBoundary | native/src/main/cpp/external/xdl/xdl.c:940-942 | a non-empty bucket starts exactly where the buckets before it end |
| SymbolSearch.WalkIsInOrder | native/src/main/cpp/external/xdl/xdl.c:938-947 | the order in which buckets and chains lead through the table, defined from the bucket heads and end bits alone, is symoffset, symoffset + 1, ... up to the last symbol: each hashed symbol once, increasing |
| SymbolSearch.BucketIsRange | native/src/main/cpp/external/xdl/xdl.c:940-946 | the chain from a bucket's head is the run of consecutive symbols from where the buckets before it end to where the next one starts |
| SymbolSearch.FirstAlongChain | native/src/main/cpp/external/xdl/xdl.c:943-946 | the first covering symbol along a chain is the least from its head to its end bit |
| SymbolSearch.WalkBucket | native/src/main/cpp/external/xdl/xdl.c:943-946 | the do-while over one bucket returns the least covering symbol of its chain, and stops at the end bit when there is none |
| SymbolSearch.FindByOffsetGnu | native/src/main/cpp/external/xdl/xdl.c:938-947 | the walk returns the first covering symbol along the order in which the tables lead, and that is the least of all hashed symbols that cover the offset |
| SymbolSearch.FindByOffsetSysv | native/src/main/cpp/external/xdl/xdl.c:948-953 | the SYSV branch returns the least covering symbol among all chains_cnt symbols |
| SymbolSearch.FindByAddress | native/src/main/cpp/external/xdl/xdl.c:929-956 | the search is the linear scan of the symbols that the present section covers; where nothing wraps it returns the first of them that is defined, not thread-local and has load bias + value <= address < load bias + value + size (one byte lower for odd thumb values), and none only when there is none |
| SymbolSearch.ScanFindsEnclosing | native/src/main/cpp/external/xdl/xdl.c:908-956 | the same of the scan itself, in terms of address, load bias and the symbol's own fields |
| SymbolSearch.GnuAddressScanIsFullScan | native/src/main/cpp/external/xdl/xdl.c:938-947 | leaving out the indices below symoffset loses nothing when they are undefined: the result is the first covering symbol of the whole table |
| LoadOnce.RunKeepsInv | native/src/main/cpp/external/xdl/xdl.c:738-758 | the protocol's invariant survives every step of every schedule of any number of threads |
| LoadOnce.LoadsOnce | native/src/main/cpp/external/xdl/xdl.c:738-758 | over any schedule the loader is entered at most once, by one thread at a time, and a thread that returns does so after it has finished, with its value |
| LoadOnce.LoadsOnceExactlyWhen | native/src/main/cpp/external/xdl/xdl_util.c:102-117 | a guard that uses its cell's own value as the sentinel loads once on every schedule if and only if its loader never yields the sentinel |
| LoadOnce.SentinelLoadsTwice | native/src/main/cpp/external/xdl/xdl_util.c:102-117 | a concrete schedule of two threads that enters the loader twice when it yields the sentinel |
| LoadOnce.GuardsOfXdl | native/src/main/cpp/external/xdl/xdl_util.c:83-117 | the boolean flag and the clamped API level never yield their sentinels; the page size does so only on a system whose page size is 0 |
| LoadOnce.ApiLevelIs | native/src/main/cpp/external/xdl/xdl_util.c:92-95 | the level stored is the device's when it tells one, else the build property's, and never below 16 |
| LoadOnce.NeverStuck | native/src/main/cpp/external/xdl/xdl.c:738-758 | while some thread has not returned, some thread can step |
| LoadOnce.AllReturn | native/src/main/cpp/external/xdl/xdl.c:738-758 | on any schedule at most six steps a thread are taken, and when none is left to take every thread has returned |
| ModuleIteration.ComputeMinVaddr | native/src/main/cpp/external/xdl/xdl_iterate.c:63-72 | the loop yields the least PT_LOAD address, or the largest word when there is none |
| ModuleIteration.MinVaddr | native/src/main/cpp/external/xdl/xdl_iterate.c:63-72 | that value is a lower bound of all PT_LOAD addresses and is attained unless it is the largest word |
| ModuleIteration.LinkerIsGiven | native/src/main/cpp/external/xdl/xdl_iterate.c:207-222 | the linker is given to the callback exactly when it has a base and a segment to load |
| ModuleIteration.LinkerInfoIs | native/src/main/cpp/external/xdl/xdl_iterate.c:207-222 | its load bias plus the address of its lowest segment is its base, modulo the word; name, headers and image are its own |
| ModuleIteration.IterateReported | native/src/main/cpp/external/xdl/xdl_iterate.c:117-138 | over the reported modules: invalid ones and the linker are skipped, missing program headers are taken from the ELF header, and the first non-zero return ends the iteration |
| ModuleIteration.IterateByLinker | native/src/main/cpp/external/xdl/xdl_iterate.c:207-250 | any callback sees exactly the delivered sequence, linker first, up to the module it stops at, and its return value is passed on |
| ModuleIteration.OthersAreValid | native/src/main/cpp/external/xdl/xdl_iterate.c:117-138 | after the linker exactly the reported modules with an address, a non-empty name and another load bias are delivered, one for each and in order, with their own program headers or, when they report none, those of their ELF header |
| ModuleIteration.LinkerDeliveredOnce | native/src/main/cpp/external/xdl/xdl_iterate.c:117-121 | the linker's load bias stands at the front of what a callback is given and nowhere else, whether or not the linker reports itself too |
| AddrCache.ElfIsMatch | native/src/main/cpp/external/xdl/xdl.c:853-866 | true exactly when the address lies in some PT_LOAD segment, with the wrapping the code has |
| AddrCache.IsInSegment | native/src/main/cpp/external/xdl/xdl.c:853-866 | where segments do not wrap: the address lies between load bias + p_vaddr and that plus p_memsz for some PT_LOAD segment |
| AddrCache.OpenByAddr | native/src/main/cpp/external/xdl/xdl.c:868-906 | opening by address yields the first delivered module the address is in |
| AddrCache.DebugFindByOffset | native/src/main/cpp/external/xdl/xdl.c:958-973 | the `.symtab` search returns its least covering symbol outside the reserved sections |
| AddrCache.FillIn | native/src/main/cpp/external/xdl/xdl.c:997-1026 | the symbol part is the `.dynsym` answer, else the `.symtab` answer, with the out-of-bounds names, and nothing with XDL_NON_SYM |
| AddrCache.SymbolAtFits | native/src/main/cpp/external/xdl/xdl.c:1004-1024 | where nothing wraps the symbol is the first of `.dynsym` in which the address lies, else the first such of `.symtab`, else none, with its name, load bias + value and size |
| AddrCache.SymbolEncloses | native/src/main/cpp/external/xdl/xdl.c:1004-1024 | the address and size in the answer enclose the address asked for, up to the low bit of thumb code |
| AddrCache.Cache.FindHandle | native/src/main/cpp/external/xdl/xdl.c:984-987 | the walk along `next` returns a listed handle whose module has the address exactly when there is one |
| AddrCache.HitIsFirst | native/src/main/cpp/external/xdl/xdl.c:984-995 | when modules are told apart by their addresses a cached hit is the module a fresh search would find |
| AddrCache.Cache.HandleFor | native/src/main/cpp/external/xdl/xdl.c:984-995 | a hit leaves the list as it is; a miss puts one new handle in front; the list stays acyclic, with at most one handle a module, all open |
| AddrCache.Cache.Addr4 | native/src/main/cpp/external/xdl/xdl.c:979-1027 | the answer equals the one from an empty cache, and is about a delivered module in whose segment the address lies, with that module's base, name and headers and the symbol that encloses the address; a hit or a failure changes nothing, a miss puts a handle for the module a search finds in front; the list invariant is kept |
| AddrCache.Cache.Clean | native/src/main/cpp/external/xdl/xdl.c:1029-1039 | every handle on the list is closed exactly once and the list ends up empty |
| AddrCache.Session | native/src/main/cpp/external/xdl/xdl.c:979-1039 | any sequence of calls on one cache, each with or without symbols and with clean-ups in between, gives the answers that as many empty caches give |
| CallerSelection.Matches | native/src/main/cpp/external/xdl/xdl_linker.c:164-173 | a pattern matches exactly the names with that prefix or suffix |
| CallerSelection.PatternSamples | native/src/main/cpp/external/xdl/xdl_linker.c:71-79 | two of the patterns in use, each with a name it matches and one it does not |
| CallerSelection.GetCallerAddr | native/src/main/cpp/external/xdl/xdl_linker.c:136-144 | the wrapping address of the first PT_LOAD segment, NULL when there is none |
| CallerSelection.FirstLoadIs | native/src/main/cpp/external/xdl/xdl_linker.c:136-144 | the first PT_LOAD segment decides, and without one the address is NULL |
| CallerSelection.CallerAddrIs | native/src/main/cpp/external/xdl/xdl_linker.c:136-144 | where nothing wraps a caller's address is the start of its module's first PT_LOAD segment in memory |
| CallerSelection.UpdateCaller | native/src/main/cpp/external/xdl/xdl_linker.c:146-173 | the inner loop, whose bound its own body lowers, moves a caller to the least pattern below its cursor that the module matches, and otherwise leaves it alone |
| CallerSelection.CallerCallback | native/src/main/cpp/external/xdl/xdl_linker.c:155-177 | the callback does so for every caller in place, and returns 1 exactly when the module is valid and nothing is left to improve |
| CallerSelection.ArgminGrows | native/src/main/cpp/external/xdl/xdl_linker.c:155-177 | one update turns the argmin over the modules so far into the argmin with the next module |
| CallerSelection.CompleteIsFinal | native/src/main/cpp/external/xdl/xdl_linker.c:174-176 | once nothing is left to improve, further modules change nothing: stopping early gives the table of the full pass |
| CallerSelection.CompleteWhenFirstMet | native/src/main/cpp/external/xdl/xdl_linker.c:174-176 | the callback asks to stop exactly when each caller has met its first pattern |
| CallerSelection.Pass | native/src/main/cpp/external/xdl/xdl_linker.c:155-177 | over any list of modules, ended by the callback's first non-zero return, the table becomes the argmin over the whole list |
| CallerSelection.InitCallerAddr | native/src/main/cpp/external/xdl/xdl_linker.c:155-181 | after the pass, wherever it stopped, each cursor is the least pattern matched by any delivered module and its address is from the earliest module matching it |
| CallerSelection.ArgminIsUnique | native/src/main/cpp/external/xdl/xdl_linker.c:155-181 | only one table is the argmin |
| LzmaBuffer.MakeRoom | native/src/main/cpp/external/xdl/xdl_lzma.c:150-159 | the buffer is grown by 2 src_size exactly when less than that is free, and what is written is kept |
| LzmaBuffer.Turn | native/src/main/cpp/external/xdl/xdl_lzma.c:149-174 | one turn makes the decoder call that its position calls for, with the room behind dst_offset, and appends its chunk to what is written |
| LzmaBuffer.EveryCallHasRoom | native/src/main/cpp/external/xdl/xdl_lzma.c:150-159 | call by call along the whole run: at least 2 src_size bytes of room behind what is written, in a buffer of at most max(7 src_size, written + 4 src_size) |
| LzmaBuffer.OutputIsContent | native/src/main/cpp/external/xdl/xdl_lzma.c:149-176 | the chunks of a run, one after the other, are the front of what was to come and all of it when the run succeeds; every call but the last goes on and has filled its room |
| LzmaBuffer.FirstCallIs | native/src/main/cpp/external/xdl/xdl_lzma.c:147-150 | the buffer starts at 7 src_size and the first call has all of it |
| LzmaBuffer.ReliableSucceeds | native/src/main/cpp/external/xdl/xdl_lzma.c:149-176 | with a decoder that never fails and stops only when the stream is finished, every run succeeds, however many calls it takes |
| LzmaBuffer.RunLoop | native/src/main/cpp/external/xdl/xdl_lzma.c:147-175 | the do-while loop terminates for every input; it ends well in a finished state exactly when the run succeeds, and what it then holds is the concatenation of the chunks of the run's calls |
| LzmaBuffer.Decompress | native/src/main/cpp/external/xdl/xdl_lzma.c:142-191 | the run succeeds exactly when none of its decoder calls fails and the stream is finished where the decoder stops; the buffer returned is the concatenation of the calls' chunks, and that is the whole content |
| LzmaBuffer.CallsAreBounded | native/src/main/cpp/external/xdl/xdl_lzma.c:149-175 | 2 src_size times the number of decoder calls before the last is at most what they write, which is at most the content; an empty input takes one call |
| LzmaBuffer.CopierIsWellBehaved | native/src/main/cpp/external/xdl/xdl_lzma.c:161-174 | the decoder contract has an instance |
| DeferredCell.Cell.Set | xposedkit/src/main/java/cc/meteormc/xposedkit/util/DeferredValue.kt:17-30 | the setter's critical section: an exception and no change when a value is there, else the value is stored and both lists are taken whole and cleared |
| DeferredCell.Cell.Register | xposedkit/src/main/java/cc/meteormc/xposedkit/util/DeferredValue.kt:69-73 | the block is queued behind the others exactly when there is no value; else the value is returned and nothing changes |
| DeferredCell.Cell.Park | xposedkit/src/main/java/cc/meteormc/xposedkit/util/DeferredValue.kt:53-60 | the waiter is parked behind the others exactly when there is no value; else it gets the value and nothing changes |
| DeferredValue.RunKeepsInv | xposedkit/src/main/java/cc/meteormc/xposedkit/util/DeferredValue.kt:12-33 | at every point of every interleaving all that was queued is in the cell or, in order, split between what the winning setter has delivered and has yet to deliver |
| DeferredValue.NeverTwice | xposedkit/src/main/java/cc/meteormc/xposedkit/util/DeferredValue.kt:50-74 | no block starts twice, no waiter is resumed twice, nothing is delivered before a value is set, and every delivery is of that value |
| DeferredValue.ExactlyOnce | xposedkit/src/main/java/cc/meteormc/xposedkit/util/DeferredValue.kt:12-74 | in a run that has come to rest with a value, every block has started exactly once and every waiter was resumed exactly once; without one, none |
| DeferredValue.RegistrationOrder | xposedkit/src/main/java/cc/meteormc/xposedkit/util/DeferredValue.kt:31-32 | queued blocks start, and parked waiters resume, in the order of registration, and all blocks have started before any parked waiter is resumed |
| DeferredValue.ForEachCatching | xposedkit/src/main/java/cc/meteormc/xposedkit/util/DeferredValue.kt:76-84 | the loop catches each element's exception and goes on: every element has its turn in order, and exactly the exceptions thrown are printed |
| DeferredValue.TurnsReachAll | xposedkit/src/main/java/cc/meteormc/xposedkit/util/DeferredValue.kt:31-32 | however each block ends, the winning setter's turns reach every block and then every waiter of its snapshot, in order, and the failures on record are the blocks that threw |
| DeferredValue.ExceptionsChangeNothing | xposedkit/src/main/java/cc/meteormc/xposedkit/util/DeferredValue.kt:76-84 | given that catch, no step of any other call depends on how a block ended: a run and the run with every exception left out differ in the record of failures only |
| DeferredValue.SetOnce | xposedkit/src/main/java/cc/meteormc/xposedkit/util/DeferredValue.kt:17-30 | once set, the value stays and the lists stay empty whatever setters, registrations and waits follow |
| DeferredValue.StepsRunOut | xposedkit/src/main/java/cc/meteormc/xposedkit/util/DeferredValue.kt:12-84 | every step leaves less to do, so every run ends |
| DeferredValue.CanComeToRest | xposedkit/src/main/java/cc/meteormc/xposedkit/util/DeferredValue.kt:12-84 | every run can be carried on until no call has a step left |
| Priority.NormalizeIsMonotone | xposedkit/src/main/java/cc/meteormc/xposedkit/impl/LSPosed.kt:113-116 | normalisation is monotone over all Ints for any non-negative default |
| Priority.NegateIsAntitone | xposedkit/src/main/java/cc/meteormc/xposedkit/impl/LSPosed.kt:117-123 | negation is antitone over all Ints and merges only Int.MIN_VALUE and its successor |
| Priority.FrameworkPriorityIs | xposedkit/src/main/java/cc/meteormc/xposedkit/impl/LSPosed.kt:113-123 | what the framework is given: the default for every BEFORE priority within it, its negation for AFTER, and otherwise what was asked for, with the sign changed for AFTER and the ends of the Ints exchanged |
| Priority.FrameworkOrder | xposedkit/src/main/java/cc/meteormc/xposedkit/impl/LSPosed.kt:113-123 | the framework orders BEFORE hooks as requested and AFTER hooks the other way round; exactly which priorities are merged |
| HookIdentifier.ParsePrintInt | xposedkit/src/main/java/cc/meteormc/xposedkit/impl/LSPosed.kt:463-471 | toIntOrNull undoes decimal printing for every Int, Int.MIN_VALUE included |
| HookIdentifier.DecimalIs | xposedkit/src/main/java/cc/meteormc/xposedkit/impl/LSPosed.kt:469 | printed numbers are decimal: a digit more stands behind, and the digits are 0 to 9 |
| HookIdentifier.IdSample | xposedkit/src/main/java/cc/meteormc/xposedkit/impl/LSPosed.kt:469 | two ids as strings |
| HookIdentifier.PartialIds | xposedkit/src/main/java/cc/meteormc/xposedkit/impl/LSPosed.kt:460-466 | a blank or missing random part is made up; without a known type or a number that fits there is no identifier |
| HookIdentifier.FieldsOfId | xposedkit/src/main/java/cc/meteormc/xposedkit/impl/LSPosed.kt:460-471 | splitting a printed id at colons yields the three parts it was made of |
| HookIdentifier.IdRoundTrip | xposedkit/src/main/java/cc/meteormc/xposedkit/impl/LSPosed.kt:452-471 | fromId(toId(x)) restores type, priority and random part |
| HookIdentifier.PrintedIdMatches | xposedkit/src/main/java/cc/meteormc/xposedkit/impl/LSPosed.kt:128-131 | a printed id equals a requested identifier if and only if type and priority agree |
| HookIdentifier.RandomPartIsReadable | xposedkit/src/main/java/cc/meteormc/xposedkit/impl/LSPosed.kt:472-476 | the generated random part is never blank and holds no colon |
| HookIdentifier.HexSample | xposedkit/src/main/java/cc/meteormc/xposedkit/impl/LSPosed.kt:472-476 | two lower-case hex digits a byte, the high one first |
| Text.SplitJoin | xposedkit/src/main/java/cc/meteormc/xposedkit/impl/LSPosed.kt:461 | splitting at a separator undoes joining fields that lack it |
| InterceptChain.InvokeInfo.Perform | xposedkit/src/main/java/cc/meteormc/xposedkit/hook/InvokeInfo.kt:19-24 | after any assignments the last one stands, and any assignment counts as a change |
| InterceptChain.Intercept | xposedkit/src/main/java/cc/meteormc/xposedkit/impl/LSPosed.kt:404-450 | one hooker around the rest of the chain, reading back the InvokeInfo its callback wrote to, does what the recursive meaning of the chain says |
| InterceptChain.RunChain | xposedkit/src/main/java/cc/meteormc/xposedkit/impl/LSPosed.kt:404-450 | running the whole chain equals that meaning |
| InterceptChain.OuterPart | xposedkit/src/main/java/cc/meteormc/xposedkit/impl/LSPosed.kt:404-450 | around an outer part none of whose callbacks throws or short-circuits in this run, the inner part runs as it does on its own, then each outer AFTER hooker runs once, innermost first; an exception reaches each of them and leaves the chain |
| InterceptChain.TransparentChain | xposedkit/src/main/java/cc/meteormc/xposedkit/impl/LSPosed.kt:404-450 | if in this run no callback throws or short-circuits the original runs exactly once, on the arguments the BEFORE callbacks left, between all BEFORE hookers outermost first and all AFTER hookers innermost first; without assigned results the outcome is the original's; an exception of the original is seen by every AFTER hooker and leaves the chain |
| InterceptChain.ShortCircuit | xposedkit/src/main/java/cc/meteormc/xposedkit/impl/LSPosed.kt:413-430 | a BEFORE callback that assigns a result skips exactly what is inside it: no inner hooker and no original runs, every outer AFTER hooker does |
| InterceptChain.BeforeThrows | xposedkit/src/main/java/cc/meteormc/xposedkit/impl/LSPosed.kt:422-429 | a BEFORE callback that throws: no inner hooker and no original runs, every outer AFTER hooker runs once, innermost first, and sees the exception, and the chain ends with it |
| InterceptChain.AfterThrows | xposedkit/src/main/java/cc/meteormc/xposedkit/impl/LSPosed.kt:432-443 | an AFTER callback that throws: its exception replaces whatever came from inside, every outer AFTER hooker sees it, and the chain ends with it |
| InterceptChain.WayInFlows | xposedkit/src/main/java/cc/meteormc/xposedkit/impl/LSPosed.kt:413-428 | the first BEFORE callback is given the arguments of the call, each next one and in the end the original what the one before it left, and none is shown a result or an exception |
| InterceptChain.OutermostAssignmentStands | xposedkit/src/main/java/cc/meteormc/xposedkit/impl/LSPosed.kt:431-447 | the result that the outermost assigning AFTER hooker assigned last is the outcome when what is inside it returned, and counts for nothing when that threw |
| XposedRegistry.Insert | xposedkit/src/main/java/cc/meteormc/xposedkit/impl/Xposed.kt:149-151 | indexOfFirst of a lower priority, or the end, is insertion behind everything of at least that priority |
| XposedRegistry.InsertedOrdered | xposedkit/src/main/java/cc/meteormc/xposedkit/impl/Xposed.kt:149-151 | insertion keeps descending priority with ties in the order of registration |
| XposedRegistry.InsertedCounts | xposedkit/src/main/java/cc/meteormc/xposedkit/impl/Xposed.kt:149-151 | insertion adds the handle once and loses none |
| XposedRegistry.Registry.Hook | xposedkit/src/main/java/cc/meteormc/xposedkit/impl/Xposed.kt:121-153 | a registered member keeps its target and an unregistered one gets a new target; the handle is put into that target's list, no other list changes, and the registry invariant is kept |
| XposedRegistry.Registry.Unhook | xposedkit/src/main/java/cc/meteormc/xposedkit/impl/Xposed.kt:140-147 | the handles of that callback leave the list; when it empties, member and framework hook go; the registry stays valid if and only if the target is the member's current one or the member has none |
| XposedRuns.Perform | xposedkit/src/main/java/cc/meteormc/xposedkit/impl/Xposed.kt:121-153 | over any run of hooks and unhooks, each unhook called while its handle is listed: a member is registered iff its list is non-empty iff the framework hook is on it, lists are in descending priority with ties in registration order, and they are the lists the operations describe |
| XposedRuns.ListedExactly | xposedkit/src/main/java/cc/meteormc/xposedkit/impl/Xposed.kt:121-153 | after any run a member lists exactly the handles that were made for it and that no unhook of a handle of that member with the same callback has removed since |
| XposedRuns.StaleUnhook | xposedkit/src/main/java/cc/meteormc/xposedkit/impl/Xposed.kt:140-147 | hook, unhook, hook again, then the first unhook once more: the member loses its registration and framework hook while its new target still lists a handle |
| XposedRegistry.WithoutKeepsOrder | xposedkit/src/main/java/cc/meteormc/xposedkit/impl/Xposed.kt:142 | removal leaves, position by position, exactly the handles with other callbacks, in the order they had |
| XposedRegistry.Registry.RunCallback | xposedkit/src/main/java/cc/meteormc/xposedkit/impl/Xposed.kt:77-98 | an unregistered member runs nothing; a registered one is dispatched over its list |
| XposedRegistry.Dispatch | xposedkit/src/main/java/cc/meteormc/xposedkit/impl/Xposed.kt:87-97 | the handles of the type run in list order up to the first that throws; the last result any of them assigned is the one kept |
| XposedRegistry.DispatchStopsAtFirstThrow | xposedkit/src/main/java/cc/meteormc/xposedkit/impl/Xposed.kt:87-94 | the first callback of the type that throws is the last to run and its exception is passed on; without one all run |
| XposedRegistry.LastWriteIs | xposedkit/src/main/java/cc/meteormc/xposedkit/impl/Xposed.kt:95-97 | the result kept is the last one assigned by the last callback that assigned any |
| XposedRegistry.TypedKeepsOrder | xposedkit/src/main/java/cc/meteormc/xposedkit/impl/Xposed.kt:88-91 | choosing one type keeps, position by position, exactly its handles in the order they had |
| BackendOrder.LSPosedRuns | xposedkit/src/main/java/cc/meteormc/xposedkit/impl/LSPosed.kt:113-125 | a chain in the framework's order in a run in which no callback throws or short-circuits calls BEFORE hooks into the chain and AFTER hooks out of it, in the order named there |
| BackendOrder.XposedRuns | xposedkit/src/main/java/cc/meteormc/xposedkit/impl/Xposed.kt:87-91 | the Xposed list runs callbacks in exactly descending priority, ties in the order of the requests |
| BackendOrder.BackendsAgree | xposedkit/src/main/java/cc/meteormc/xposedkit/impl/LSPosed.kt:113-125 | for two hooks of one type whose framework priorities differ, both backends run the one with the higher requested priority first |
| HotReload.HookTakesOverFirst | xposedkit/src/main/java/cc/meteormc/xposedkit/impl/LSPosed.kt:126-146 | while reloading, hook takes over the first old handle of the member whose id reads as the type and framework priority asked for: that handle gets the new hooker, leaves the list, and nothing is installed |
| HotReload.HookInstalls | xposedkit/src/main/java/cc/meteormc/xposedkit/impl/LSPosed.kt:126-153 | without such a handle, or outside a reload, it installs a new hook and takes over none |
| HotReload.ClinitTakesOverLast | xposedkit/src/main/java/cc/meteormc/xposedkit/impl/LSPosed.kt:161-169 | while reloading, hookClassInitializer takes over the last old handle of the initializer |
| HotReload.ClinitInstalls | xposedkit/src/main/java/cc/meteormc/xposedkit/impl/LSPosed.kt:161-172 | without one, or outside a reload, it installs a new hook |
| HotReload.FreshHookIs | xposedkit/src/main/java/cc/meteormc/xposedkit/impl/LSPosed.kt:148-172 | an installed hook is what was asked for: executable, type, callback, whether results count, framework or default priority; hook gives it an id from version 102 on, which reads back |
| HotReload.UnderKeepsOrder | xposedkit/src/main/java/cc/meteormc/xposedkit/impl/LSPosed.kt:320 | the old handles of a member stand in the order in which the framework gave them |
| ReloadAgain.SameModuleReplacesAll | xposedkit/src/main/java/cc/meteormc/xposedkit/impl/LSPosed.kt:126-146 | from version 102 on, reloading a module that asks for the hooks it was loaded with takes over every old handle once and neither installs nor unhooks any |
| HotReload.DoFacts | xposedkit/src/main/java/cc/meteormc/xposedkit/impl/LSPosed.kt:126-172 | whatever a request does, it touches one handle, which keeps executable, priority and id if it is an old one |
| HotReload.Conservation | xposedkit/src/main/java/cc/meteormc/xposedkit/impl/LSPosed.kt:318-391 | whatever the module requests, every old handle is either replaced exactly once or unhooked exactly once, never both; afterwards exactly the requests' handles are live, one each |
| HotReload.ReloadGivesRequests | xposedkit/src/main/java/cc/meteormc/xposedkit/impl/LSPosed.kt:318-391 | after a reload the multiset of live (executable, framework priority, hooker) is the one the requests ask for, and the ids still tell the framework priorities, so the next reload starts from the same invariant |
| HotReload.FreshLoadGivesRequests | xposedkit/src/main/java/cc/meteormc/xposedkit/impl/LSPosed.kt:91-182 | the same requests with no old handles install that multiset |
| HotReload.ReloadEqualsFreshLoad | xposedkit/src/main/java/cc/meteormc/xposedkit/impl/LSPosed.kt:91-182 | a reload is equivalent to a fresh load for every module if and only if the old hooks on class initializers have the default priority |
| HotReload.OddClinitBreaks | xposedkit/src/main/java/cc/meteormc/xposedkit/impl/LSPosed.kt:161-172 | a class initializer hooked at another priority makes some module's reload differ from its fresh load |
| HotReload.OddModuleReloadsDifferently | xposedkit/src/main/java/cc/meteormc/xposedkit/impl/LSPosed.kt:161-172 | a concrete module: it hooks a class initializer with plain hook at Int.MIN_VALUE, and its reload with hookClassInitializer differs from a fresh load whatever the framework's default is |
| HotReload.ManyReloads | xposedkit/src/main/java/cc/meteormc/xposedkit/impl/LSPosed.kt:300-392 | after any number of reloads of modules that keep that condition, the live hooks are those the last module asks for |
| HotReload.LSPosed.Handle | xposedkit/src/main/java/cc/meteormc/xposedkit/impl/LSPosed.kt:91-182 | hook and hookClassInitializer make the state change of one request: the first fitting old handle, or the last of a class initializer, or a new hook |
| HotReload.LSPosed.UnhookLeft | xposedkit/src/main/java/cc/meteormc/xposedkit/impl/LSPosed.kt:378-390 | every handle not taken over is unhooked once, and no other |
| HotReload.LSPosed.Finish | xposedkit/src/main/java/cc/meteormc/xposedkit/impl/LSPosed.kt:377-391 | reloading ends, the handles left are unhooked, and the early return leaves lists that are all empty |
| HotReload.LSPosed.OnHotReloaded | xposedkit/src/main/java/cc/meteormc/xposedkit/impl/LSPosed.kt:300-392 | without saved packages nothing changes; with them the state is that of a whole reload, and the unhooked handles are exactly the old ones not replaced |
| Descriptor.AbbreviationOf | xposedkit/src/main/java/cc/meteormc/xposedkit/util/Primitives.kt:7-17 | every primitive has a one-letter abbreviation, and the letter tells the primitive |
| Descriptor.Letters | xposedkit/src/main/java/cc/meteormc/xposedkit/util/Primitives.kt:7-17 | the nine letters and the nine names |
| Descriptor.DescriptorSamples | xposedkit/src/main/java/cc/meteormc/xposedkit/Reflect.kt:249-255 | descriptors and names of arrays as strings |
| Descriptor.MethodSample | xposedkit/src/main/java/cc/meteormc/xposedkit/Reflect.kt:257-274 | the descriptor of a method as a string |
| Descriptor.DescriptorRoundTrip | xposedkit/src/main/java/cc/meteormc/xposedkit/Reflect.kt:249-255 | a parser for section 4.3.2 of the JVMS recovers the type from its descriptor followed by anything, and leaves what follows |
| Descriptor.DescriptorsArePrefixFree | xposedkit/src/main/java/cc/meteormc/xposedkit/Reflect.kt:249-255 | no class descriptor is a prefix of another type's |
| Descriptor.MethodRoundTrip | xposedkit/src/main/java/cc/meteormc/xposedkit/Reflect.kt:257-274 | a parser for section 4.3.3 of the JVMS recovers parameter and return types |
| Descriptor.NameIsInjective | xposedkit/src/main/java/cc/meteormc/xposedkit/Reflect.kt:220-222 | types with Java-legal names are told apart by their names, arrays and primitives included |
| Descriptor.DescriptorsAgree | xposedkit/src/main/java/cc/meteormc/xposedkit/Reflect.kt:257-274 | two methods share a descriptor if and only if their parameter and return types are the same |
| Descriptor.NamesAgree | xposedkit/src/main/java/cc/meteormc/xposedkit/Reflect.kt:220-222 | two types with class-file names have one name if and only if they are the same or one is a primitive and the other the class called like it |
| Descriptor.SharedDescriptor | xposedkit/src/main/java/cc/meteormc/xposedkit/Reflect.kt:257-274 | for all class-file names: that two methods share a descriptor exactly when their parameter and return types have the same names is true if and only if the two do not differ merely in primitives and classes called like them |
| Descriptor.IntAndClassInt | xposedkit/src/main/java/cc/meteormc/xposedkit/Reflect.kt:249-255 | `int` and a class of that name have one name and the descriptors `I` and `Lint;` |
| Descriptor.JavaTypesNeverConfusable | xposedkit/src/main/java/cc/meteormc/xposedkit/Reflect.kt:257-274 | for names Java source can write two methods are never such a pair, so they share a descriptor exactly when the names agree |
| MethodSearch.OneStringExactly | xposedkit/src/main/java/cc/meteormc/xposedkit/Reflect.kt:276-293 | two methods with names Android admits have one signature string if and only if they have the same name and, position by position, the same parameter types or a primitive and the class called like it |
| MethodSearch.SignatureIsInjective | xposedkit/src/main/java/cc/meteormc/xposedkit/Reflect.kt:276-293 | for names Java source can write the string tells exactly the name and the parameter types |
| MethodSearch.Filter | xposedkit/src/main/java/cc/meteormc/xposedkit/Reflect.kt:175-179 | the filter's condition, with its side effect on the set, takes a declaration exactly when it matches and no earlier match has its signature string; for any declarations |
| MethodSearch.Methods | xposedkit/src/main/java/cc/meteormc/xposedkit/Reflect.kt:172-192 | on every chain both walks yield the first match of every signature string, in subclass-to-superclass order |
| MethodSearch.StringsSuffice | xposedkit/src/main/java/cc/meteormc/xposedkit/Reflect.kt:172-192 | that is the first match of every name and parameter list if and only if no two matches have one string without the same name and parameter types |
| MethodSearch.JavaDeclarationsSuffice | xposedkit/src/main/java/cc/meteormc/xposedkit/Reflect.kt:172-192 | declarations with names Java source can write meet that condition |
| MethodSearch.OverloadIsLost | xposedkit/src/main/java/cc/meteormc/xposedkit/Reflect.kt:152-181 | a concrete class with m(int) and m of the class called `int`: methods("m") loses the second, and method("m") yields the first although the class has two signatures of the name |
| MethodSearch.OverridesEliminated | xposedkit/src/main/java/cc/meteormc/xposedkit/Reflect.kt:172-192 | whether methods are told apart by string or by name and parameter types: for every match anywhere on the chain the first matches hold exactly one method that is the same, the first from the subclass up, and nothing that does not match |
| MethodSearch.MostDerivedIsKept | xposedkit/src/main/java/cc/meteormc/xposedkit/Reflect.kt:172-192 | of matches that are the same the one kept is declared by the most derived class that has one |
| MethodSearch.FirstRecursive | xposedkit/src/main/java/cc/meteormc/xposedkit/Reflect.kt:231-237 | the do-while walk returns what the first class on the chain has |
| MethodSearch.ExactIsMostDerived | xposedkit/src/main/java/cc/meteormc/xposedkit/Reflect.kt:144-150 | an exact search yields the most derived declaration of that name and those parameters, and null exactly when no class has one |
| MethodSearch.NamedIsSoleOfMostDerived | xposedkit/src/main/java/cc/meteormc/xposedkit/Reflect.kt:152-166 | on every chain, without a no-argument method of the name, method(name) yields a method of the most derived class declaring the name, if and only if that class's methods of the name have one signature string |
| MethodSearch.NamedMeetsPromise | xposedkit/src/main/java/cc/meteormc/xposedkit/Reflect.kt:152-166 | that it yields a method exactly when that class has one signature of the name is true if and only if the class does not have several with one string |
| MethodSearch.NamedPrefersNoArguments | xposedkit/src/main/java/cc/meteormc/xposedkit/Reflect.kt:152-155 | if some class on the chain declares the name without parameters, method(name) yields that of the most derived such class |
| MethodSearch.NamedFindsNothing | xposedkit/src/main/java/cc/meteormc/xposedkit/Reflect.kt:152-166 | if no class declares the name there is none |
| MethodSearch.FittingIsSole | xposedkit/src/main/java/cc/meteormc/xposedkit/Reflect.kt:168-170 | method(paramTypes) yields the first declaration that fits when all that fit have its signature string, and none otherwise |
| MethodSearch.FittingFindsNothing | xposedkit/src/main/java/cc/meteormc/xposedkit/Reflect.kt:168-170 | and none when nothing fits |
| ReflectCache.KeysNeverCollide | xposedkit/src/main/java/cc/meteormc/xposedkit/Reflect.kt:144-170 | for Java-legal names two calls of any of the three overloads share a key if and only if they are the same call |
| ReflectCache.KeysCollideExactly | xposedkit/src/main/java/cc/meteormc/xposedkit/Reflect.kt:144-170 | for all names a class file can hold (method names with an opening parenthesis aside) two calls share a key if and only if: same name and same type names after cutting at commas; a search by name alone against one for a lone class called `*`; or the same lists of wanted type names after cutting at commas |
| ReflectCache.IllegalNamesCollide | xposedkit/src/main/java/cc/meteormc/xposedkit/Reflect.kt:144-152 | a class called `*` shares its key with the search by name alone |
| ReflectCache.Reflect.ExactMethod | xposedkit/src/main/java/cc/meteormc/xposedkit/Reflect.kt:144-150 | the overload takes a stored method, looks a stored null up again, and stores what the search finds under its key; for any names |
| ReflectCache.Reflect.NamedMethod | xposedkit/src/main/java/cc/meteormc/xposedkit/Reflect.kt:152-166 | so does method(name), which goes through the exact overload and so fills its entry too |
| ReflectCache.NamedFillsExact | xposedkit/src/main/java/cc/meteormc/xposedkit/Reflect.kt:152-155 | the search by name alone leaves an entry for the exact search too |
| ReflectCache.Reflect.FittingMethod | xposedkit/src/main/java/cc/meteormc/xposedkit/Reflect.kt:168-170 | so does method(paramTypes) |
| ReflectCache.Session | xposedkit/src/main/java/cc/meteormc/xposedkit/Reflect.kt:103-170 | any sequence of calls on one object returns what the calls return one after the other on the cache they share |
| ReflectCache.JavaCallsAreRight | xposedkit/src/main/java/cc/meteormc/xposedkit/Reflect.kt:103-170 | for names that Java source can write, any sequence of calls of the three overloads returns what the uncached searches return |
| ReflectCache.RightExactlyWhen | xposedkit/src/main/java/cc/meteormc/xposedkit/Reflect.kt:103-170 | for any set of calls with class-file names (method names with an opening parenthesis aside): every sequence of them returns what the uncached searches return if and only if those that collide have the same answer |
| ReflectCache.RightOnEveryChainExactlyWhen | xposedkit/src/main/java/cc/meteormc/xposedkit/Reflect.kt:103-170 | for any such set of calls: every sequence of them returns what the uncached searches return whatever the classes are, if and only if no two different ones collide |
| ReflectCache.ClassCalledInt | xposedkit/src/main/java/cc/meteormc/xposedkit/Reflect.kt:144-150 | two calls on a concrete class: after m(int) has been found, the search for a method m taking the class called `int` is given m(int), though there is no such method |
| ReflectCache.ClassCalledNull | xposedkit/src/main/java/cc/meteormc/xposedkit/Reflect.kt:168-170 | two calls on a concrete class: after a search for any method of one parameter, the one for a parameter of the class called `null` is given its method, though there is none |

## Left out

- `xdl_resolve_symbol_address`: thread-local and indirect-function symbols call resolvers that are foreign code; a search ends with the symbol found.
- `xdl_dsym` and the matching of names with compiler-made suffixes: linear scans of their own, with no index to agree with.
- Reading sections, `/proc/self/maps`, `dlopen`, `getauxval`: foreign effects. Loaded tables and the module list are inputs.
- ModuleIteration.IterateReported: the enumeration is the one with default flags, which is how the address cache and the caller selection call it. `XDL_FULL_PATHNAME` (xdl_iterate.c:179-191) reads the maps file, and the name repair at lines 140-177 is not compiled for the build's minimum SDK.
- `xdl_iterate_by_maps`: only compiled for Android versions below the minimum SDK.
- Allocation failure: every allocation succeeds, and sizes fit the machine word.
- The LZMA decoder, the Xposed and libxposed frameworks, JNI, JVMTI and ART: not part of this model beyond the assumptions above.
- Weak memory: steps are sequentially consistent. Acquire and release orderings, and the unsynchronised first read in `await`, are taken as atomic reads of the current value.
- LoadOnce.LoadsOnce: each thread calls the guard once, since a second call by a thread is one more thread that starts later.
- CallerSelection.InitCallerAddr: runs the callback over the delivered sequence itself; that an iteration hands any callback this sequence is ModuleIteration.IterateByLinker.
- InterceptChain.Intercept: a callback's behaviour is a function of what ran before it; writes to objects shared with other threads, and the receiver object, are not represented.
- HotReload.ReloadEqualsFreshLoad: a module is the requests it makes; a module that throws or unhooks handles during the reload is not represented, nor is garbage collection of the saved packages.
- ReflectCache.KeysCollideExactly: leaves aside method names with an opening parenthesis, which class files allow; so do `ReflectCache.RightExactlyWhen` and `ReflectCache.RightOnEveryChainExactlyWhen`.
- MethodSearch.OneStringExactly: leaves aside method names with an opening parenthesis and class names with a comma; for the latter `MethodSearch.SignaturesAgree` compares the parts between commas.
- BackendOrder.BackendsAgree: says nothing of hooks whose framework priorities merge, because the framework orders them.
- HookIdentifier.IdRoundTrip: decimal digits and blank characters are the ASCII ones; the random part is one the class itself generates or any other without colons that is not blank.
- How the Xposed framework merges `param.result` with `param.throwable`: its `MethodHookParam` is not part of this model; dispatch ends with what is assigned to both.
- XposedRegistry.Registry.Hook: one thread at a time, as the code takes no lock around the map and the list.
- MethodSearch.ExactIsMostDerived: `getDeclaredMethod` is given by its contract, any declared method with that name and those parameters, since the platform does not say which of several it returns.
- Nested class, constructor and field lookups and their caches: the same walks with simpler keys.
- Proxies, contexts, logging, stack analysis, delegates, the Gradle and jadx plugins, the annotation processor: no property beyond what one body says.
