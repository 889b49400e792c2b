# A verified model of the Aya loader

Aya loads eBPF programs: it reads an object file, adapts it to the running kernel, links each program
into one flat instruction array and hands it over. This project models the parts of that work where a
mistake is hard to see, and the log format that programs and user space share, and proves what they
promise. `dafny verify dfyconfig.toml` checks all of it.

## What is modelled

**The function linker** (`Linker`, `LinkerSemantics`, `LinkerDebugInfo`, `RelocateCalls`,
`ProgramOrder`). A program's main body is copied, every function it can reach is appended once, and
calls become displacements; the array grows while an earlier part of it is still being walked, and the
call graph may have cycles. `Linker` is the recursive algorithm on objects, with its layout invariant
and its termination measure. `LinkerSemantics` gives the object file and the linked program a meaning
each, one by frames of (function, offset), one by instruction index, and proves that every run of one is
a run of the other (pseudo-calls as in section 4.3.2 of RFC 9669, two-slot immediates as in sections 3.2
and 5.4). `LinkerDebugInfo` follows the func and line records. `RelocateCalls` is the pass over all
programs, which overwrites the table it links against.

**Patching** (`Patching`, `PatchingProperties`, `PatchingOrder`, `PatchedSlots`, `PassDisjointness`). Map
references and extern references are patched in the order of a hash map. It is shown what a whole pass
leaves in the slots of each reference, exactly when the result is independent of that order, that the
three relocation passes are disjoint, and that no program-local call appears out of nothing, each with
its exact exception.

**Extern kernel symbols** (`KsymCollection`, `DeclaredKsyms`, `KernelLookup`, `Externs`, `KsymPipeline`,
`KernelReferences`). Symbols declared in ".ksyms" are resolved by the kernel's BTF or by kallsyms.
Resolution is order-independent, and enough for patching: the chain from declaration over the section
fixup to patched code is closed, and the id in the code is that of the kernel type that is declared.

**CO-RE relocation** (`Btf`, `TypeSizes`, `MemberSearch`, `AccessSpecs`, `AccessOffsets`,
`SelfRelocation`, `Bitfields`, `TypeCompatibility`, `TypeAgreement`, `CoreRelocation`, `VariantValues`,
`CoreDecisions`, `CoreProperties`, `AmbiguousCandidates`). A field path is parsed against local types,
found again in the kernel's, and turned into offsets, sizes and shifts. The search is sound, complete and
leaves no trace when it fails; every part of a path moves by what the declarations say; matching a type
against itself is the identity; the four values of a field, applied to memory, read exactly its bits;
types are compatible exactly when they are built alike; the pass with its caches refines the one without,
writes what the candidates agree on where the relocation is, and it is shown exactly when the order of
the candidates plays a part.

**BTF for the kernel** (`BtfImage`, `Sanitizer`, `SanitizerProperties`, `SectionLayout`,
`SanitizedTypes`, `SecondRun`, `Ksyms`, `KsymsProperties`). The encoding of all kinds and its inverse, and
the two rewriting passes in place. Ids and names stay, the header stays exact, nothing the kernel rejects
is left, every type and section becomes what its kind demands, and it is shown exactly when a second pass
changes nothing.

**Reading the object** (`BtfExt`, `TextSections`, `TextTiling`). Debug sections are framed without loss
and parsed to exactly what they say, and text sections are cut into functions that tile them.

**Logging** (`LogRecord`, `Utf8`, `LogDecoder`, `LogRoundTrip`, `FormatString`, `FormatRoundTrip`). The
writer generated by the macros, the reader in user space and the format-string parser, with their round
trips. Text is UTF-8 as in section 4 of RFC 3629.

**Ring buffer sizes** (`RingBuffer`).

## Conventions

Machine integers are written out, and arithmetic that may overflow wraps, as in a release build. Words
are little-endian. A panic of the source is an error value (`Abort`, `Panic`, `MissingBtfId`,
`MissingSecondSlot`); where the source reads arbitrary bytes as an enum the model says `Undefined`. Hash
maps are walked in an arbitrary order. After an error the state of an object is not specified. Methods
are tied to specification functions, and the lemmas are about those.

Some results say where the code falls short of what one would expect, and give the exact condition:

- `SelfRelocationIsIdentity`, `RootIndexShows`: the local spec scales the root index by bytes
  (aya-obj/src/btf/relocation.rs:803), the target spec by bits (aya-obj/src/btf/relocation.rs:584-585),
  so the two agree only for root index 0.
- `SelfRelocationIsIdentity`, `TooLongShows`: a spec of exactly 64 parts is refused when it is to grow,
  so a longer path fails unless an anonymous chain steps over the 64th part.
- `MapPatchIsCall`, `OnePassEach`, `HelperCallBecomesLocal`: a map reference on a plain call, for a map
  without data, becomes a program-local call, because BPF_PSEUDO_MAP_FD and BPF_PSEUDO_CALL are both 1.
- `CandidateOrderIrrelevant`, `MixedOrderMatters`, `SizeShows`: candidates with and without a value, or
  with different sizes, are not reported as conflicting, so what is written can depend on their order.
- `OrderExact`, `OrderShows`: a relocation on the second slot of a patched load can overwrite, or be
  overwritten by, the upper immediate of that load, depending on the order of the hash map.
- `SecondRunSameFile`, `SecondRunShows`: sanitizing twice can fail, on a section with a slash in its
  name that has entries and no size.
- `ProgramOrderShows`: when programs call each other, the order in which they are linked decides whether
  the pass succeeds.
- `PcRelativeNeedsZeroBase`, `SectionAddressShows`: unrelocated calls are resolved from the section
  offset, not the address.
- `AcceptedButNotShown`: a reference to an array of 4, 6 or 16 bytes logged in hexadecimal is accepted
  by the macro, sent as an address kind, and makes the reader reject the record.
- `SettledStep`, `VoidCallPanics`: calling an extern declared as a variable of type void reaches an
  `expect` that fails.
- `SignedExactly`: an integer whose encoding combines flags in a way the loader does not know counts as
  signed.
- `PrintIsItself`, `PrintIsNotUnique`: braces of a literal may be paired across other braces.
- `TooLargeBecomesZero`: a ring buffer above 2^31 bytes gets size zero.

## Model

| member | source | states |
|---|---|---|
| Instructions.IsCallOpcode | aya-obj/src/relocation.rs:686-698 | the three opcode masks of `insn_is_call` and its register tests single out exactly the pseudo-call `0x85` with source 1, destination 0, offset 0 |
| Linker.FunctionLinker.Link | aya-obj/src/relocation.rs:495-504 | linking succeeds exactly when every callee in reach exists, agrees on func info and has a supported symbol; the linked keys are then exactly the functions in reach, each copied once, and the program is a complete linked image |
| Linker.FunctionLinker.LinkFunction | aya-obj/src/relocation.rs:506-542 | returns the recorded start of the block, appends it when it was not linked, never touches what was below the entry length, and leaves every block it added completely settled |
| Linker.FunctionLinker.Relocate | aya-obj/src/relocation.rs:544-656 | settles every slot of the function at the end of the program, keeps everything below its start, ends for every call graph |
| Linker.FunctionLinker.RelocateAt | aya-obj/src/relocation.rs:557-648 | one slot: the instruction read is still the original one although the array grew under the walk; it is left alone, patched to its callee, or rejected |
| Linker.FunctionLinker.LinkFuncAndLineInfo | aya-obj/src/relocation.rs:658-683 | func records move to the block start, line records keep their distances from the first one; 32-bit arithmetic |
| Linker.FunctionLinker.SettledMeansClosed | aya-obj/src/relocation.rs:495-656 | a finished program has settled a set of functions closed under calls |
| Linker.ReachableClosed | aya-obj/src/relocation.rs:506-542 | the functions in reach are themselves closed under calls, so reachability is the least set linking must produce |
| Linker.TiledSize | aya-obj/src/relocation.rs:518-528 | the program is the main body followed by disjoint blocks that tile it up to its length |
| Linker.AppendLayout | aya-obj/src/relocation.rs:518-531 | appending a function keeps the tiling and appends its debug records in block order |
| Linker.WalkCall | aya-obj/src/relocation.rs:554-648 | linking a callee in the middle of a walk disturbs neither the settled slots nor the ones still to come |
| LinkerSemantics.ResolveIsMeaning | aya-obj/src/relocation.rs:587-610 | in a section at address zero the callee the linker computes is the one the ELF addresses mean, for text, section and unrelocated calls |
| LinkerSemantics.LinkedInstruction | aya-obj/src/relocation.rs:636-647 | a linked slot is the original plain instruction, a call that lands on its callee, or a function reference that does |
| LinkerSemantics.StepCorresponds | aya-obj/src/relocation.rs:544-656 | one step of the object and one of the linked program keep the two runs at the same point |
| LinkerSemantics.LinkingPreservesRuns | aya-obj/src/relocation.rs:495-656 | every run of the linked program maps step for step onto a run of the object, recursion and callbacks included, for any effect of the other instructions; only the functions that were linked need to be well relocated |
| LinkerSemantics.LinkingPreservesResults | aya-obj/src/relocation.rs:495-656 | as long as the object stays inside its functions, the linked program has halted with a result after a number of steps exactly when the object has |
| LinkerSemantics.PcRelativeNeedsZeroBase | aya-obj/src/relocation.rs:600-610 | a call without a text relocation is linked to the function the ELF file means exactly when section offset and address agree |
| LinkerSemantics.SectionAddressShows | aya-obj/src/relocation.rs:600-610 | the input behind the condition: in a section at 0x1000 a call of the next function is taken for a call of address 8 |
| LinkerDebugInfo.FuncRecordsAreBlockStarts | aya-obj/src/relocation.rs:658-670 | the linked func records are exactly the block starts, 0 first, strictly increasing, each with its function’s type |
| LinkerDebugInfo.RebasedLinesFit | aya-obj/src/relocation.rs:671-682 | rebased line records stay increasing and inside the block; they keep their distance from the function start exactly when the first record sat there |
| LinkerDebugInfo.LineRecordsIncrease | aya-obj/src/relocation.rs:671-682 | the line records of the whole linked program are strictly increasing, the main ones first |
| LinkerDebugInfo.LineRecordsFollowTheCode | aya-obj/src/relocation.rs:671-682 | the line records of each block are its function’s own, moved inside the block |
| RelocateCalls.OverwritingIsHarmless | aya-obj/src/relocation.rs:210-244 | overwriting other programs in the function table changes neither whether a program links nor what it reaches, when nothing else points at them |
| RelocateCalls.LinkedAsOriginal | aya-obj/src/relocation.rs:210-244 | a program linked against the overwritten table is what the original table would have given |
| RelocateCalls.Object.RelocateCalls | aya-obj/src/relocation.rs:210-244 | each program is linked against the table the ones before it left, and the pass fails exactly where that cannot be done; for programs that are distinct and only refer to themselves, it succeeds exactly when all link against the original table, and each is then linked as in that table, in any order |
| ProgramOrder.ProgramOrderShows | aya-obj/src/relocation.rs:210-244 | a program that calls another one: with the caller first the pass cannot fail, with the callee first it must |
| Patching.FunctionBody.PatchExternRelocations | aya-obj/src/relocation.rs:247-365 | the body afterwards, or the error, is that of applying the relocations one after the other; kfunc calls, BTF ids, 64-bit addresses, poisoned and null-patched weak symbols |
| Patching.FunctionBody.RelocateMaps | aya-obj/src/relocation.rs:377-469 | the body afterwards, or the error, is that of applying the map references one after the other |
| Patching.FunctionBody.PatchMap | aya-obj/src/relocation.rs:459-465 | a map with data takes the symbol’s address plus the old immediate into its second slot; one without data only its descriptor |
| PatchingOrder.ClosedForm | aya-obj/src/relocation.rs:257-362 | when no two relocations clash, the result of a pass is given slot by slot, with no mention of an order |
| PatchingOrder.OrderIrrelevant | aya-obj/src/relocation.rs:186-195 | when no two relocations clash, the order in which the hash map yields the relocations changes neither success nor the result |
| PatchingOrder.OrderExact | aya-obj/src/relocation.rs:257-465 | for relocations at different offsets, in both passes: every order gives the same outcome exactly when the pass fails anyway or no two relocations clash; they clash when the second sits on the slot whose immediate the first sets and either writes another immediate or adds the one it finds to its own |
| PatchingOrder.SuccessExact | aya-obj/src/relocation.rs:257-465 | for relocations at different offsets, however they overlap, a pass succeeds exactly when each would alone on the original code; every slot is then its own relocation’s work, or what it was, up to the immediate |
| PatchingOrder.FailureExact | aya-obj/src/relocation.rs:257-465 | a pass fails with the error of the first relocation, in its order, that would fail alone |
| PatchingOrder.ClashShows | aya-obj/src/relocation.rs:257-465 | any two relocations that clash, among any others, have two orders of all of them that succeed and give different code |
| PatchedSlots.LeftByPass | aya-obj/src/relocation.rs:257-362 | whatever the other relocations are, what one of them writes is there after the pass: in its slot unless a later load overlaps it, in the second slot unless a later relocation sits there |
| PatchedSlots.FoundByPass | aya-obj/src/relocation.rs:257-362 | the instruction a relocation finds is the original one, unless a load that overlaps it came before; at most the immediate differs |
| PatchedSlots.MapLoaded | aya-obj/src/relocation.rs:377-469 | after the whole pass a reference to a map has the map’s descriptor and, with data, the value kind, and the second slot is the symbol’s address plus the immediate found, in 32 bits |
| PatchedSlots.SecondUntouched | aya-obj/src/relocation.rs:459-465 | a reference to a map without data leaves the slot after it as it was |
| PatchedSlots.MapLoadOverwritten | aya-obj/src/relocation.rs:459-465 | how a clash changes that: a later map reference on the second slot leaves its own descriptor there |
| PatchedSlots.KfuncCalled | aya-obj/src/relocation.rs:299-315 | after the whole pass a call of an extern is a kernel function call with the BTF id, or poisoned when it is weak and was not found; nothing else succeeds |
| PatchedSlots.KsymLoaded | aya-obj/src/relocation.rs:316-360 | after the whole pass a load of an extern has its BTF id, its 64-bit address, or null |
| PatchingProperties.OrderShows | aya-obj/src/relocation.rs:459-465 | the input behind the condition: a map reference on the second slot of a map value load gives different code in the two orders |
| PatchingProperties.SettledStep | aya-obj/src/relocation.rs:299-350 | after resolution no step finds an extern unresolvable, and the `expect` on the BTF id fails exactly on a call of a resolved extern without a type |
| PatchingProperties.VoidCallPanics | aya-obj/src/relocation.rs:299-305 | the input behind the condition: a strong extern declared as a void variable, found in kallsyms and called |
| PatchingProperties.ResolutionSuffices | aya-obj/src/relocation.rs:247-365 | for whole passes, with any relocations: never `UnresolvableSymbol`, and a missing BTF id only at a call of an untyped extern |
| PatchingOrder.MissingBtfIdExact | aya-obj/src/relocation.rs:247-365 | for relocations at different offsets a pass fails on the missing BTF id of an extern exactly when the first relocation that would fail alone calls that extern, resolved and untyped |
| PatchingProperties.AddressLoaded | aya-obj/src/relocation.rs:332-336 | the two immediates of the load of an untyped extern hold its 64-bit address |
| PatchingProperties.ExternPatchIsNoCall | aya-obj/src/relocation.rs:299-350 | what an extern patch writes is never a program-local call |
| PatchingProperties.MapPatchIsCall | aya-obj/src/relocation.rs:459-465 | a map patch writes a program-local call exactly on a plain call instruction with a map without data: BPF_PSEUDO_MAP_FD and BPF_PSEUDO_CALL are the same value |
| PassDisjointness.NewCalls | aya-obj/src/relocation.rs:247-469 | for relocations at different offsets, a pass turns a slot into a program-local call exactly when it patches a plain call with a map without data |
| PatchingProperties.HelperCallBecomesLocal | aya-obj/src/relocation.rs:459-465 | the input behind the condition: a helper call that names a map without data is left as a program-local call |
| PassDisjointness.OnePassEach | aya/src/bpf.rs:678-692 | for relocations at different offsets, run in their order, the map, extern and call passes never share a relocation, except that the linker also takes a map reference to text outside the known text sections, or one that became a call |
| Externs.ExternCollection.ResolveKallsyms | aya-obj/src/extern_types.rs:111-175 | succeeds exactly when all lines for wanted names have an address that parses, no two disagree, and no strong extern is left; the table is then given name by name |
| Externs.LineOrderIrrelevant | aya-obj/src/extern_types.rs:111-175 | success and the resulting table depend on which lines there are, not on their order |
| Externs.FirstAddressGiven | aya-obj/src/extern_types.rs:143-163 | an extern takes its address from some line that gives it a non-zero one, and stays without if there is none |
| Externs.ExternCollection.ResolveTyped | aya-obj/src/extern_types.rs:41-86 | succeeds exactly when every typed extern is found in the kernel’s BTF or is weak and merely missing or incompatible; then all found ones are resolved, to what `KernelLookup.LookupOf` finds |
| KernelLookup.FoundExactly | aya-obj/src/extern_types.rs:194-291 | an extern is found at exactly the first kernel type of its kind and name, functions without their flavour, when no name of the kind before it is unreadable and the types are compatible |
| KernelLookup.LookUp | aya-obj/src/extern_types.rs:194-291 | the lookup of one extern: found, missing, incompatible or broken, as in the source |
| Externs.ExternCollection.ResolveTypeless | aya-obj/src/extern_types.rs:89-108 | wants exactly the unresolved untyped externs, and nulls the weak ones that are not found |
| Externs.ExternCollection.ResolveExterns | aya-obj/src/extern_types.rs:17-31 | succeeds exactly when the typed and untyped parts do; afterwards every extern is settled: strong ones resolved by BTF id or address, missing weak ones null |
| Externs.FinalSettled | aya-obj/src/extern_types.rs:17-175 | what an extern ends up as after a successful resolution is settled |
| KernelReferences.TypedResolution | aya-obj/src/extern_types.rs:41-86 | a typed extern ends up with the id of the first kernel type of its name, built like its declaration all the way down; one that is missing is weak and null |
| KernelReferences.UntypedResolution | aya-obj/src/extern_types.rs:89-175 | an untyped extern ends up with an address some line gives it; one that no line gives one is weak and null |
| KernelReferences.ResolvableExactly | aya-obj/src/extern_types.rs:17-175 | resolution succeeds exactly when every strong extern is found where it is looked for, no comparison breaks, and the wanted lines of kallsyms can be read and do not contradict one another |
| KernelReferences.CallCarriesId | aya-obj/src/relocation.rs:299-360 | from the kernel’s BTF to the code: after resolution and the whole pass, the instruction carries the id of the kernel type that is what the extern declares |
| KsymCollection.CollectKsyms | aya-obj/src/btf/extern_types.rs:137-163 | reads the first ".ksyms" section into the extern table, making a placeholder exactly when it has functions |
| DeclaredKsyms.SectionFound | aya-obj/src/btf/extern_types.rs:48-60 | the section is the first called ".ksyms", and no section before it has an unreadable name |
| DeclaredKsyms.FunctionsFound | aya-obj/src/btf/extern_types.rs:62-71 | there are functions exactly when an entry is one |
| DeclaredKsyms.EntryCollected | aya-obj/src/btf/extern_types.rs:85-135 | an entry is collected exactly when it declares a function or variable that some symbol names; the extern is as weak as the first such symbol, and has no type exactly for void variables |
| DeclaredKsyms.LastEntryWins | aya-obj/src/btf/extern_types.rs:137-163 | the table holds the names of the entries, each with the last entry of that name |
| KsymPipeline.CollectedIsFixable | aya-obj/src/btf/extern_types.rs:137-163 | a section that was collected can be fixed up, and its fixup will satisfy the kernel: a placeholder is there or all entries are variables |
| KsymPipeline.UntypedAreVoid | aya-obj/src/btf/extern_types.rs:85-123 | an extern has no type only when it is declared as a variable of type void; functions always have one |
| KsymPipeline.CollectedCanBePatched | aya-obj/src/relocation.rs:247-365 | from declaration to patched code: never an unresolvable symbol, and a call panics only when it names a variable of type void |
| Btf.ResolveType | aya-obj/src/btf/btf.rs:1299-1319 | the type behind at most 32 modifiers and typedefs, itself none |
| Btf.ResolveExact | aya-obj/src/btf/btf.rs:1299-1319 | resolving finds the type at the end of a path of const, volatile, restrict, typedef and type tag, exactly when it is less than the given number away |
| Btf.FlavorlessExact | aya-obj/src/btf/relocation.rs:398-400 | a flavourless name is what comes before the first three underscores in a row |
| TypeSizes.TypeSizeExact | aya-obj/src/btf/btf.rs:422-455 | a computed size is what the declarations say: eight bytes for a pointer, length times element for an array, the stated size otherwise; and a size that is not zero is computed exactly when it fits into 32 bits |
| MemberSearch.SearchSound | aya-obj/src/btf/relocation.rs:593-667 | a member found is at the end of a chain of anonymous members, has the name and a compatible type, its bit offset is the sum along the chain, and no namesake comes before it at any level |
| MemberSearch.SearchComplete | aya-obj/src/btf/relocation.rs:593-667 | when a chain leads to a compatible member of the name and no namesake blocks it, the search finds that one or one before it in depth-first order |
| MemberSearch.SearchSucceeds | aya-obj/src/btf/relocation.rs:593-667 | where names can be read, types resolved and namesakes compared, the search fails exactly when the spec is full and there is a member to look at |
| AccessSpecs.AccessSpec.MatchMember | aya-obj/src/btf/relocation.rs:593-667 | records exactly the chain that was found, innermost index first, with one accessor and the summed bit offset, in 64 bits; not found or failed, it leaves the spec as it was |
| AccessSpecs.AccessSpec.New | aya-obj/src/btf/relocation.rs:789-891 | the accessors of a path and its bit offset in 64 bits, or the error, are those of walking it part by part |
| AccessSpecs.AccessSpec.MatchCandidate | aya-obj/src/btf/relocation.rs:534-590 | the target spec is that of matching accessor by accessor, its bit offset in 64 bits |
| AccessOffsets.RootMoves | aya-obj/src/btf/relocation.rs:797-803 | the first part moves by that many sizes of the root type |
| AccessOffsets.MemberMoves | aya-obj/src/btf/relocation.rs:808-848 | a part that names a member moves by the member’s bit offset, to its type |
| AccessOffsets.ElementMoves | aya-obj/src/btf/relocation.rs:850-874 | a part that indexes an array moves by eight times index times the size of an element, and the index is within the array or the array is the open end of a struct |
| AccessOffsets.StepExact | aya-obj/src/btf/relocation.rs:804-888 | when a part can be followed at all |
| AccessOffsets.IndexMatchMoves | aya-obj/src/btf/relocation.rs:556-587 | on a candidate an index moves by eight times index times the candidate’s or element’s size, and is within the candidate’s array |
| AccessOffsets.NoSuchElement | aya-obj/src/btf/relocation.rs:558-569 | a candidate does not match exactly when it has no array there, or a shorter one |
| AccessOffsets.NameMatchMoves | aya-obj/src/btf/relocation.rs:540-552 | on a candidate a name moves by what the member search found |
| AccessOffsets.AccessReadsField | aya-obj/src/btf/relocation.rs:1191-1322 | the four values of an access that ends at a member, applied to memory, read the field at its bit offset with the width its declaration gives it, on both byte orders |
| AccessOffsets.ElementValues | aya-obj/src/btf/relocation.rs:1209-1228 | an access that ends at an element has the byte offset of the access and the size of the element, and no other value |
| SelfRelocation.SearchFindsItself | aya-obj/src/btf/relocation.rs:593-667 | with distinct flattened names, searching for a member of a type in that type finds it |
| SelfRelocation.SelfMatch | aya-obj/src/btf/relocation.rs:464-591 | matching a field path against its own type succeeds exactly when it fits into a spec, and otherwise reports the nesting level; it gives the same accessors, and an offset that differs by the root index only |
| SelfRelocation.SelfRelocationIsIdentity | aya-obj/src/btf/relocation.rs:464-591 | a path that ends at a named member or an element is matched exactly when it has at most 64 parts or its 64th is an anonymous member; in the 64 bits of a spec the bit offset is then the same exactly when the byte offset of the root index is zero in 64 bits, short of an overflow exactly when the root index is zero or the root has no size: the local spec scales the root index by bytes, the target spec by bits |
| SelfRelocation.RootIndexShows | aya-obj/src/btf/relocation.rs:464-591 | the input behind the condition: the second of two four-byte values is 4 bits in by the local spec and 32 by the target’s |
| SelfRelocation.TooLongShows | aya-obj/src/btf/relocation.rs:464-591 | the input behind the other condition: a path of 65 parts through nested structs is read and not found again |
| Bitfields.LoadWindow | aya-obj/src/btf/relocation.rs:1253-1265 | the doubling loop, in 32-bit arithmetic, returns the window of the first size that passes its test, or fails at eight bytes |
| Bitfields.FitsUnwrapped | aya-obj/src/btf/relocation.rs:1253-1265 | the 32-bit test of the loop says that the window holds the field, at every bit offset |
| Bitfields.WindowIsLeast | aya-obj/src/btf/relocation.rs:1253-1265 | for declared sizes 1, 2, 4, 8 the window is the least aligned one that holds the field, and is missing exactly when the aligned eight bytes do not hold it |
| Bitfields.ShiftsInRange | aya-obj/src/btf/relocation.rs:1294-1304 | no subtraction of the shift formulas underflows, and both shifts are below 64 |
| Bitfields.LittleExtraction | aya-obj/src/btf/relocation.rs:1294-1304 | little-endian: load the window, shift left and right, and exactly the bits of the field are left |
| Bitfields.BigExtraction | aya-obj/src/btf/relocation.rs:1294-1304 | the same for the big-endian formula |
| Bitfields.ComputeFieldRelocation | aya-obj/src/btf/relocation.rs:1231-1322 | the value, size and type of a member relocation, or the error |
| Bitfields.RelocatedFieldIsExact | aya-obj/src/btf/relocation.rs:1231-1322 | the four values of one field belong together: loading and shifting by them gives the field on either byte order |
| Bitfields.PlainMember | aya-obj/src/btf/relocation.rs:1266-1284 | a member that is no bitfield is loaded from its own byte with the size of its type |
| Bitfields.MemberOffsetPacked | aya-obj/src/btf/types.rs:635-652 | with the kind flag, a member’s word is its width in the upper eight bits and its bit offset in the others |
| Bitfields.SignedExactly | aya-obj/src/btf/relocation.rs:1288-1293 | a field is signed exactly when its enum says so or its integer has the flag, and also when the integer’s flags are a combination the loader does not know |
| CoreRelocation.LookupUnique | aya-obj/src/btf/relocation.rs:267-312 | with aligned disjoint functions, the function a relocation is in is the one a fresh lookup finds |
| CoreRelocation.IndexInRange | aya-obj/src/btf/relocation.rs:314-322 | the instruction index is in range and its subtraction does not underflow |
| CoreRelocation.FindCandidates | aya-obj/src/btf/relocation.rs:421-462 | fails exactly when some type of the kind has an unreadable name; otherwise lists, in increasing order, exactly the types of the kind (or 64-bit enums for unions that replaced one) with the same name, flavours aside |
| CoreRelocation.CandidatesExact | aya-obj/src/btf/relocation.rs:421-462 | the same for every prefix of the table, and the error is that of the first unreadable name |
| CoreRelocation.MatchTarget | aya-obj/src/btf/relocation.rs:464-591 | what the local access means on a candidate, for type, enum and field relocations |
| TypeCompatibility.TypesAreCompatible | aya-obj/src/btf/types.rs:1464-1538 | the comparison of two whole types: the loop through pointers, elements and return types, and its recursion into parameters |
| TypeCompatibility.SelfCompatible | aya-obj/src/btf/types.rs:1464-1538 | a type that can be compared with itself is compatible with itself, when no integer starts inside its bytes |
| TypeCompatibility.Symmetric | aya-obj/src/btf/types.rs:1464-1538 | compatibility does not depend on which side is the program’s |
| TypeCompatibility.Transitive | aya-obj/src/btf/types.rs:1464-1538 | types compatible with a common one are compatible |
| TypeAgreement.CompatibleExact | aya-obj/src/btf/types.rs:1464-1538 | a comparison that ends says yes exactly when the two types, behind their modifiers, are built the same way down to every pointee, element, parameter and return type |
| TypeAgreement.PrototypesAlike | aya-obj/src/btf/types.rs:1512-1531 | two prototypes are alike exactly when they take as many parameters, each alike, and return alike |
| TypeAgreement.FieldsCompatibleExact | aya-obj/src/btf/types.rs:1540-1589 | a comparison of two fields that ends says yes exactly when they are of the same kind of field, element by element; enums and forward declarations of the same name |
| TypeAgreement.OtherParameterRefused | aya-obj/src/btf/types.rs:1512-1531 | an input: `int f(struct task *)` is not found as the kernel’s `int f(u64)` |
| CoreRelocation.NewSpec | aya-obj/src/btf/relocation.rs:680-896 | the local spec of a relocation of any kind, or the error |
| CoreDecisions.ReadableExactly | aya-obj/src/btf/relocation.rs:680-896 | when a relocation can be read: a type relocation has the path 0, a variant relocation the number of a variant, a field relocation a path that leads somewhere |
| CoreDecisions.KindFitsExactly | aya-obj/src/btf/relocation.rs:421-447 | a candidate is of the kind of the local type, or a 64-bit enum for what used to be one |
| CoreDecisions.TypeMeans | aya-obj/src/btf/relocation.rs:477-492 | a type relocation has a meaning on exactly the candidates built like its type |
| CoreDecisions.WrittenMeans | aya-obj/src/btf/relocation.rs:343-388 | what is written was computed on the first candidate with a meaning, and all others with one agree on place and value; or no candidate has one |
| CoreDecisions.DecidedOnCandidates | aya-obj/src/btf/relocation.rs:315-388 | the candidates are the kernel’s types of the kind and name of the local type |
| CoreDecisions.LocalIdNeedsNoKernel | aya-obj/src/btf/relocation.rs:333-341 | the id of a local type is written whatever the kernel’s types are |
| CoreDecisions.FieldSides | aya-obj/src/btf/relocation.rs:967-982 | the local value comes from the program’s types, the target value from the kernel’s, and one that cannot be computed there is missing |
| CoreDecisions.VariantSides | aya-obj/src/btf/relocation.rs:989-992 | the same for variants |
| CoreDecisions.Unmatched | aya-obj/src/btf/relocation.rs:967-996 | without a candidate existence is denied, other instructions are poisoned, and type ids and sizes fail |
| CoreDecisions.AppliedInPlace | aya-obj/src/btf/relocation.rs:297-396 | a relocation touches the instruction its offset falls into, of the only function with one there, and no other function |
| CoreDecisions.FailsInPlace | aya-obj/src/btf/relocation.rs:297-396 | it fails where no function has an instruction, or as deciding or applying fails |
| VariantValues.LocalVariant | aya-obj/src/btf/relocation.rs:719-787 | the local variant is the one at the index of the access string |
| VariantValues.VariantRelocated | aya-obj/src/btf/relocation.rs:1130-1180 | on a candidate the access means the first variant with the same name, flavours aside, and writes its value: 32-bit ones sign-extended, 64-bit ones of both halves |
| VariantValues.TypeValues | aya-obj/src/btf/relocation.rs:1325-1353 | a type relocation writes the id of the program’s or the kernel’s type, whether there is one, or its size |
| CoreRelocation.Relocator.CandidatesFor | aya-obj/src/btf/relocation.rs:333-341 | cached candidates are what a fresh search would find |
| CoreRelocation.Relocator.Decide | aya-obj/src/btf/relocation.rs:324-388 | the values a relocation writes, with the cache, are those without it |
| CoreRelocation.Relocator.FunctionFor | aya-obj/src/btf/relocation.rs:308-312 | the kept function or a fresh lookup: the same answer |
| CoreRelocation.Relocator.RelocateFunctions | aya-obj/src/btf/relocation.rs:297-396 | the pass with its two caches does what the simple form does that looks everything up afresh, error or code |
| CoreProperties.ChosenAgrees | aya-obj/src/btf/relocation.rs:361-388 | unless some matches at the place have a value and others none, the choice succeeds exactly when all matches agree, and otherwise reports a conflict |
| CoreProperties.MatchOrderIrrelevant | aya-obj/src/btf/relocation.rs:361-388 | the choice is the same in every order of the matches exactly when they are unambiguous |
| CoreProperties.CandidateOrderIrrelevant | aya-obj/src/btf/relocation.rs:343-388 | what is written is the same in every order of the candidates exactly when their matches are unambiguous: not mixed, and those that agree on place and value agree on everything; success never depends on the order |
| CoreProperties.MixedOrderMatters | aya-obj/src/btf/relocation.rs:366-381 | candidates whose matches are mixed, some with a value and some without, have another order in which another value, or none, is written |
| AmbiguousCandidates.SizeShows | aya-obj/src/btf/relocation.rs:366-381 | a kernel with two structs of one name, with a u32 and a u64 member at offset 0: the two orders of the candidates, and two kernels that differ in the order of the structs only, leave a four-byte and an eight-byte load |
| CoreProperties.SanitizedEnumRelocates | aya-obj/src/btf/btf.rs:736-789 | a 64-bit enum turned into a union keeps its variants, names and 64-bit values for enum relocations, and finds the same candidates and more |
| CoreProperties.AppliedExactly | aya-obj/src/btf/relocation.rs:998-1128 | what is left in the instruction: the value as 64-bit immediate pair, 32-bit immediate or offset, the target’s width with the rest of the opcode kept, other slots untouched |
| CoreProperties.AppliesExactly | aya-obj/src/btf/relocation.rs:1038-1128 | when a value can be written: into an immediate operand, a memory access whose 15-bit offset and width take it, or a 64-bit load with its second slot |
| CoreProperties.PoisonedExactly | aya-obj/src/btf/relocation.rs:1017-1036 | without a value the instruction, both slots of a 64-bit load, becomes a call of helper 0xBAD2310, and nothing else is changed |
| BtfImage.ReadBackType | aya-obj/src/btf/types.rs:1166-1339 | an encoded type is read back, whatever follows it |
| BtfImage.EncodedSizeExact | aya-obj/src/btf/types.rs:1286-1364 | `type_info_size` is the number of bytes `to_bytes` writes, for every kind but the unused `Unknown` |
| BtfImage.ReadTypeInfo | aya-obj/src/btf/btf.rs:347-371 | the types of a section, read until it is used up |
| BtfImage.ParseBack | aya-obj/src/btf/btf.rs:321-371 | parsing a written image with a canonical header gives back header, types and strings |
| Sanitizer.FeatureResolver.IsSupported | aya-obj/src/btf/btf.rs:213-225 | the kernel is asked about a feature at most once, and answers stay |
| Sanitizer.BtfObject.AddString | aya-obj/src/btf/btf.rs:286-293 | appends the string, returns its offset, updates the header |
| Sanitizer.BtfObject.AddType | aya-obj/src/btf/btf.rs:246-254 | appends the type, returns its id, moves the strings by its size |
| Sanitizer.BtfObject.SanitizeDataSec | aya-obj/src/btf/btf.rs:511-542 | a section becomes a struct of its variables |
| Sanitizer.BtfObject.FixupDataSec | aya-obj/src/btf/btf.rs:547-662 | a section gets its size and variable offsets, or a filler |
| Sanitizer.BtfObject.SanitizeAt | aya-obj/src/btf/btf.rs:497-792 | one type is rewritten as its kind and the kernel’s answers demand |
| Sanitizer.BtfObject.SanitizeTypes | aya-obj/src/btf/btf.rs:490-796 | the loop over the original types computes the specified run, under answers that are each asked once |
| Sanitizer.BtfObject.FixupAndSanitize | aya-obj/src/btf/btf.rs:474-796 | the section of extern symbols is fixed first, when there are externs, and then the types |
| Sanitizer.StepStable | aya-obj/src/btf/btf.rs:213-225 | answers learned later never change what earlier ones decided |
| SanitizerProperties.StepKeepsImage | aya-obj/src/btf/btf.rs:497-792 | rewriting one type keeps the header exact, all references in range and every other type |
| SanitizerProperties.RunKeepsImage | aya-obj/src/btf/btf.rs:474-796 | a run keeps the image well formed and adds at most three types |
| SanitizerProperties.IdsStable | aya-obj/src/btf/btf.rs:474-796 | the type at an id is what rewriting made of it at its turn; until then it was what it had been |
| SanitizerProperties.NamesKept | aya-obj/src/btf/btf.rs:286-293 | every name offset that could be read still reads the same string |
| SanitizerProperties.SanitizingIsComplete | aya-obj/src/btf/btf.rs:474-796 | afterwards no type, old or added, is of a kind, signedness or linkage the kernel rejected |
| SectionLayout.SectionsFilledIn | aya-obj/src/btf/btf.rs:547-662 | after a run every section has the size it came with or the one of the ELF file, its static variables are where they were, and all others have the offsets of their symbols; one that the kernel wants not empty has the filler |
| SanitizedTypes.TypesBecome | aya-obj/src/btf/btf.rs:474-796 | after a run every type is what its kind becomes under the kernel’s answers: the same type, or one that keeps its name, size, members, parameters and values |
| SanitizedTypes.DecimalReads | aya-obj/src/btf/btf.rs:664-670 | parameters without a name are numbered in decimal digits |
| SecondRun.SecondRunChangesNothing | aya-obj/src/btf/btf.rs:474-796 | a second run under answers that do not contradict the first changes nothing whatever the ELF file, exactly when every section ended with a size |
| SecondRun.SecondRunExact | aya-obj/src/btf/btf.rs:474-796 | for any one ELF file, it changes nothing exactly when that file has every section without a size under its present name, empty, with its symbols where they are |
| SecondRun.SecondRunSameFile | aya-obj/src/btf/btf.rs:474-796 | for the same ELF file, exactly when every section of the input that has entries and no size, and is empty in the file, is there and empty under its name without slashes too |
| SecondRun.SecondRunShows | aya-obj/src/btf/btf.rs:511-542 | the input behind the condition: section a/b of size 0 with one static variable; the second run looks for a.b and fails |
| SanitizerProperties.SanitizedImageParses | aya-obj/src/btf/btf.rs:458-464 | the sanitized image, written and parsed, gives back its header, types and strings, apart from the enum values kept beside the unions |
| Sanitizer.BtfObject.CreateKsymFuncPlaceholder | aya-obj/src/btf/extern_types.rs:16-45 | a global variable of a four-byte integer, which is added when there is none |
| Sanitizer.BtfObject.FixupKsymsDatasec | aya-obj/src/btf/btf.rs:805-925 | succeeds exactly when section, placeholder and all entries are usable, and the types are then given id by id; otherwise the error is that of the placeholder, the section or the first bad entry |
| Ksyms.FuncStep | aya-obj/src/btf/btf.rs:867-895 | a function entry changes three types: the function, its prototype and the section |
| Ksyms.VarStep | aya-obj/src/btf/btf.rs:896-908 | a variable entry changes the variable and the section |
| KsymsProperties.FixupKeepsImage | aya-obj/src/btf/btf.rs:805-925 | the fixed image is well formed, strings are only added, and no id moves: every type keeps its kind and name, and all but the section, its entries and their prototypes stay as they were |
| KsymsProperties.FixupSatisfiesKernel | aya-obj/src/btf/btf.rs:798-925 | the entries tile the section in four-byte steps exactly when there are fewer than 2^30, and all are global integer variables exactly when there is a placeholder or no entry was a function |
| KsymsProperties.TypesFixed | aya-obj/src/btf/btf.rs:805-925 | after the fixup functions among the entries are global, variables global integers, the parameters of those functions have a name, and the placeholder stands for every function in the section |
| KsymsProperties.EntryErrorExactly | aya-obj/src/btf/btf.rs:851-908 | what is reported of an entry that cannot be fixed: it is neither a function nor a variable, its name cannot be read, or a type is missing |
| KsymsProperties.LayoutSurvives | aya-obj/src/btf/btf.rs:474-796 | when the kernel knows sections, sanitizing leaves the layout of the section and what the kernel takes of it |
| KsymsProperties.SecondFixupChangesNothing | aya-obj/src/btf/btf.rs:805-925 | fixing the section twice is fixing it once |
| KsymsProperties.PreparedForKernel | aya-obj/src/btf/btf.rs:474-925 | both passes together: well formed, nothing rejected left, all entries what the kernel takes, and the section tiled by them exactly when there are fewer than 2^30 |
| BtfExt.SecInfoIter.Next | aya-obj/src/btf/btf.rs:1213-1256 | the next block; an error empties the iterator like the end does |
| BtfExt.BlocksCover | aya-obj/src/btf/btf.rs:1213-1256 | the blocks yielded, headers and data, are the subsection up to the first error; without one nothing is left over |
| BtfExt.BlocksReadBack | aya-obj/src/btf/btf.rs:1213-1256 | writing whole blocks and reading them gives them back |
| BtfExt.ChunksExact | aya-obj/src/btf/info.rs:43-60 | the data of a block is exactly as many records as it says, none cut short, and together they are the data |
| BtfExt.FuncRecords | aya-obj/src/btf/info.rs:36-67 | the record parser cannot fail, and its count is the length of its list |
| BtfExt.LineRecords | aya-obj/src/btf/info.rs:128-170 | the same for line records |
| BtfExt.Parse | aya-obj/src/btf/btf.rs:987-1155 | a result is returned exactly when the section says it: a header, record sizes that are big enough, three subsections made of whole blocks, a name for every func and line block; each name has the records of the last block for it, and relocations are the blocks themselves |
| BtfExt.ParseExact | aya-obj/src/btf/btf.rs:987-1155 | the same about the specification: what is parsed, if anything, is the one thing the bytes say |
| BtfExt.SubsectionRead | aya-obj/src/btf/btf.rs:1047-1086 | a record size and blocks are read without an error exactly when the bytes are that size followed by those whole blocks |
| BtfExt.HeaderReadsBack | aya-obj/src/btf/btf.rs:1005-1046 | a header, cut where it says it ends, is read back when only zeros are cut off |
| BtfExt.FuncRecordReadsBack | aya-obj/src/btf/info.rs:36-67 | a func record that was written is read back, its byte offset as an instruction index |
| BtfExt.LineRecordReadsBack | aya-obj/src/btf/info.rs:128-170 | the same for a line record |
| TextSections.ObjectCode.SymbolsByAddress | aya-obj/src/obj.rs:640-655 | fails exactly when two text symbols of the section share an address; otherwise it indexes exactly the text symbols |
| TextSections.ObjectCode.ParseTextSection | aya-obj/src/obj.rs:639-708 | files the functions cut from the section, in order, and its relocations by offset |
| TextTiling.CarvedTiles | aya-obj/src/obj.rs:657-692 | the functions tile the section, and their instructions in order are the section’s |
| TextTiling.CarvedAddresses | aya-obj/src/obj.rs:657-692 | a function is at the address of its section plus its offset, in 64 bits |
| TextTiling.CutsIffCarved | aya-obj/src/obj.rs:657-692 | a section is accepted exactly when its symbols cut it into whole functions |
| TextTiling.CarvedIsFiled | aya-obj/src/obj.rs:675-690 | every function is found under its own key, and other sections keep theirs |
| TextTiling.TiledIsTidy | aya-obj/src/obj.rs:657-692 | the functions are aligned and disjoint, as CO-RE relocation needs them |
| TextTiling.LinesKept | aya-obj/src/obj.rs:1446-1460 | no line record of the section is lost, repeated or moved |
| TextTiling.CarvedIsDescribed | aya-obj/src/obj.rs:1427-1467 | with one func record each, the functions carry the debug records the linker’s guarantees start from |
| TextTiling.InsnReadsBack | aya-obj/src/obj.rs:1415-1425 | an instruction is read as the object file has it: opcode, registers, signed offset and immediate (RFC 9669, section 3) |
| TextTiling.FuncsExact | aya-obj/src/obj.rs:1427-1445 | the func records of a function are those at its first instruction, each as often as it is there |
| TextTiling.RelocationsFiled | aya-obj/src/obj.rs:696-704 | relocations are filed by offset; of two at one offset the later one stays |
| LogRecord.SizeOf | aya-log-ebpf-macros/src/expand.rs:197-205 | the size pass counts exactly the bytes of the record |
| LogRecord.CapacityFor | aya-log-ebpf-macros/src/expand.rs:212-219 | the least power of two that is at least 64 and the size, none above 8192, without 16-bit overflow |
| LogRecord.Reserved.Op | aya-log-ebpf-macros/src/expand.rs:224-230 | copies a slice to the current position, or nothing when it does not fit |
| LogRecord.Reserved.WriteField | aya-log-common/src/lib.rs:331-337 | kind, length and value, in this order |
| LogRecord.Log | aya-log-ebpf-macros/src/expand.rs:179-243 | submitted exactly when every field and the record fit and the ring has room; then the record is at the start of a buffer of the least sufficient size; never discarded |
| LogDecoder.LogBuf | aya-log/src/lib.rs:509-823 | the header and message of any buffer: decoded, malformed, or undefined where the source reads a number as an enum; names that are not UTF-8 are rejected, such strings dropped |
| Utf8.TextIsEncoded | aya-log/src/lib.rs:538-566 | what passes as text is what some characters encode to |
| Utf8.EncodedIsText | aya-log/src/lib.rs:538-566 | and what characters encode to passes |
| LogDecoder.CodesReadBack | aya-log-common/src/lib.rs:11-26 | levels, hints and argument kinds are recovered from their codes |
| LogRoundTrip.HeaderReadsBack | aya-log/src/lib.rs:519-594 | the six header fields are read back and what follows them is left |
| LogRoundTrip.ArgsReadBack | aya-log/src/lib.rs:596-789 | the argument list is read back, one effect each |
| LogRoundTrip.RecordReadsBack | aya-log/src/lib.rs:509-823 | a record is read back as written, whatever padding follows it |
| LogRoundTrip.OwnHints | aya-log/src/lib.rs:596-789 | every value is shown with its own hint although strings leave theirs behind; the record is rejected exactly when a value cannot be shown with it |
| LogRoundTrip.LogAndRead | aya-log-ebpf-macros/src/expand.rs:104-243 | from log statement to message: the expected pieces, or a rejected record when one value cannot be shown |
| LogRoundTrip.AcceptedButNotShown | aya-log/src/lib.rs:309-422 | what the macro accepts can be shown, except references to byte arrays of length 4, 6 or 16 in hexadecimal |
| LogRoundTrip.WidthsAgree | aya-log/src/lib.rs:604-760 | the reader expects of each kind the number of bytes that the types sent as it have |
| FormatString.PushLiteral | aya-log-parser/src/lib.rs:21-53 | the literal with its doubled braces undone, or the unmatched brace |
| FormatString.Parse | aya-log-parser/src/lib.rs:81-127 | the fragments of a format string, or the error |
| FormatRoundTrip.LiteralReadsBack | aya-log-parser/src/lib.rs:21-53 | doubling the braces of a text and parsing it gives the text |
| FormatRoundTrip.PrintThenParse | aya-log-parser/src/lib.rs:81-127 | printing fragments without empty or adjacent texts and parsing gives them back |
| FormatRoundTrip.ParsedIsCanonical | aya-log-parser/src/lib.rs:81-127 | what is parsed has no empty and no adjacent texts |
| FormatRoundTrip.ParsePrintParse | aya-log-parser/src/lib.rs:81-127 | an accepted string means the same as the string printed from its fragments |
| FormatRoundTrip.PrintIsItself | aya-log-parser/src/lib.rs:21-127 | an accepted string is what its fragments print as exactly when, outside of parameters, every closing brace stands next to its twin |
| FormatRoundTrip.PrintIsNotUnique | aya-log-parser/src/lib.rs:21-53 | the input behind the condition: an accepted string that is not what its fragments print as |
| RingBuffer.AdjustedIsLeast | aya/src/bpf.rs:993-1008 | for requests up to 2^31: the least power-of-two multiple of the page size not below the request, within 32 bits, and a fixed point |
| RingBuffer.TooLargeBecomesZero | aya/src/bpf.rs:993-1008 | above 2^31 the product wraps around to zero |
| RingBuffer.RingIsAdjusted | aya/src/bpf.rs:949-964 | with or without an override, a ring buffer gets the adjusted size |

## Left out

- LinkerSemantics.LinkingPreservesRuns: assumes, of the functions that are linked, sections at address zero and relocated function references, and programs below 2^31 instructions, and says nothing once the object's control leaves the body of its function.
- RelocateCalls.Object.RelocateCalls: the equivalence with the original table is for programs that are distinct and are referred to by themselves only; ProgramOrder.ProgramOrderShows gives the reason.
- LinkerDebugInfo.FuncRecordsAreBlockStarts: assumes one func record per function, and line records in its own range; TextTiling.CarvedIsDescribed derives this for parsed sections.
- Externs.ExternCollection.ResolveKallsyms: splitting lines and reading hexadecimal numbers is given; which of several possible errors is reported is not stated.
- Externs.ExternCollection.ResolveTyped: which of several possible errors is reported is not stated; prototypes of the object do not reach themselves through a parameter.
- AccessSpecs.AccessSpec.New: the access string is given as its numbers; splitting the text is not modelled.
- SelfRelocation.SelfRelocationIsIdentity: assumes acyclic containment by value, members compatible with themselves and distinct names within a type.
- MemberSearch.SearchComplete: assumes acyclic containment by value; with a cycle the source does not end.
- CoreRelocation.MatchTarget: assumes acyclic containment by value in the kernel's types, and local prototypes that do not reach themselves through a parameter; otherwise the source does not end.
- CoreRelocation.Relocator.RelocateFunctions: one section at a time; the loop over sections and the lookup of their names are not modelled, and functions are aligned and disjoint, as TextTiling.TiledIsTidy shows for parsed ones.
- TypeAgreement.CompatibleExact: for comparisons that end; one that goes down more than 32 pointers, elements and return types is an error.
- Bitfields.RelocatedFieldIsExact: for declared sizes 1, 2, 4 and 8.
- SanitizerProperties.SanitizedImageParses: the image must stay below 4 GiB; in memory, string offsets and type ids are unbounded.
- BtfImage.ReadBackType: reserved bits of the info word and big-endian images are not modelled.
- BtfExt.Parse: relocation records stay bytes; two blocks for one section name replace each other, as in the source.
- TextSections.ObjectCode.ParseTextSection: the debug records of the section are given; program sections with one function each are not modelled.
- CoreProperties.CandidateOrderIrrelevant: which of several failures is reported does depend on the order, and is not stated.
- PatchingOrder.OrderExact: treats all failures alike; PatchingOrder.FailureExact says which one an order gives.
- LogRecord.Log: the level filter and the attributes of the ring buffer are not modelled; the ring has room or not.
- LogDecoder.LogBuf: values are decoded to kind, bytes and hint, not rendered to text.
- LogRoundTrip.AcceptedButNotShown: for types that can be logged; `bool` and `char`, which have a formatter and no encoding, do not compile.
- BTF strings are bytes: replacing invalid UTF-8 on reading is not modelled.
- Reading ELF files, sections and symbols is given as data.
- Kernel feature probes, system calls, map creation, pinning and program loading are kernel or library behaviour.
- Parsing of map definitions, program sections and names, and the construction of programs in `load`, are long but have one branch each.
- The text of error messages and debug logging is not modelled.
- Code generation outside of logging, the command-line tools, build scripts and the test infrastructure.
