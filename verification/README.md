# Verification of the Cexp loader and its helpers

This project models the hard parts of Cexp, a run-time object loader, linker and expression
interpreter written in C, and proves what they keep.  Each file holds one component; routines that
change things in place are Dafny methods proved against a specification function or predicate, and the
main results are lemmas about those specifications, over all inputs, all runs or all interleavings.

| files | component |
|---|---|
| `LoaderSpec`, `LoaderRuns`, `LoadResults`, `CexpModules`, `Bitmap` | the list of modules: loading, unloading, ids, dependency bitmaps, symbol resolution |
| `SymNames`, `SymTbl`, `AddrRange`, `Qsort` | symbol tables: name order, sort and de-duplication, bisection, nearest addresses |
| `Layout`, `Commons`, `Arith` | link-time memory layout, common symbols, alignment arithmetic |
| `RWLock` | the readers/writer lock made of a recursive mutex and a binary event |
| `ElfCodec`, `ElfFile`, `ElfReader`, `ElfCopy`, `ElfBytes` | records in either byte order, the reader of object files, the symbol table copier, both in terms of bytes |
| `RelocMemory`, `PpcReloc`, `SparcReloc` | relocation for PowerPC and SPARC, the PowerPC text region |
| `Comdat`, `GnuHash`, `Vars` | section groups, dynamic symbol count, variables and strings |
| `TypedValues`, `TypedResults`, `Rounding` | typed values of the interpreter, results in numbers, floating point numbers |

Run `dafny verify dfyconfig.toml` to check everything.

## Main results

* **Loading and unloading.**  A state is the list of modules with ids, `needs`, `neededby`, symbol
  tables and the references resolved at load time.  Over every run of loads (successful or not) and
  unloads (accepted or not) from the empty list, `neededby` is the exact converse of `needs`, every
  dependency points to an earlier list element, every reference still names a loaded module that exports
  that name at that value and cannot be unloaded, and each exported name has one owner, so that lookup
  does not depend on the list order.  `LoadResults` says, on the fields of the file and the loaded modules,
  when a load or an unload succeeds, and what a new module exports, refers to and needs.  The linked list of
  records with its bitmaps is proved to take exactly these steps.
* **Symbol tables.**  Sorting keeps the set of names if and only if the greatest name occurs once.
* **Nearest addresses.**  The merge with early exits gives "collect, sort, slice" if and only if the
  first symbols it skips are far enough from the address; both sides are conditions on the input.
* **Layout.**  Whatever the first pass reserves suffices for the second: placed sections are aligned,
  disjoint, inside their chunks, and the "segment of size 0" error cannot occur; the zero that ends the last
  exception frame table has memory of its own (`Layout.ZeroHasRoom`).  Common symbols, sorted and
  packed into one more section, end up aligned, disjoint and inside that memory (`Commons.PlaceCommons`).
* **Lock.**  In every interleaving of loads and stores of any number of threads the reader count is the
  number of read locks held and a writer excludes everybody else; calls that nobody disturbs complete.
* **Object files.**  What the copier writes is read back as the same symbols and names, for both
  classes, both byte orders of the file and both byte orders of the host; which files are accepted and what
  is read from which offset is stated on their bytes (`ElfBytes`).
* **Relocation.**  Bits outside the field survive, and accepted fields decode to the value, type by type.
* **Section groups.**  In a file whose COMDAT groups are disjoint and duplicate-free and precede their
  members, converting all section headers closes every ring, and eliminating known groups afterwards takes
  the memory of exactly the members before the first skipped one, and of nothing else.
* **Typed values.**  Casts that are not forced never change a number, because `fits` lets only integers pass
  that the floating point type can hold; comparison is exact, and arithmetic is modular or rounds to nearest.

## Where the code does less than its users may expect

Each of these is a precondition below or has its exact condition proved, by the lemmas that are named.

* `_cexp_namecomp` is not an order on names with `@` (`SymNames.Antisymmetric` says exactly when two
  names disagree, `SymNames.VersionedNamesBreakTheOrder` shows some).  Tables are proved correct for names
  without `@` and without characters that are negative as a signed `char`.
* `cexpSortSymTbl` replaces the last entry by its own marker when the greatest name is repeated
  (`SymTbl.SortKeepsNames`, `SymTbl.EqualNamesLeaveMarker`).
* A load that keeps no symbol at all dereferences a null table; a loadable file has a symbol to keep.
* A common symbol reuses the owner's instance only if that is large and aligned enough; otherwise the load
  fails (`LoaderRuns.RedefinitionFails`).
* `idAlloc` never retries the last id it handed out, so that it can fail with one id free
  (`LoaderRuns.AllocSucceeds`, `LoaderRuns.LastIdIsNotReused`).
* `cexpSymLkAddrRange` skips the first symbol of a module if that is above the address
  (`AddrRange.FirstSymbolMissed`); without a margin such a module can even keep better entries of later
  modules out (`AddrRange.OnlySlotTaken`).  `AddrRange.RightExactlyWhen` is the condition for both.
* `pmbfd_perform_relocation` for PowerPC accepts absolute branches of one bit more than the field has
  (`PpcReloc.AbsoluteBranchReaches`, `PpcReloc.AbsoluteBranchMisses`); for SPARC it compares the type with
  the size of its table in bytes.
* The text region of `cexpSegsInit` leaves the memory below 32M if that ends in front of its first aligned
  address (`PpcReloc.RegionFits`); the check for 1000 bytes keeps such a region unused.  After a creation
  that failed, memory from the linker script is taken to start at address 0 (`PpcReloc.RetryStartsAtZero`).
* `align_size_compare` turns an unsigned difference into an `int`: it orders two alignments correctly
  exactly if they are less than 2^31 apart (`Commons.ComparesWhenNear`).
* `p -= q` on pointers asks for the element size after the type of `p` was overwritten
  (`TypedValues.OverwrittenDifferenceIsRight`, `TypedValues.CharactersCountAsLongs`).
* `fits` refuses every integer from 2^24 on for a float, also those that a float holds, such as 2^24
  (`TypedValues.IntegerToFloating`, `TypedValues.TwoToThe24IsRefused`).
* `fits` does not look at pointers: an address becomes a float without complaint even if digits are lost
  (`TypedResults.PointerLosesDigits`).
* A reader that asks for the write lock, which the comment in the code forbids, is outside the rules the
  lock is proved for.  Only safety is claimed: of several sleeping writers only one is woken.
* The address arithmetic of the layout relies on chunks that end in front of the last address: otherwise
  a valid counter could look like the invalid mark.

## Model

| member | source | states |
|---|---|---|
| Bitmap.SetIn | cexpmodP.h:63 | the macro is insertion into the set of ids, for words of 32 and 64 bits, bit 31 included |
| Bitmap.ClrIn | cexpmodP.h:64 | the macro is removal from the set of ids |
| Bitmap.MaskOwns | cexpmodP.h:62-68 | positions 31 and up of a wide word belong to bit 31 alone, in the mask and in its complement |
| Bitmap.EmptyIffZero | cexpmod.c:582-589 | the set is empty exactly if all words are zero, so testing whole words is right |
| Bitmap.AnyBit | cexpmod.c:582-589 | the dependency check of the unload routine answers whether any module is recorded |
| LoaderSpec.LookupMod | cexpmod.c:155-174 | the first module in list order that knows the name, none exactly if no module does |
| LoaderRuns.NextFreeIsFirst | cexpmod.c:692-697 | from any point of the cyclic search the result is the nearest unused id, or every unused id has been passed |
| LoaderRuns.AllocSucceeds | cexpmod.c:677-702 | allocation succeeds exactly if some id other than the last one is unused, and gives the nearest |
| LoaderRuns.KeptAreNew | bfdstuff.c:1209-1296 | a kept symbol that is no section name was unknown to all loaded modules: borrowed ones are not exported |
| LoaderRuns.AllLoansAreLookups | bfdstuff.c:1209-1296 | every reference a load takes, in symbol resolution or relocation, is what a lookup of the name finds |
| LoaderRuns.AppendConverse | cexpmod.c:660-668 | announcing a new module to those it needs keeps `neededby` the converse of `needs` |
| LoaderRuns.AppendRefs | bfdstuff.c:1039-1054 | the references of a new module resolve, and the lender is recorded as needed |
| LoaderRuns.AppendOwned | bfdstuff.c:1201-1300 | appending a module keeps one owner for each name |
| LoaderRuns.LoadKeepsInv | cexpmod.c:850-931 | a load keeps the whole invariant, whether it succeeds or fails |
| LoaderRuns.UnloadKeepsInv | cexpmod.c:560-619 | an unload keeps the whole invariant, whether it is accepted or rejected |
| LoaderRuns.RunKeepsInv | cexpmod.c:560-931 | the invariant holds in every state of every run |
| LoaderRuns.RecordsPersist | cexpmod.c:560-931 | a module that stays loaded keeps id, table and references through any further steps |
| LoaderRuns.ReferencesStayGood | bfdstuff.c:805-856 | in every reachable state each resolved reference names an earlier, loaded module that exports the name at that value and that cannot be unloaded |
| LoaderRuns.UniqueOwner | bfdstuff.c:1201-1300 | an exported name has exactly one owner, found by lookup whatever else is loaded |
| LoaderRuns.BorrowedIsNotExported | bfdstuff.c:1039-1054 | a module does not export a name that it refers to in another module |
| LoaderRuns.NoCycle | cexpmod.c:660-668 | a chain of dependencies of any length leads towards the front of the list |
| LoaderRuns.LastCanGo | cexpmod.c:560-603 | the last module passes the dependency check; only its finalizer can refuse |
| LoaderRuns.LastIdIsNotReused | cexpmod.c:692-697 | with all ids in use but the last one handed out, the search fails |
| LoaderRuns.RedefinitionFails | bfdstuff.c:1233-1291 | a second definition of an owned name is borrowed exactly if it is weak, or common and the owner's instance is large and aligned enough; any other makes the load fail |
| LoaderRuns.RedefinitionReuses | bfdstuff.c:1233-1273 | after a load that succeeds, each second definition is a reference of the new module to the owner's instance, and the owner is among its needs |
| LoaderRuns.UnloadUndoesLoad | cexpmod.c:560-619 | unloading right after loading restores every other record |
| LoadResults.EntriesAreExports | bfdstuff.c:398-464 | every entry of a new table is a symbol of the file that is exported, a section name, one of a shared library or weak, with its address, size and flags |
| LoadResults.ExportsAreEntries | bfdstuff.c:1201-1298 | every such symbol has its name in the new table, with its own address and size if no other symbol has the name |
| LoadResults.RefsExactly | bfdstuff.c:1039-1054 | the references of a new module are exactly those of its second definitions and of its relocations against other modules |
| LoadResults.NeedsExactly | bfdstuff.c:1039-1054 | a module is needed exactly if it is referred to |
| LoadResults.RelocationIsRecorded | bfdstuff.c:805-856 | a relocation against a symbol of another module leaves a reference with its value, a dependency, and a provider that cannot be unloaded |
| LoadResults.LoadsExactlyWhen | cexpmod.c:818-942 | a load appends a module exactly if name and id are free, nothing fails outside, no definition clashes, callbacks are unique and every relocation has a target; otherwise no module changes |
| LoadResults.UnloadsExactlyWhen | cexpmod.c:560-603 | a module goes exactly if it is listed, not the first, needed by none and not vetoed; otherwise nothing changes |
| LoadResults.OthersStay | cexpmod.c:598-621 | all other modules stay in their order; only the id of the one that went leaves their records |
| LoadResults.SystemStays | cexpmod.c:560-603 | over every run the first module loaded stays first |
| CexpModules.Registry.Predecessor | cexpmod.c:127-137 | the record in front of the given one, null if there is none |
| CexpModules.Registry.SymLookup | cexpmod.c:155-174 | walking the list and bisecting each table finds the first module and the entry of that name |
| CexpModules.Registry.IdAlloc | cexpmod.c:677-702 | the record gets the nearest unused id and the static id follows; nothing changes on failure |
| CexpModules.Registry.MarkUsed | cexpmod.c:684-690 | the bitmap built from the list is the set of ids in use |
| CexpModules.SearchFree | cexpmod.c:692-699 | the loop terminates and computes the cyclic search |
| CexpModules.Registry.ResolveSyms | bfdstuff.c:1093-1301 | no error is counted exactly if no symbol is rejected and callbacks are unique; the bitmap holds exactly the lenders |
| CexpModules.Registry.ResolveOne | bfdstuff.c:1201-1298 | one symbol is skipped, kept, made common, borrowed or rejected as the rules say |
| CexpModules.Registry.Depend | bfdstuff.c:1039-1054 | the lender is added to the dependency bitmap |
| CexpModules.Registry.Relocate | bfdstuff.c:777-862 | no error is counted exactly if every relocation has a target; lenders are recorded even when slots are replaced on the way |
| CexpModules.Registry.ResolveReloc | bfdstuff.c:805-861 | the target behind an undefined symbol, `__dso_handle` of the system included |
| CexpModules.Filter | cexpsyms.c:315-337 | the kept symbols are copied in order |
| CexpModules.Registry.LoadFile | bfdstuff.c:1475-1740 | success exactly if all phases succeed; table, bitmap and references of the new record are those of the file |
| CexpModules.Registry.AddDependencies | cexpmod.c:660-668 | every needed module's record is announced to, no other changes |
| CexpModules.Registry.FindTail | cexpmod.c:839-847 | tells whether the name is taken and where the list ends |
| CexpModules.Registry.Append | cexpmod.c:925-929 | the list is the old one with the record at its end |
| CexpModules.Registry.ModuleLoad | cexpmod.c:818-942 | the heap takes exactly one load step of the state machine and keeps the invariant |
| CexpModules.Registry.ModuleUnload | cexpmod.c:560-655 | the heap takes exactly one unload step; null and stale handles, the system module, needed modules and vetoes are refused |
| CexpModules.Registry.ClearDependencies | cexpmod.c:598-600 | the bit of the module is cleared in all records |
| CexpModules.Registry.Unlink | cexpmod.c:619-621 | the list is the old one without the record |
| SymNames.NameCompare | cexpsyms.c:81-100 | the pointer loop computes the comparison of the name order |
| SymNames.Antisymmetric | cexpsyms.c:89-96 | the comparison is antisymmetric on two names exactly if neither extends the other in a way that starts with `@` |
| SymNames.VersionedNamesBreakTheOrder | cexpsyms.c:95-96 | concrete names on which it is no order |
| SymNames.PlainAntisymmetric | cexpsyms.c:81-100 | on plain names the comparison is 0 exactly for equal names, and antisymmetric |
| SymNames.PlainTransitive | cexpsyms.c:81-100 | on plain names it is transitive |
| SymNames.PlainLexicographic | cexpsyms.c:81-100 | on plain names it is the order of dictionaries |
| SymTbl.SortSymTbl | cexpsyms.c:203-246 | in place: a sorted permutation, scanned for duplicates; the spare slot's name is restored |
| SymTbl.Scan | cexpsyms.c:228-245 | one entry per name remains, and the marker if the last name is repeated |
| SymTbl.SortKeepsNames | cexpsyms.c:203-246 | the set of names is kept exactly if the greatest name occurs once; then names strictly ascend and entries come from the input |
| SymTbl.EqualNamesLeaveMarker | cexpsyms.c:228-245 | two symbols of one name leave one of them and the marker |
| SymTbl.LastRunIsGreatest | cexpsyms.c:224-240 | the scan ends in a run of duplicates exactly if the greatest name is repeated |
| SymTbl.Lookup | cexpsyms.c:119-129 | bisection agrees with a linear scan, also when the name is missing |
| SymTbl.CreateSymTbl | cexpsyms.c:362-371 | the table has exactly the names of the symbols kept, in strict order |
| AddrRange.IndexSymTbl | cexpsyms.c:374-393 | the index is the ascending permutation of the addresses |
| AddrRange.LkAddrIdx | cexpsyms.c:449-473 | the highest entry not above the address, 0 if there is none |
| AddrRange.AddrInModule | cexpmod.c:176-198 | inside a segment with memory, or between the symbols of the system module |
| AddrRange.PushLow | cexpmod.c:244-248 | the in-place shift inserts in order and drops the farthest slot |
| AddrRange.PushUp | cexpmod.c:264-268 | the same upwards; without a margin it overwrites the only slot |
| AddrRange.LowerPass | cexpmod.c:234-249 | stopping early loses no entry below the address |
| AddrRange.UpperPass | cexpmod.c:252-269 | stopping early loses no entry above the address but the skipped first one |
| AddrRange.LkAddrRange | cexpmod.c:206-274 | for all inputs: the best entries below and, first symbols skipped, above; ideal if no module is skipped |
| AddrRange.NearestNeighbours | cexpmod.c:206-274 | if the address is not below the first symbol of a containing module, both halves hold the closest entries over all modules |
| AddrRange.RightExactlyWhen | cexpmod.c:234-269 | the result is ideal exactly if each skipped symbol has `margin` others between it and the address; without a margin, if no skipping module comes first |
| AddrRange.CollectSortSlice | cexpmod.c:206-274 | closest entries are the addresses at the close end of any sorted list of the collection, unused slots beyond |
| AddrRange.ClosestInTheMiddle | cexpmod.c:206-274 | of an ideal result the middle slots are as close to the address, from below and from above, as any symbol of any module that covers it |
| AddrRange.SlotsAreSymbols | cexpmod.c:206-274 | of an ideal result every slot in use is a symbol of a module that covers the address, on its side |
| AddrRange.FirstSymbolMissed | cexpmod.c:234-253 | a concrete input whose closest symbol is missing from the result |
| AddrRange.OnlySlotTaken | cexpmod.c:234-269 | a concrete input without a margin: a skipping module fills the only slot, an entry below the address is left out |
| Layout.AlignPowerIsLeast | pmbfd/pmbfd.h:198-199 | without overflow, the least multiple of the power of two that is not below the address |
| Layout.Ldz | pmbfd/bfd.c:158-179 | the bisection by masks finds the highest one bit, 0 for 0 |
| Layout.Count | bfdstuff.c:476-534 | every segment's size is the reservation modulo the word; the section found is the last loaded one called `.eh_frame` that is not link-once, none exactly if there is none; errors exactly for dangerous sections |
| Layout.EhIsLast | bfdstuff.c:500-513 | the section that gets the terminating zero is the last of its kind |
| Layout.SetVmaOne | bfdstuff.c:545-591 | a section takes its place behind the earlier ones; the error branch is unreachable |
| Layout.SetVma | bfdstuff.c:545-591 | all sections are placed inside what was reserved, without an error |
| Layout.PlacedIsLaid | bfdstuff.c:1651-1675 | placement means: aligned, inside the chunk, terminator included, disjoint within a segment |
| Layout.DisjointEverywhere | bfdstuff.c:1651-1675 | with chunks that do not overlap, no two placed sections overlap |
| Layout.ZeroHasRoom | bfdstuff.c:573-582 | the word behind that section lies in the chunk and meets no other section, of its segment or of one apart from it |
| Layout.LayOut | bfdstuff.c:1651-1675 | counting, starting the counters and placing compose: the memory reserved suffices, also for the zero behind the last exception frame table |
| Commons.AlignPwr | bfdstuff.c:321-328 | the least power of two that is not below the alignment |
| Commons.ComparesWhenNear | bfdstuff.c:306-317 | the comparison orders two alignments correctly exactly if they are less than 2^31 apart |
| Commons.SortCommons | bfdstuff.c:306-317 | a permutation by descending alignment, for alignments that are less than 2^31 apart |
| Commons.MakeNewCommons | bfdstuff.c:1308-1357 | pairwise disjoint offsets inside the dummy section, each a multiple of its power |
| Commons.CommonsEndUpAligned | bfdstuff.c:1308-1357 | wherever the section is placed, every common's address is a multiple of its own power-of-two alignment and inside the memory |
| Commons.AddressesFit | bfdstuff.c:1308-1357 | in terms of the file: a common symbol lies at a multiple of the alignment in its value, has its size, and overlaps no later one |
| Commons.PlaceCommons | bfdstuff.c:1308-1675 | sorting, packing, adding the section and laying out all sections: unless a section is dangerous, all sections are placed, and the commons end up in the chunk of their segment, disjoint, each at a multiple of its power-of-two alignment |
| RWLock.StepKeepsInv | cexplock.h:238-273 | one atomic step of one thread keeps the invariant |
| RWLock.MoveIsLocal | cexplock.h:238-273 | a step obeys the mutex, changes counters only inside it, and takes the write lock only without readers |
| RWLock.MoveKeepsSums | cexplock.h:246-267 | the reader count follows the read depths; sleepers, wakeups and the event stay backed by announced writers |
| RWLock.Safety | cexplock.h:238-273 | in every interleaving: reader count, exclusion of all others by a writer, and the bound on sleepers and event |
| RWLock.QuietIsInitial | cexplock.h:238-273 | when all threads are idle and hold nothing the lock is as initialised |
| RWLock.ReaderEnters | cexplock.h:238-273 | an undisturbed read lock is taken in five steps, with one more reader and the mutex as before |
| RWLock.ReaderLeaves | cexplock.h:238-273 | the last reader wakes one writer if any sleep |
| RWLock.WriterEnters | cexplock.h:238-273 | a writer gets in and keeps the mutex if there are no readers, and otherwise sleeps without it |
| RWLock.WriterWakes | cexplock.h:238-273 | a sleeping writer moves only with the event, and then gets in if there are no readers |
| RWLock.WriterLeaves | cexplock.h:238-273 | the mutex is free again with the last write lock |
| ElfCodec.SwapReverses | pmbfd/pmelfP.h:104-131 | all swap routines, built from shifts, reverse the bytes of their word |
| ElfCodec.UnpackPack | pmbfd/putshdr.c:51-102 | reading a written record gives its fields back |
| ElfCodec.PackUnpack | pmbfd/getshdr.c:51-135 | writing a read record gives its bytes back |
| ElfCodec.UnpackReversed | pmbfd/getsym.c:51-113 | swapping all fields turns one byte order into the other |
| ElfCodec.SwapFields | pmbfd/getshdr.c:57-70 | every field of the record is swapped in place |
| ElfCodec.GetRecord | pmbfd/getsym.c:51-113 | the fields in the byte order of the file, whatever the host |
| ElfCodec.PutRecord | pmbfd/putsym.c:51-92 | the bytes in the byte order of the file; the record itself is unchanged |
| ElfReader.Stream.GetEhdr | pmbfd/getehdr.c:49-215 | exactly the headers that pass the checks of magic, version, class, sizes, string index and machine are accepted |
| ElfReader.Stream.GetShtab | pmbfd/shtab.c:59-140 | the section headers and their string table, or failure |
| ElfReader.Stream.GetScnPart | pmbfd/getscn.c:49-108 | exactly the requests inside the section are served, as far as the file has the bytes; checks in wrap-around arithmetic miss none |
| ElfReader.FindSymHdrs | pmbfd/findsymhdrs.c:51-179 | the one symbol table called `.symtab` and its string table, with all size checks |
| ElfReader.Stream.GetSymtab | pmbfd/symtab.c:59-126 | the symbols in order and their names, or failure |
| ElfCopy.MakeAbsolute | xsyms.c:226-248 | in place: indices of existing sections become absolute, all others stay |
| ElfCopy.WriteAll | xsyms.c:156-265 | header, section headers, section names and symbols in this order |
| ElfCopy.CopySymtab | xsyms.c:109-282 | success exactly if the input parses; then the output is the specified file |
| ElfCopy.RecordsBack | xsyms.c:195-199 | a table of written records is read back, for any length |
| ElfCopy.FindBack | xsyms.c:148-171 | the reader finds the symbol table header of the output, and no other |
| ElfCopy.CopyReadsBack | xsyms.c:109-282 | parsing the output gives the same symbols and names in the same order, only in-range section indices changed |
| ElfBytes.AcceptedExactlyWhen | pmbfd/getehdr.c:138-215 | which files are accepted, as a condition on their bytes |
| ElfBytes.HeaderInBytes | pmbfd/getehdr.c:49-127 | the header fields are the numbers at these offsets, lowest byte first exactly if byte 5 is 1 |
| ElfBytes.ShtabInBytes | pmbfd/shtab.c:59-140 | where the section headers, their fields and their names lie in the file |
| ElfBytes.ShtabExactlyWhen | pmbfd/shtab.c:59-140 | the section headers are read exactly if there are any, and they and the section of their names lie in the file |
| ElfBytes.PartIsSlice | pmbfd/getscn.c:49-108 | a part of a section is that slice of the whole, nothing beyond it is served |
| ElfBytes.FoundExactlyWhen | pmbfd/findsymhdrs.c:51-179 | the search succeeds exactly for a single section of type 2 called `.symtab` |
| ElfBytes.SymHdrsExactlyWhen | pmbfd/findsymhdrs.c:51-179 | and the headers are handed out exactly if the table holds whole symbols, at least one, and its entry size is right or 0 |
| ElfBytes.SymbolsInBytes | pmbfd/symtab.c:59-126 | where the symbols, their fields and their names lie in the file |
| ElfBytes.SymtabExactlyWhen | pmbfd/symtab.c:59-126 | then the symbols are read exactly if they and the section of their names lie in the file |
| ElfBytes.CopyInBytes | xsyms.c:109-282 | each symbol of the copy has the numbers of the input but for a section index, which becomes 0xfff1 if that section exists |
| ElfBytes.CopyIsForSameMachine | xsyms.c:109-282 | identification and machine are those of the input |
| RelocMemory.PatchedReads | pmbfd/bfd-reloc-powerpc.c:167-172 | the patched word reads back, all other bytes are untouched |
| RelocMemory.WordsAreBigEndian | pmbfd/bfd-reloc-powerpc.c:145-172 | a word in memory has its highest byte first |
| PpcReloc.PerformRelocation | pmbfd/bfd-reloc-powerpc.c:50-175 | the status in the order of the checks; memory changes only on success and only the patched word |
| PpcReloc.AcceptedExactlyWhen | pmbfd/bfd-reloc-powerpc.c:58-142 | which relocations are carried out: known types, inside the section, fitting places, branches to words in reach |
| PpcReloc.Combine | pmbfd/bfd-reloc-powerpc.c:151-172 | masking, high adjustment and shifting give the bits that are stored |
| PpcReloc.HighAdjusted | pmbfd/bfd-reloc-powerpc.c:155-165 | 65536 times HA plus the sign-extended LO is the value modulo 2^32, and so for HI and LO |
| PpcReloc.BranchKeepsOpcode | pmbfd/bfd-reloc-powerpc.c:151-153 | opcode, AA and LK bits of any instruction survive |
| PpcReloc.RelativeBranchReaches | pmbfd/bfd-reloc-powerpc.c:98-142 | an accepted REL24 decodes to address plus field equal to the target |
| PpcReloc.AbsoluteBranchReaches | pmbfd/bfd-reloc-powerpc.c:98-105 | an accepted ADDR24 decodes to its value exactly if that fits the signed field |
| PpcReloc.AbsoluteBranchMisses | pmbfd/bfd-reloc-powerpc.c:98-105 | a concrete ADDR24 that is accepted and decodes to another address |
| PpcReloc.WordsHoldValue | pmbfd/bfd-reloc-powerpc.c:106-132 | ADDR32 holds the value and REL32 the distance, modulo 2^32 |
| PpcReloc.HalvesHoldValue | pmbfd/bfd-reloc-powerpc.c:155-165 | the 16-bit types hold the low half, the high half, and the high half of the value plus 0x8000 |
| PpcReloc.RegionFits | cexpsegs-powerpc-rtems.c:296-304 | a region made of memory below 32M stays there exactly if the memory reaches its first aligned address |
| PpcReloc.RegionIsMost | cexpsegs-powerpc-rtems.c:296-304 | a region that fits misses less than one alignment unit of the memory at either end |
| PpcReloc.RetryStartsAtZero | cexpsegs-powerpc-rtems.c:268-276 | memory from the linker script is used at its own address by the first call only |
| PpcReloc.ChosenIsProvided | cexpsegs-powerpc-rtems.c:260-294 | the memory used is what the application or else the linker script provides, cut at 32M |
| PpcReloc.TextRegion.SegsInit | cexpsegs-powerpc-rtems.c:260-341 | for any memory and any number of calls: whenever more than 1000 bytes are reported, so that text goes there, the region lies below 32M and is aligned; it is made once |
| PpcReloc.TextRegion.MakeRegion | cexpsegs-powerpc-rtems.c:296-319 | start and length are the memory rounded to the CPU alignment, in unsigned arithmetic |
| PpcReloc.RegionBranchesFit | cexpsegs-powerpc-rtems.c:289-294 | between any two addresses of the region a REL24 does not overflow |
| SparcReloc.TableIsSound | pmbfd/bfd-reloc-sparc.c:69-93 | every field of the table fits the bytes that hold it |
| SparcReloc.PerformRelocation | pmbfd/bfd-reloc-sparc.c:95-183 | the status in the order of the checks; memory changes only on success and only the patched bytes |
| SparcReloc.AcceptedExactlyWhen | pmbfd/bfd-reloc-sparc.c:69-157 | which relocations are carried out: known types, fitting places, and for each type its range |
| SparcReloc.FieldDecodes | pmbfd/bfd-reloc-sparc.c:131-182 | for every type, after a successful relocation: bits outside the field survive, the field of the patched word decodes to the shifted value, exactly if it is signed and modulo its size otherwise |
| SparcReloc.DisplacementReaches | pmbfd/bfd-reloc-sparc.c:131-182 | after a successful relocation of a sign-checked type, address plus the decoded field of the patched word, scaled, is the target exactly if the bits shifted out are zero |
| SparcReloc.CallReaches | pmbfd/bfd-reloc-sparc.c:78 | for WDISP30: address plus 4 times the signed 30-bit field is the target exactly if that is whole words away; the opcode stays |
| SparcReloc.BranchReaches | pmbfd/bfd-reloc-sparc.c:79 | for WDISP22: the same with 22 bits |
| SparcReloc.DistancesReach | pmbfd/bfd-reloc-sparc.c:75-77 | for DISP8, DISP16 and DISP32: address plus signed content is the target |
| SparcReloc.RelativePairReaches | pmbfd/bfd-reloc-sparc.c:84-85 | the truncated fields of a PC10 and of a PC22 of one distance hold it together modulo 2^32, so that address plus both is the target |
| SparcReloc.HighAndLow | pmbfd/bfd-reloc-sparc.c:80-83 | the patched fields of a HI22 and a LO10 of one value rebuild it modulo 2^32 |
| SparcReloc.DataHoldsValue | pmbfd/bfd-reloc-sparc.c:72-74 | bytes, halves and words hold the value modulo their size, unaligned ones too |
| SparcReloc.ImmediatesHoldValue | pmbfd/bfd-reloc-sparc.c:81-91 | immediate fields hold the low bits of the value, the other bits stay |
| SparcReloc.HighHoldsValue | pmbfd/bfd-reloc-sparc.c:80 | HI22 holds bits 10 to 31, the other bits stay |
| GnuHash.CountSymbols | elfdlmap.c:204-243 | the walk terminates with the exact number of symbols, empty buckets and empty tables included |
| GnuHash.BucketsAreCounted | elfdlmap.c:218-240 | every bucket's symbols are among those counted |
| Comdat.BuildRing | pmbfd/bfd.c:1106-1130 | success exactly if all members are existing sections that are not marked as bogus; a duplicate-free group then forms a ring with its header; nothing else is linked |
| Comdat.RingKept | pmbfd/bfd.c:1039-1043 | a ring survives any change of flags, and of links outside of it |
| Comdat.ConvertSection | pmbfd/bfd.c:977-1250 | one header: its own record counts as bogus meanwhile, then gets its flags; no error exactly if its kind is known, its signature readable and its members acceptable |
| Comdat.AcceptableIffLoadable | pmbfd/bfd.c:1025-1124 | which members are acceptable, in terms of the file: other sections, and none that was skipped before |
| Comdat.LinkedIffMember | pmbfd/bfd.c:1240-1247 | at its turn a section is linked exactly if it is a member of a COMDAT group |
| Comdat.ConvertedStep | pmbfd/bfd.c:977-1250 | converting one header keeps earlier rings and final flags and adds its own |
| Comdat.ConvertAll | pmbfd/bfd.c:1420-1432 | for every file: no error exactly if every header is loadable, and then exactly the skipped sections are bogus; in a sound file every ring is closed and every flag final |
| Comdat.SoundGroupsFit | pmbfd/bfd.c:1098-1132 | groups that precede their members never fail |
| Comdat.DiscardRing | bfdstuff.c:667-675 | the walk terminates and clears exactly the members before the first bogus one |
| Comdat.EliminateLinkOnce | bfdstuff.c:629-689 | only the memory flags of the section and its group change, and only if the name is known |
| Comdat.GoneWhenMet | bfdstuff.c:654-658 | as headers come first, a section that is discarded is so by the time it is met |
| Comdat.EliminateAll | bfdstuff.c:1633-1637 | exactly the sections discarded on account of some known section lose their memory; the number of sections counted is the number that keep it |
| Comdat.LoadSections | pmbfd/bfd.c:1420-1432 | both passes together, in terms of the file: which sections are bogus, which keep memory, and how many |
| Comdat.KeptExactlyWhen | bfdstuff.c:629-689 | on the headers: a section takes memory exactly if it asks for it, its own name does not discard it, and no known group reaches it |
| Comdat.GroupGoesTogether | bfdstuff.c:654-675 | a known group without skipped members goes as a whole |
| Vars.StrcmpIsOrder | vars.c:198-224 | the string comparison is 0 exactly for equal strings, and antisymmetric |
| Vars.LessIsLexicographic | vars.c:198-224 | it is the order of dictionaries |
| Vars.List.Find | vars.c:133-147 | the element of that name, and the one behind which it belongs |
| Vars.List.Add | vars.c:94-115 | the element is spliced in behind the given one |
| Vars.FoundInMap | vars.c:133-147 | a search that stops early still decides membership in the map |
| Vars.Store.VarLookup | vars.c:232-280 | finds the variable of the map or adds a new one, named by the one string object of its name |
| Vars.Store.StrLookup | vars.c:282-305 | equal strings are the same object, and strings are only added |
| Vars.Store.VarDelete | vars.c:311-333 | removes exactly that name from the map; strings stay |
| Vars.Store.VarWalk | vars.c:337-351 | each variable once, in ascending order, until the walker returns non-zero |
| Rounding.RoundIsExact | ctyps.c:136-137 | a conversion to a floating point type changes nothing exactly if the number has a significand of that many digits |
| Rounding.RoundIsNearest | ctyps.c:136-137 | no number with such a significand is closer |
| Rounding.HeldInteger | ctyps.c:240-250 | an integer can be held exactly if it is one of at most that many digits with zeros behind them |
| TypedValues.FittingIsHeld | ctyps.c:236-252 | an integer that passes the guard of `fits` can be held by the floating point type |
| TypedValues.TypeCast | ctyps.c:279-320 | value and type are overwritten on success, unchanged on error |
| TypedValues.CastPreserves | ctyps.c:235-278 | an unforced cast that succeeds preserves the number, although conversions to floating point round; between scalars it succeeds exactly if the number fits |
| TypedValues.IntegerToFloating | ctyps.c:235-252 | a forced cast is exact if and only if the type can hold the integer, and a nearest number otherwise; an unforced one is refused if and only if a float is asked for and the integer is 2^24 or above, so that the refusals of integers a float holds are exactly the held ones from 2^24 on |
| TypedValues.TwoToThe24IsRefused | ctyps.c:240-250 | 2^24 is refused though a float holds it; 2^24+1 is the first that must be |
| TypedValues.FloatingToInteger | ctyps.c:147-158 | a forced cast from floating point drops the fraction towards zero and then what the type has no room for; one that is not forced is refused |
| TypedValues.TypePromote | ctyps.c:572-597 | both operands are brought to one type in place |
| TypedValues.PromotePreserves | ctyps.c:572-597 | promotion changes no number, and fails exactly if a float meets an `int` or `long` from 2^24 on, held or not |
| TypedValues.Compare | ctyps.c:354-392 | the result of comparing converted copies |
| TypedValues.CompareIsExact | ctyps.c:354-392 | comparison of any scalar and floating types never fails and is exact |
| TypedValues.BinOp | ctyps.c:398-447 | the operator on equal types: scalars are cast back to the type of the operands, floating point results are rounded to it |
| TypedValues.FpIsNearest | ctyps.c:427-444 | a floating point result is one of its type, none of the type is closer to the real result, and it is that exactly if the type can hold it |
| TypedValues.ScalarIsModular | ctyps.c:405-426 | scalar operators are integer arithmetic modulo the width of the type |
| TypedValues.BitwiseBits | ctyps.c:419-421 | and, exclusive or, or: each bit of the result is the operation on the bits |
| TypedValues.OverwrittenDifferenceIsRight | ctyps.c:461-477 | a pointer difference stored over its first operand is right exactly if the elements have the size of a long, the pointers are equal, or both counts are misaligned |
| TypedValues.CharactersCountAsLongs | ctyps.c:461-477 | a concrete difference of character pointers that comes out wrong |
| TypedValues.TVBinOp | ctyps.c:449-507 | dispatch to comparison, pointer difference, pointer arithmetic or promotion and operator, also when the result overwrites an operand |
| TypedValues.BinOpIsArithmetic | ctyps.c:449-507 | on scalars of any two types the whole operator is integer arithmetic modulo the promoted width |
| TypedValues.AddThenSubtract | ctyps.c:461-501 | (p+n)-p is n exactly if n times the element size is below 2^32 |
| TypedValues.ThereAndBack | ctyps.c:480-501 | (p+n)-n is p for every n |
| TypedResults.ComparesNumbers | ctyps.c:354-392 | each comparison of two numbers is 1 exactly if it holds, an `unsigned long` |
| TypedResults.ComparesAddresses | ctyps.c:354-392 | pointers compare as addresses, never with floating point |
| TypedResults.PromotesTo | ctyps.c:572-597 | to which of the two types both operands are brought |
| TypedResults.ScalarOperators | ctyps.c:405-426 | each operator on scalars in numbers, with the type and the size of the result |
| TypedResults.BitOperators | ctyps.c:419-421 | the number with the right bits is the result |
| TypedResults.PointerSteps | ctyps.c:480-501 | pointers move by elements of 1, 2, 4 or 8 bytes, in either order of a sum; everything else is refused |
| TypedResults.PointerDifferences | ctyps.c:461-477 | when two pointers can be subtracted, and that the difference counts elements |
| TypedResults.PointerCasts | ctyps.c:285-292 | a pointer cast keeps the address and is refused exactly for larger elements, if not forced |
| TypedResults.PointerLosesDigits | ctyps.c:240-250 | a concrete address that an unforced cast to float changes |
| TypedResults.OneIsLost | ctyps.c:427-444 | doubles have 53 digits: 2^53 plus 1 is not 2^53+1 |

## Left out

- Loaded code: constructors, destructors and callbacks are opaque; a finalizer only accepts or rejects, and callbacks that load modules are excluded.
- Registry.LoadFile: opening the file, architecture and attribute checks, memory, reading section contents and the final sanity check are outcomes given by the environment; where symbols end up is given too, so that the layout is proved separately.
- Registry.ModuleUnload: a handle that is not listed is assumed not to be the handle of a listed module; freeing memory is not modelled.
- LoaderRuns.RunKeepsInv: files with `@` in names, with a repeated greatest name, with the marker name, with global section symbols, or without any symbol to keep are not admitted.
- CexpModules.Registry.ResolveOne: an alignment test on addresses is written as a remainder, alignments being powers of two.
- The debugger's list of section symbols, help tables, regular expressions, printing and the disassembler: I/O and foreign calls.
- SymTbl.SortSymTbl: the C library's sort is replaced by any sort that returns a sorted permutation; bisection is written out.
- AddrRange.LkAddrRange: every table has a symbol and is indexed, as the code takes for granted; modules are values with an index, a segment list and a system flag; locking is modelled in `RWLock` only.
- Layout.LayOut: the total reservation plus the chunk address is below the size of the address space, and alignment powers are below 31; counting alone is modelled with wrap-around.
- The earlier pass that unmarks empty sections; the placing pass ignores them anyway.
- Commons.MakeNewCommons: twice the alignments plus the sizes are below the size of a word.
- Commons.PlaceCommons: at least one new common, alignments at most 2^30, and memory allocation gives chunks inside the address space; without any size the new section is not placed.
- Commons.AlignPwr: alignments above half of an `unsigned long`, for which the loop of the code does not end.
- RWLock.Safety: counters are unbounded; liveness, the pthread and EPICS variants are not modelled.
- ElfCopy.CopyReadsBack: header 0 is not a symbol table and the new offsets fit their fields; writing does not fail and allocating zero bytes gives memory.
- ElfReader.Stream.GetEhdr: reading and writing the fields is a loop over a list of widths; the 32-bit and 64-bit routines share it.
- ElfReader.Stream.GetScnPart: files read through the C library; memory streams refuse every position at or behind the end, also for 0 bytes.
- ElfReader.FindSymHdrs: names of symbol tables lie in a terminated string table and the table links to an existing section, as the code takes for granted; dynamic symbol tables are the same search with other constants.
- Relocation entries, attribute sections, program headers and group sections as ELF records.
- PpcReloc.PerformRelocation: offsets for which the bounds check wraps around and passes.
- PpcReloc.TextRegion.SegsInit: memory the application provides lies in the address space; the allocator behind the region.
- SparcReloc.PerformRelocation: types from 56 to 223, for which the code reads behind its table; the place is assumed to lie in the section.
- i386, m68k and x86_64 relocation: the same shape with easier fields.
- Comdat.ConvertAll: every section has a name, and the section table has fewer than 0xff00 entries; reading the group section and its signature symbol is an outcome given with the header; flags other than the ones for memory, link-once and groups.
- Comdat.EliminateAll: overlapping groups and groups behind their members, for which neither the code nor its comments promise anything; whether a name is known is given for each section.
- GnuHash.CountSymbols: the heuristics that locate the table, and the classic hash table, which stores the number.
- Vars.Store.VarLookup: memory failure, the flush of all variables, walkers that change the list (the code asserts against them), and values of variables.
- TypedValues.TVBinOp: floating point exponents have no bounds, so that there are no infinities, subnormal numbers or NaN, and rounding is to nearest with ties to even; division by zero and oversized shifts; values of type void.
- TypedValues.Compare: a result stored over an operand, which no caller asks for.
- TypedValues.TypeCast: longs of 64 bits, for which the shift in `fits` is undefined; a floating point number that is out of range of an integer type is reduced modulo its size, where C leaves the cast undefined.
- Terminal handling, parsing, thread creation and system calls.
