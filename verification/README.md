# NootedGreen in Dafny

NootedGreen is a macOS kernel plug-in that brings up Intel graphics. This project models three parts of
it and proves what they promise, for every input, every run and every pattern of failures:

1. **The display merge driver** (`Utilities/DisplayMergeNub.cpp`) merges a property dictionary into
   a provider's property table, recursively and copy-on-write.
2. **The register interface** (`NGreen.hpp`) reads and writes 32-bit registers, directly or through
   an INDEX/DATA window, guards display planes, and builds read-modify-write and workaround
   calls on top.
3. **The page patches** (`Hotfixes/DYLDPatches.hpp`, `.cpp`) apply lists of find-and-replace patches
   to pages of the shared cache, in place.

`dafny verify dfyconfig.toml` checks everything.

## How the parts are modelled

**Dictionaries.** `DisplayMerge` has dictionaries as heap objects that may share entries. What a
dictionary stands for is the finite tree it unfolds to (`Unfolds`), so only objects without cycles
below them have a meaning. The target must not be reachable from the source: `region` is any set
that holds the source and everything below both, but not the target. What the kernel decides (the
order of an iterator, which copies and stores fail) is a `walk` given to each method; every order
and every failure pattern is some walk. `MergeRuns` is the loop on trees, `PropertyTrees.Merged`
the deep merge it is meant to compute, and `MergeProperties` and `StaleAnswers` relate the two.

**Registers.** `Registers` has the device as a map from word numbers to values, with INDEX kept as
the number it holds, and a log of what the driver stored. Mapped words are reached directly, DATA
stands for the register that INDEX selects. `Mmio` is the C++ interface statement by statement, with
every access proved to lie inside the mapping. `FlatRegisters` is a flat register map with no
window; the interface refines it. A register map, not a memory array, is the natural model here
because DATA is not storage.

**Pages.** `PagePatching` scans and rewrites a byte array. The foreign find-and-replace routine is
given the one contract that every non-overlapping match is replaced from left to right.
`PatchLists` shows when a list of patches amounts to one simultaneous rewriting: patterns overlap
nowhere, or only where both patches write the same, and nothing a patch leaves is part of a pattern.
`SharedCache` shows that the shipped tables meet that condition. Patterns begin with three-byte anchors
that occur nowhere else in any pattern or replacement, with one exception: the text before
AppleGVAHEVCEncoder's "board-id" can run into AppleGVA's, and there the two patches agree.

## What turned out false, and exactly when it holds

- *A merge that answers true has merged everything.* A failed copy leaves the loop without
  assigning the result, so an earlier key's `true` is returned (`StaleAnswers.StaleAnswer`). It
  holds for all walks and failures if and only if `!Overstates(source, target)`
  (`StaleAnswers.TrueMeansMerged`).
- *After a merge that answered true, merging again changes nothing.* The second merge may bring in what
  the first left out (`StaleAnswers.StaleRemerge`). For all walks and failures of both merges it holds if
  and only if `!Overstates(source, target)` (`StaleAnswers.RemergeExact`); if the first merge made all
  its copies it always holds (`MergeProperties.RemergeUnchanged`).
- *A failure leaves the keys before it deep-merged and the others untouched.* A child whose own merge
  answered true too early is stored half-merged (`StaleAnswers.StalePrefix`). For all walks and failures
  it holds if and only if no two shared dictionaries overstate (`StaleAnswers.PrefixExact`); for the walks
  that answer false, if and only if that holds or the source has only one key
  (`StaleAnswers.FailurePrefixExact`). With all copies made it always holds (`MergeProperties.CleanPrefix`).
- *No zero reaches the surface register of an enabled plane.* An unaligned offset, one of 4 GiB or more,
  or a write to DATA itself reaches a surface register without looking like one. At a given
  offset it holds on all devices if and only if the offset is ordinary or cannot reach a surface register
  (`PlaneGuard.OrdinaryIsEnough`); on a given device, see `PlaneGuard.WriteSafe`.
- *wa_write_clr_set clears, wa_write writes, wa_write_clr clears.* The read mask turns cleared bits back
  on. See `Workarounds.ClearsAsNamed`, `WritesAllOnes` and `ClearsOnlyNothing`.
- *wa_masked_field_set installs the field.* See `Workarounds.FieldAsNamed`.
- The repository's README says that `-ngreenfullmtl` skips the stubs that return null. In the code that
  argument is only logged; the model follows the code, so it has no such argument.

## Model

| member | source | states |
|---|---|---|
| PropertyTrees.MergedSurface | NootedGreen/Utilities/DisplayMergeNub.cpp:245-313 | the deep merge path by path: at every key path stands what the source has there (leaf or dictionary), else what the target has, unless a leaf of the source stands on the way |
| PropertyTrees.SurfaceDetermines | NootedGreen/Utilities/DisplayMergeNub.cpp:245-313 | two trees with the same thing at every path are equal, so the row above determines the deep merge completely, empty dictionaries included |
| PropertyTrees.MergedLeafAt | NootedGreen/Utilities/DisplayMergeNub.cpp:245-313 | for leaves in particular: a leaf of the result is the source's at that path, or the target's where the source has nothing at the path and no leaf on the way |
| PropertyTrees.MergedTwice | NootedGreen/Utilities/DisplayMergeNub.cpp:220-320 | merging the same source a second time is the identity on trees |
| PropertyTrees.MergedIntoOverride | NootedGreen/Utilities/DisplayMergeNub.cpp:74-82 | a shallow override already is its own deep merge |
| MergeRuns.RunShape | NootedGreen/Utilities/DisplayMergeNub.cpp:234-319 | the loop that rewrites its target equals turns judged on the original target alone: entries of completed turns stored, all else untouched, and the exact answer, for every walk and failure |
| MergeProperties.CleanPrefix | NootedGreen/Utilities/DisplayMergeNub.cpp:269-313 | if copies succeed, exactly the keys before the failing one are deep-merged, and the answer is true iff there was a key and none failed |
| MergeProperties.CleanMerge | NootedGreen/Utilities/DisplayMergeNub.cpp:234-315 | if copies succeed, a true answer means the target is the deep merge |
| MergeProperties.ReturnValue | NootedGreen/Utilities/DisplayMergeNub.cpp:225-319 | if nothing fails, the answer is true iff at every key path where both sides hold a dictionary the source's is not empty |
| MergeProperties.WalkOrderIrrelevant | NootedGreen/Utilities/DisplayMergeNub.cpp:234-315 | if nothing fails, iteration order changes neither the answer nor a successful result |
| MergeProperties.SettledUnchanged | NootedGreen/Utilities/DisplayMergeNub.cpp:220-320 | a target that is its own deep merge is left alone by every walk and failure, whatever the answer |
| MergeProperties.RemergeUnchanged | NootedGreen/Utilities/DisplayMergeNub.cpp:220-320 | after a merge that made all its copies and answered true, merging again changes nothing whatever fails in the second merge |
| MergeProperties.OverrideUnchanged | NootedGreen/Utilities/DisplayMergeNub.cpp:74-82 | after a shallow override the deep merge changes nothing whatever fails |
| StaleAnswers.TrustedPrefix | NootedGreen/Utilities/DisplayMergeNub.cpp:269-313 | if no shared dictionaries overstate, then for every failure pattern at any depth the keys before the failing one are deep-merged and the others untouched, with the exact answer |
| StaleAnswers.TrueMeansMerged | NootedGreen/Utilities/DisplayMergeNub.cpp:225-319 | a true answer means a complete deep merge for all walks and failures iff the two dictionaries do not overstate |
| StaleAnswers.StaleAnswer | NootedGreen/Utilities/DisplayMergeNub.cpp:269-273 | a concrete source and target for which some walk answers true without having merged |
| StaleAnswers.MergedAfter | NootedGreen/Utilities/DisplayMergeNub.cpp:220-320 | whatever fails, a merge leaves a target that still has the same deep merge with the source |
| StaleAnswers.RemergeExact | NootedGreen/Utilities/DisplayMergeNub.cpp:220-320 | after a merge that answered true a second one changes nothing, for all walks and failures of both, iff the two dictionaries do not overstate |
| StaleAnswers.StaleRemerge | NootedGreen/Utilities/DisplayMergeNub.cpp:269-273 | a concrete source and target for which a second merge changes what a first one that answered true left |
| StaleAnswers.PrefixExact | NootedGreen/Utilities/DisplayMergeNub.cpp:269-313 | every walk and failure leaves the keys before the failing one deep-merged and the others untouched iff no shared dictionaries overstate |
| StaleAnswers.FailurePrefixExact | NootedGreen/Utilities/DisplayMergeNub.cpp:269-313 | the same for walks that answer false: iff no shared dictionaries overstate or the source has at most one key |
| StaleAnswers.StalePrefix | NootedGreen/Utilities/DisplayMergeNub.cpp:269-301 | a concrete two-level source and target for which some walk answers false and leaves a half-merged child |
| StaleAnswers.MergePossible | NootedGreen/Utilities/DisplayMergeNub.cpp:220-320 | any two dictionaries can be walked without failures, and then the merge answers true and is complete iff the source is populated wherever the target has a dictionary too |
| DisplayMerge.Dictionary.WithDictionary | MacKernelSDK/Headers/libkern/c++/OSDictionary.h:262-297 | a fresh dictionary sharing the entries, or null |
| DisplayMerge.Dictionary.SetObject | MacKernelSDK/Headers/libkern/c++/OSDictionary.h:578-598 | stores the entry, or fails and changes nothing |
| DisplayMerge.Dictionary.Merge | MacKernelSDK/Headers/libkern/c++/OSDictionary.h:697-714 | overrides entries in walk order until one cannot be stored, and says whether all were |
| DisplayMerge.UnfoldsUniquely | NootedGreen/Utilities/DisplayMergeNub.cpp:220-320 | a dictionary object stands for one tree only, whatever region it is viewed in |
| DisplayMerge.Represent | NootedGreen/Utilities/DisplayMergeNub.cpp:220-320 | every finite tree is what some dictionary object stands for, so the statements about objects are about all trees |
| DisplayMerge.MergeIntoCopy | NootedGreen/Utilities/DisplayMergeNub.cpp:259-282 | merges into a fresh copy of the target's child and writes nothing that existed before |
| DisplayMerge.MergeEntry | NootedGreen/Utilities/DisplayMergeNub.cpp:245-313 | one turn of either loop: stores exactly the entry due, or leaves the target as it was, with the result as the code leaves it |
| DisplayMerge.MergeDictionaryIntoDictionary | NootedGreen/Utilities/DisplayMergeNub.cpp:220-320 | writes no dictionary that existed before except the target, at any depth, and ends with exactly the walk's outcome and answer; false on null |
| DisplayMerge.MergeDictionaryIntoProvider | NootedGreen/Utilities/DisplayMergeNub.cpp:99-207 | on the property table, the same outcome and answer as the dictionary merge; false and untouched without an iterator |
| DisplayMerge.CompleteOverride | NootedGreen/Utilities/DisplayMergeNub.cpp:74-82 | a complete shallow merge followed by any deep merge is the key-by-key override |
| DisplayMerge.OverriddenEntry | MacKernelSDK/Headers/libkern/c++/OSDictionary.h:697-714 | a shallow merge that may stop early has stored the source's entries under exactly the keys before the failing one |
| DisplayMerge.ProbedStored | NootedGreen/Utilities/DisplayMergeNub.cpp:74-82 | what the shallow merge stored stays, whatever the deep merge does and wherever either stops |
| DisplayMerge.ProbedRest | NootedGreen/Utilities/DisplayMergeNub.cpp:74-82 | after a shallow merge that stopped early, a deep merge with all copies made and a true answer leaves the deep merge of the original entries under the keys not yet stored |
| DisplayMerge.MergeOnMatch | NootedGreen/Utilities/DisplayMergeNub.cpp:70-83 | override, renaming to the IOClass entry, deep merge |
| DisplayMerge.Probe | NootedGreen/Utilities/DisplayMergeNub.cpp:54-87 | always null; entries and name unchanged if IOProviderMergeProperties is missing, or DisplayVendorID or DisplayProductID is missing on either side or differs; otherwise the merge takes place: if all shallow stores succeed the table becomes the key-by-key override, and if not, a deep merge with all copies made and a true answer leaves the deep merge with what was stored; the name becomes the IOClass entry, if there is one |
| Registers.IndexOf | NootedGreen/NGreen.hpp:123-128 | the number that INDEX is taken to hold is below 2^32 and has exactly the binary digits of the word stored |
| FlatRegisters.ReadRefines | NootedGreen/NGreen.hpp:81-89 | a read at a regular offset returns the flat register and changes none |
| FlatRegisters.WriteRefines | NootedGreen/NGreen.hpp:92-130 | a write at a regular offset is the guarded write on the flat map, by either path |
| FlatRegisters.RunRefines | NootedGreen/NGreen.hpp:81-276 | every run of regular calls returns and leaves what it does on the flat map, whatever is mapped and whatever INDEX held |
| FlatRegisters.WriteFrame | NootedGreen/NGreen.hpp:99-129 | besides the addressed register a write can change only bit 31 of the paired control register, and only to disable a blank plane |
| FlatRegisters.WriteMeans | NootedGreen/NGreen.hpp:92-130 | every register after a write at an ordinary offset, in plain numbers: zero for a surface register does not take effect while bit 31 of the control register 0x1C below is on, and if the surface is zero already that bit goes off and the lower 31 stay |
| FlatRegisters.TargetMeans | NootedGreen/NGreen.hpp:81-129 | which register an offset reaches, mapped or not, aligned or not, of whatever size |
| FlatRegisters.WindowMeans | NootedGreen/NGreen.hpp:32-33 | a number stored at 0x38 selects the register that 0x3C then reads and writes |
| FlatRegisters.RunFollows | NootedGreen/NGreen.hpp:81-276 | after any run at any offsets, replaying the log of stores gives the registers |
| FlatRegisters.ReadsLatest | NootedGreen/NGreen.hpp:81-130 | after any run, a read returns the last value stored to that register and changes no register |
| PlaneGuard.WriteSafe | NootedGreen/NGreen.hpp:96-129 | a write arms no enabled plane with zero iff its offset looks like a surface register or does not reach one of an enabled plane with zero |
| PlaneGuard.RunSafe | NootedGreen/NGreen.hpp:92-276 | in every run at ordinary offsets no store of zero reaches the surface register of a plane enabled at that moment |
| PlaneGuard.OrdinaryIsEnough | NootedGreen/NGreen.hpp:96-129 | an offset is safe on every device iff it is ordinary or cannot reach a surface register |
| PlaneGuard.WriteKeepsPlanes | NootedGreen/NGreen.hpp:96-129 | a write keeps every enabled plane from having surface zero iff it does not itself enable a plane whose surface is zero |
| PlaneGuard.CallKeepsPlanes | NootedGreen/NGreen.hpp:176-276 | the same for every call of the interface |
| PlaneGuard.RunKeepsPlanes | NootedGreen/NGreen.hpp:92-276 | the invariant over whole runs |
| PlaneGuard.RunPlanesExact | NootedGreen/NGreen.hpp:92-276 | the invariant holds after every call of a regular run iff no call itself enables a plane whose surface is zero |
| Workarounds.RmwMeans | NootedGreen/NGreen.hpp:176-184 | intel_de_rmw returns what it finds, clears and then sets the given bits, and changes no other register |
| Workarounds.RmwFusion | NootedGreen/NGreen.hpp:176-184 | any chain of intel_de_rmw calls on an unguarded register, the empty one included, leaves every register as one call with a fused pair does; each call returns what the calls before it left |
| Workarounds.ClosedForm | NootedGreen/NGreen.hpp:200-276 | any run of additive calls leaves each register with its old bits and the union of what the calls turn on |
| Workarounds.OrderAndRepetition | NootedGreen/NGreen.hpp:200-276 | order and repetition of such calls do not matter |
| Workarounds.WaAddMeans | NootedGreen/NGreen.hpp:200-213 | for all arguments, wa_add on a register that is not masked clears, then sets, then turns on the read mask |
| Workarounds.WaAddMaskedMeans | NootedGreen/NGreen.hpp:200-213 | the same for a masked register, where set first loses the bits below its own enable bits |
| Workarounds.MaskedFieldAdds | NootedGreen/NGreen.hpp:220-223 | with 16-bit arguments wa_masked_field_set is additive and turns on the enable bits, the mask and the field |
| Workarounds.MaskedEnAdds | NootedGreen/NGreen.hpp:215-218 | with a 16-bit argument wa_masked_en is additive and turns on the bits and their enable bits |
| Workarounds.ClearingFormsAdd | NootedGreen/NGreen.hpp:225-276 | the clearing forms are additive: they turn on what they should clear |
| Workarounds.ClearsAsNamed | NootedGreen/NGreen.hpp:225-228 | clear-then-set as named iff nothing is cleared that is not set |
| Workarounds.WritesAllOnes | NootedGreen/NGreen.hpp:248-252 | wa_write leaves all ones whatever it is given |
| Workarounds.ClearsOnlyNothing | NootedGreen/NGreen.hpp:266-270 | wa_write_clr clears as named iff there is nothing to clear |
| Workarounds.SetsAsNamed | NootedGreen/NGreen.hpp:254-258 | wa_write_or turns the bits on and keeps all others |
| Workarounds.FormsOf | NootedGreen/NGreen.hpp:215-276 | each of the six wrappers is a workaround of one of the two kinds that the next row is about |
| Workarounds.WorkaroundList | NootedGreen/NGreen.hpp:200-276 | any list of workaround calls on unguarded registers leaves each register with its old bits and, for each call to it, enable bits, mask and field, or what was to be cleared and what was to be set |
| Workarounds.WorkaroundOrder | NootedGreen/NGreen.hpp:200-276 | two lists with the same workarounds, in any order and however often, leave the same registers |
| WordBits.WaValue | NootedGreen/NGreen.hpp:200-213 | wa_add's value is one clear-and-set with a fixed set of bits turned on |
| Workarounds.EnablesUnion | NootedGreen/NGreen.hpp:215-218 | on a register with write-enable bits any wa_masked_en calls set exactly the requested bits, whatever the upper half reads as |
| Workarounds.FieldAsNamed | NootedGreen/NGreen.hpp:220-223 | wa_masked_field_set installs the field iff the field fills the mask and its other bits have no effect |
| Mmio.NGreen.ReadReg32 | NootedGreen/NGreen.hpp:81-89 | zero without a mapping, otherwise the read of the device model; every access in bounds |
| Mmio.NGreen.GuardZero | NootedGreen/NGreen.hpp:102-122 | the value to store instead of zero, after disabling a blank plane |
| Mmio.NGreen.WriteReg32 | NootedGreen/NGreen.hpp:92-130 | the guarded write of the device model; the self-call ends at depth one |
| Mmio.NGreen.IntelDeRmw | NootedGreen/NGreen.hpp:176-184 | a modification, returning the value found |
| Mmio.NGreen.WhitelistRegExt | NootedGreen/NGreen.hpp:186-192 | a modification that turns the flags on |
| Mmio.NGreen.WhitelistReg | NootedGreen/NGreen.hpp:194-198 | rewrites the register as it reads, the flag being zero |
| Mmio.NGreen.AddWorkaround | NootedGreen/NGreen.hpp:200-213 | the modification that wa_add performs |
| Mmio.NGreen.MaskedEn | NootedGreen/NGreen.hpp:215-218 | the modification for wa_masked_en |
| Mmio.NGreen.MaskedFieldSet | NootedGreen/NGreen.hpp:220-223 | the modification for wa_masked_field_set |
| Mmio.NGreen.WriteClrSet | NootedGreen/NGreen.hpp:225-228 | the modification for wa_write_clr_set |
| Mmio.NGreen.WriteAll | NootedGreen/NGreen.hpp:248-252 | the modification for wa_write |
| Mmio.NGreen.WriteOr | NootedGreen/NGreen.hpp:254-258 | the modification for wa_write_or |
| Mmio.NGreen.WriteClr | NootedGreen/NGreen.hpp:266-270 | the modification for wa_write_clr |
| Mmio.NGreen.Perform | NootedGreen/NGreen.hpp:81-276 | any sequence of calls takes the device through the run that the theorems are about and returns its results; at ordinary offsets no enabled plane was armed with zero, and none is left blank unless a call enabled it so |
| PagePatching.FindAndReplace | NootedGreen/Hotfixes/DYLDPatches.hpp:39-45 | in place, every non-overlapping match from left to right is replaced under the masks |
| PagePatching.MatchPlain | NootedGreen/Hotfixes/DYLDPatches.hpp:39-45 | without a mask a match is exactly where the page has the pattern's bytes |
| PagePatching.MatchMasked | NootedGreen/Hotfixes/DYLDPatches.hpp:39-45 | under a mask a match is exactly where page and pattern differ in no bit of the mask |
| PagePatching.MixedUnder | NootedGreen/Hotfixes/DYLDPatches.hpp:39-45 | under a mask what is written has the replacement's bits there and the page's elsewhere |
| PagePatching.ApplyAllInPlace | NootedGreen/Hotfixes/DYLDPatches.hpp:47-49 | the patches one after the other, in place |
| PatchLists.ApplyLeftmost | NootedGreen/Hotfixes/DYLDPatches.hpp:39-45 | any patch, even one whose matches overlap one another, replaces the leftmost match, then the leftmost behind it, and so on, and nothing else |
| PatchLists.MatchesAfter | NootedGreen/Hotfixes/DYLDPatches.hpp:39-45 | applying a patch removes exactly its own matches and those that overlap them, creates none, and keeps all others |
| PatchLists.ListRewrites | NootedGreen/Hotfixes/DYLDPatches.hpp:47-49 | a compatible list, applied one patch after the other, rewrites the page simultaneously: every byte is as any match covering it on the original page says |
| PatchLists.OrderIrrelevant | NootedGreen/Hotfixes/DYLDPatches.hpp:47-49 | order and repetition in a compatible list do not matter, on any page |
| PatchLists.NoResidue | NootedGreen/Hotfixes/DYLDPatches.hpp:47-49 | none of the patterns is left on the page |
| PatchLists.AgainUnchanged | NootedGreen/Hotfixes/DYLDPatches.hpp:47-49 | applying the list again changes nothing |
| SharedCache.GetLegacyFullMTLStage | NootedGreen/Hotfixes/DYLDPatches.cpp:26-36 | without a number the test flag decides between 1 and 0; a given number wins and is clamped to 0..3 |
| SharedCache.SelectedWhen | NootedGreen/Hotfixes/DYLDPatches.cpp:162-213 | for each CoreDisplay patch, exactly the boot arguments under which it is applied |
| SharedCache.HookWhen | NootedGreen/Hotfixes/DYLDPatches.cpp:105-213 | for each of the ten patches, exactly the system and boot arguments under which the hook applies it: the board-id patches always, the others only from Ventura on |
| PatchBytes.BypassChange | NootedGreen/Hotfixes/DYLDPatches.cpp:124-126 | the assertion jump becomes two no-ops and nothing else changes |
| PatchBytes.SkylightChange | NootedGreen/Hotfixes/DYLDPatches.cpp:143-144 | the SkyLight jump becomes six no-ops and nothing else changes |
| PatchBytes.GuardChange | NootedGreen/Hotfixes/DYLDPatches.cpp:146-149 | the call through a null pointer becomes a test and a short jump |
| PatchBytes.NullStubs | NootedGreen/Hotfixes/DYLDPatches.cpp:128-135 | the null stubs clear the result and return; only no-ops follow |
| PatchBytes.PipeStub | NootedGreen/Hotfixes/DYLDPatches.cpp:137-138 | the display pipe returns at once; only no-ops follow |
| PatchBytes.PresentStub | NootedGreen/Hotfixes/DYLDPatches.cpp:139-140 | the same for Present |
| PatchBytes.AccessStub | NootedGreen/Hotfixes/DYLDPatches.cpp:141-142 | the same for AccessComplete |
| SharedCache.BoardIdsAgree | NootedGreen/Hotfixes/DYLDPatches.hpp:77-89 | where the two board-id patterns overlap, both patches write the same and leave the rest |
| SharedCache.AllCompatible | NootedGreen/Hotfixes/DYLDPatches.cpp:105-149 | the ten patches overlap nowhere else, and none leaves part of another's pattern |
| SharedCache.PatchPage | NootedGreen/Hotfixes/DYLDPatches.cpp:105-214 | on the buffer: wherever the bytes of a table due on this system with these boot arguments stood, their replacement stands; every other byte is as it was; none of those tables' bytes stand anywhere |
| SharedCache.PatchedRewrites | NootedGreen/Hotfixes/DYLDPatches.cpp:105-214 | for every page and boot arguments, both lists together are one simultaneous rewriting of the page |
| SharedCache.PatchedSwaps | NootedGreen/Hotfixes/DYLDPatches.cpp:105-214 | for every page and all boot arguments, the patched page has the replacement wherever the bytes of a table that is due stood, is otherwise unchanged, and has those bytes nowhere |
| SharedCache.PatchedClean | NootedGreen/Hotfixes/DYLDPatches.cpp:105-214 | none of the patterns is left |
| SharedCache.AssertionGone | NootedGreen/Hotfixes/DYLDPatches.cpp:124-126 | from Ventura on the bytes of the assertion jump stand nowhere, and its no-ops where it stood, whatever the boot arguments |
| SharedCache.BeforeVentura | NootedGreen/Hotfixes/DYLDPatches.cpp:105-151 | before Ventura a page without the two board-id texts stays as it is |
| SharedCache.PatchedAnyOrder | NootedGreen/Hotfixes/DYLDPatches.cpp:105-214 | any reordering across both lists gives the same page, and patching twice is patching once |

## Left out

- `NGreen.cpp` and the `iTGL` files: start-up, configuration-space spoofing and hooks around foreign calls.
- `readReg64` and `writeReg64`: they index words instead of bytes and cut values to 32 bits, so the
  plane guard says nothing about them.
- Offsets in the last four bytes of the 64-bit range, whose end wraps around to a small number in the
  bounds test.
- The multicast (`wa_mcr_*`) forms: they forward to the forms modelled.
- Registers that the hardware changes by itself; the model's registers change only by stores.
- DisplayMerge.MergeDictionaryIntoDictionary: a source iterator that cannot be made is not modelled, because
  the code then dereferences null.
- DisplayMerge.Probe: properties of another type than the unchecked casts assume are not modelled; nor is a
  null provider, which the code dereferences before testing it.
- Reference counts, logging, and the keep-loaded trick at the start of the provider merge.
- PagePatching.FindAndReplace: the routine is foreign and not part of the repository; its left-to-right,
  non-overlapping replacement is taken as its contract, and the flag it returns for a log line is dropped.
- The start of the page hook: the original hook, the paths of single bundles with their lists, the CoreLSKD
  patch (its branch cannot be taken, because every path differs from one of two different names) and
  the VideoToolbox model replacement, whose bytes come from the running machine. The model begins behind
  these, with any page.
- Patch tables for AMD bundles, which nothing uses.
- What the patched bytes mean as x86 instructions.
