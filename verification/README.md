# Object stacks, pattern buffers and firmware tails, verified in Dafny

A Dafny 4.11 model of the parts of a Broadcom-based router source tree (toolchain headers,
driver headers and image tools) that carry real algorithms, with proofs of what they promise.
`dafny verify dfyconfig.toml` checks the whole project.

| file | what it models |
|---|---|
| `Bits.dfy` | bitwise operations on words of any width, and the bridge from masks to arithmetic |
| `WordMacros.dfy` | the rounding, alignment and modular-arithmetic macros of bcmutils.h, on `w`-bit words |
| `Memory.dfy` | a flat byte memory whose keys are the owned addresses |
| `Obstack.dfy` | the object stack on values: control block, chunk chain, one transition per macro, the invariant |
| `ObstackProofs.dfy` | every transition keeps the invariant |
| `ObstackRuns.dfy` | theorems about whole runs: refinement, stable addresses, unwinding, alignment, room, partition independence |
| `ObstackEffects.dfy` | what each operation changes on the fields: objects, relocation, flag, memory, returned addresses |
| `ObstackMacros.dfy` | the control block as an object updated in place by both macro families, and their agreement |
| `ObstackWords.dfy` | the macros of both families on pointers of `w` bits: when their tests, rounding, clip and path choice are right |
| `Regexp.dfy` | `compile` of regexp.h up to the call of regcomp |
| `Endian.dfy` | byte swaps, unaligned loads and stores, the in-place buffer swap |
| `TailTools.dfy` | addtail and add_odm_data on files, and runs of the two tools |
| `Bitmap.dfy`, `ThreadEvents.dfy` | setbit/clrbit on a byte array, and the debugger's event masks, as sets |
| `WordLoops.dfy` | find_msbit and the bounded spin loop |

## How the object stack is modelled

A configuration is the control block (without `temp`), the memory of its chunks, and the live
finished objects with the chunk each was finished in. An operation carries everything its
environment may choose: where a new chunk lies, what its uninitialised bytes are, whether the
old chunk is freed, and the value of the empty-object flag. So every theorem about runs holds
for every allocator. `Enabled` is what a caller must respect (free only live objects, use the
fast macros only with room) together with the contract of the two library functions.

Assumptions, taken from the prose of obstack.h because the functions have no body in the tree:

* `_obstack_newchunk` (lines 80-83, 181-184) gives a chunk disjoint from the stack's chunks with
  room for the growing object and the requested bytes, copies the growing object to the first
  aligned address of `contents`, and may free the old chunk only if the growing object starts it
  and the empty-object flag is clear.
* `_obstack_free` (lines 98-100, 153-158) frees the chunks younger than the one the object lies
  in. The flag afterwards is any value that is set whenever the chunk it returns to still holds a
  live empty object.
* `_obstack_begin` gives one chunk with nothing in it.
* Neither `_obstack_newchunk` nor `_obstack_free` changes the `temp` slot: the portable grow,
  grow0 and blank read their length from it after the call.

Pointers are natural numbers in the transitions and the class. `ObstackWords` repeats every macro
on pointers of `w` bits and shows that an operation, and so a run, is the one on natural numbers
exactly when it is in range; all theorems about runs then hold of the run on words.

## Where code and promise differ

* `compile` stores its terminator through a null pointer exactly when the pattern is empty
  (`Regexp.Accumulate`).
* `next_free + length > chunk_limit` is the room test of `obstack_grow`, `obstack_grow0` and
  `obstack_1grow` in both families and of `obstack_make_room` in the portable one. On `w`-bit
  pointers it is right exactly when the sum does not wrap; when it wraps past the top it reports
  room that is not there (`ObstackWords.SumTestExact`). The GNU `obstack_make_room` and
  `obstack_blank` test `chunk_limit - next_free < length`, which is always right
  (`DifferenceTestExact`). The families differ exactly in `obstack_make_room` with a wrapping sum
  (`FamiliesAgreeOnWordsExact`).
* On `w`-bit pointers `obstack_finish` rounds and clips as intended exactly when the rounded
  address lies less than 2^(w-1) above the chunk (`ObstackWords.FinishOnWordsExact`); a rounding
  that wraps at the top of memory is still clipped correctly.
* `ROUNDUP`, `MODADD` and `SPINWAIT` compute what their comments say exactly when the stated sum
  does not wrap (`RoundUpExact`, `ModAddExact`, `SpinLimitExact`). `MODSUB` does exactly when the
  true difference fits an int, where an int difference that overflows, undefined in C, is taken to
  wrap around (`ModSubExact`). `ISALIGNED` decides divisibility exactly for powers of two
  (`IsAlignedNeedsPowerOfTwo`).
* add_odm_data also accepts an image that addtail has not been run on, and then writes its
  profile over the last 20 bytes of the image. The profile ends up right behind the intact image
  exactly when one tail was appended, or none to an image shorter than 20 bytes, where the seek
  fails (`TailTools.ProfilePlacement`, `TailTools.ImageKeptExact`).

## Model

| member | source | states |
|---|---|---|
| WordMacros.IsPowerOf2Exact | broadcom/src/include/bcmutils.h:376 | ISPOWEROF2 accepts 0 and the powers of two and nothing else, at every word size |
| WordMacros.ValidMaskExact | broadcom/src/include/bcmutils.h:377 | VALID_MASK accepts exactly the masks 2^k - 1, the full word included |
| WordMacros.IsAlignedIsDivisibility | broadcom/src/include/bcmutils.h:375 | ISALIGNED(a, 2^k) iff 2^k divides a |
| WordMacros.IsAlignedNeedsPowerOfTwo | broadcom/src/include/bcmutils.h:375 | ISALIGNED(a, x) is divisibility for every a iff x is a power of two |
| WordMacros.RoundUpExact | broadcom/src/include/bcmutils.h:373-374 | ROUNDUP gives the least multiple of y from x up, iff x + (y - 1) does not wrap |
| WordMacros.ModAddExact | broadcom/src/include/bcmutils.h:411-413 | MODADD is addition modulo the bound iff the sum fits the word |
| WordMacros.SignedDifferenceExact | broadcom/src/include/bcmutils.h:415 | the int difference, wrapping around, is the true difference iff that fits an int |
| WordMacros.ModSubExact | broadcom/src/include/bcmutils.h:411-415 | MODSUB is subtraction modulo the bound iff the true difference fits an int |
| WordMacros.ModIncDecExact | broadcom/src/include/bcmutils.h:403-405 | MODINC and MODDEC are x + 1 and x - 1 modulo the bound |
| WordMacros.ModAddSubInverse | broadcom/src/include/bcmutils.h:411-415 | MODADD and MODSUB undo each other in both orders |
| WordMacros.ModIncDecInverse | broadcom/src/include/bcmutils.h:403-405 | MODINC and MODDEC undo each other in both orders |
| WordMacros.MaskFormsAreModular | broadcom/src/include/bcmutils.h:407-419 | the four mask forms reduce modulo 2^k for all operands, wrapped unsigned differences included |
| WordMacros.MaskFormsRefineMux | broadcom/src/include/bcmutils.h:403-419 | for bound 2^k and in-range operands each mask form equals its MUX form |
| ObstackProofs.AlignUpIsLeast | brcm/hndtools-mipsel-uclibc-3.2.3/include/obstack.h:479-481 | the finish rounding is the least multiple of mask + 1 not below next_free |
| ObstackProofs.AlignUpOnWords | brcm/hndtools-mipsel-uclibc-3.2.3/include/obstack.h:479-481 | on words of any width the expression with `& ~mask` equals ROUNDUP(p, mask + 1), wrapped or not, and is the least multiple from p up iff p + mask does not wrap |
| ObstackProofs.ObjectsDisjoint | brcm/hndtools-mipsel-uclibc-3.2.3/include/obstack.h:90-94 | two live objects never share a byte |
| ObstackProofs.GrowingDisjoint | brcm/hndtools-mipsel-uclibc-3.2.3/include/obstack.h:90-95 | the growing object and the room after it share no byte with a live object |
| ObstackProofs.EnsureRoomKeepsInv | brcm/hndtools-mipsel-uclibc-3.2.3/include/obstack.h:80-83 | after the room test and a relocation for any allowed chunk, the invariant holds, n bytes fit and the growing bytes are unchanged |
| ObstackProofs.FinishKeepsInv | brcm/hndtools-mipsel-uclibc-3.2.3/include/obstack.h:472-486 | finish, clipping included, adds the growing object as a live object and leaves an empty one |
| ObstackProofs.FreeKeepsInv | brcm/hndtools-mipsel-uclibc-3.2.3/include/obstack.h:488-494 | free keeps the invariant on the older objects, on both paths |
| ObstackProofs.StepKeepsInv | brcm/hndtools-mipsel-uclibc-3.2.3/include/obstack.h:346-494 | every operation keeps start <= object_base <= next_free <= chunk_limit, ownership of memory, the objects' bytes, their order and the flag's meaning |
| ObstackRuns.BeginEstablishesInv | brcm/hndtools-mipsel-uclibc-3.2.3/include/obstack.h:290-308 | a new stack satisfies the invariant, is the empty abstract stack, and has base and next_free at the first aligned address of its one chunk |
| ObstackRuns.SomeChoiceAllowed | brcm/hndtools-mipsel-uclibc-3.2.3/include/obstack.h:80-83 | relocation is possible from every state, so runs are never blocked by the contract |
| ObstackRuns.StepRefines | brcm/hndtools-mipsel-uclibc-3.2.3/include/obstack.h:388-494 | one operation is the same operation on a stack of byte strings with one growing byte string |
| ObstackRuns.RunRefines | brcm/hndtools-mipsel-uclibc-3.2.3/include/obstack.h:388-494 | every run refines that abstract stack, whatever chunks are handed out |
| ObstackRuns.WholeRunRefines | brcm/hndtools-mipsel-uclibc-3.2.3/include/obstack.h:89-100 | the same from a newly initialised stack |
| ObstackRuns.FinishedObjectsStay | brcm/hndtools-mipsel-uclibc-3.2.3/include/obstack.h:73-78 | over any run that does not free or overwrite them, finished objects keep address, chunk and bytes |
| ObstackRuns.FreePathExact | brcm/hndtools-mipsel-uclibc-3.2.3/include/obstack.h:492-494 | the fast path is taken iff the object is in the current chunk and not at its limit; only an empty object can be at the limit; the chain walk finds the object's own chunk |
| ObstackRuns.FreeUnwinds | brcm/hndtools-mipsel-uclibc-3.2.3/include/obstack.h:488-494 | freeing object i leaves exactly the objects before it and an empty growing object at its address in its chunk |
| ObstackRuns.UnwindRestores | brcm/hndtools-mipsel-uclibc-3.2.3/include/obstack.h:98-100 | finish, any run sparing older objects, then freeing the finished object restores the live objects, the chunk and the base |
| ObstackRuns.FlagAnnouncesEmptyObjects | brcm/hndtools-mipsel-uclibc-3.2.3/include/obstack.h:181-185 | if the growing object starts its chunk, any live object there is empty, at the same address, and the flag is set |
| ObstackRuns.RelocationStrandsNoObject | brcm/hndtools-mipsel-uclibc-3.2.3/include/obstack.h:181-185 | relocation, replacing the old chunk or not, keeps the chunk of every live object |
| ObstackRuns.FlagIsNeeded | brcm/hndtools-mipsel-uclibc-3.2.3/include/obstack.h:477-478 | with the flag cleared, replacing the chunk would free the chunk of a live empty object |
| ObstackRuns.AlignmentOverRuns | brcm/hndtools-mipsel-uclibc-3.2.3/include/obstack.h:479-485 | in every reachable state non-empty objects start at multiples of mask + 1, and a base that does not is empty and without room |
| ObstackRuns.FastOpsStayInside | brcm/hndtools-mipsel-uclibc-3.2.3/include/obstack.h:346-348 | fast operations that fit are all allowed, stay in the chunk and advance next_free by their total |
| ObstackRuns.MakeRoomCoversFastOps | brcm/hndtools-mipsel-uclibc-3.2.3/include/obstack.h:346-381 | after make_room(n), any fast operations of at most n bytes in total stay inside the chunk |
| ObstackRuns.PiecesAccumulate | brcm/hndtools-mipsel-uclibc-3.2.3/include/obstack.h:388-415 | a run of growth operations appends exactly its pieces, across relocations, and finishes nothing |
| ObstackRuns.PartitionIndependence | brcm/hndtools-mipsel-uclibc-3.2.3/include/obstack.h:388-462 | any split of a byte string into growth operations finishes to the bytes of one obstack_copy |
| ObstackRuns.PartitionIndependence0 | brcm/hndtools-mipsel-uclibc-3.2.3/include/obstack.h:398-468 | ending with grow0 gives those bytes and exactly one NUL, as one obstack_copy0 does |
| ObstackEffects.GrowthEffect | brcm/hndtools-mipsel-uclibc-3.2.3/include/obstack.h:375-450 | each growth operation appends exactly its bytes, blank resizes keeping the bytes, and no object changes |
| ObstackEffects.FinishEffect | brcm/hndtools-mipsel-uclibc-3.2.3/include/obstack.h:472-486 | finish adds one object, at the old base, with the growing bytes, in the current chunk |
| ObstackEffects.PokeEffect | brcm/hndtools-mipsel-uclibc-3.2.3/include/obstack.h:452-456 | a client store into an object changes that byte of that object only |
| ObstackEffects.RelocationExact | brcm/hndtools-mipsel-uclibc-3.2.3/include/obstack.h:375-450 | the object moves to the chosen chunk, to its first aligned address, iff the bytes asked for do not fit; otherwise chunk, base, limit and flag stay |
| ObstackEffects.FlagExact | brcm/hndtools-mipsel-uclibc-3.2.3/include/obstack.h:477-478 | after finish the flag is set iff it was or the growing bytes were empty; free keeps it on the fast path |
| ObstackEffects.FlagOverRuns | brcm/hndtools-mipsel-uclibc-3.2.3/include/obstack.h:181-185 | over runs without relocation or slow free the flag is set iff it was at the start or an empty object was finished |
| ObstackEffects.MemoryKept | brcm/hndtools-mipsel-uclibc-3.2.3/include/obstack.h:388-415 | an operation changes no byte that stays owned except where it adds its bytes or the client writes |
| ObstackEffects.ReturnedAddress | brcm/hndtools-mipsel-uclibc-3.2.3/include/obstack.h:472-486 | a run returns one address per finish, the one at which that finish leaves its object |
| ObstackMacros.ObjectStack.constructor | brcm/hndtools-mipsel-uclibc-3.2.3/include/obstack.h:290-308 | the new control block is the initial configuration |
| ObstackMacros.ObjectStack.CallFree | brcm/hndtools-mipsel-uclibc-3.2.3/include/obstack.h:153-158 | walking prev and releasing chunk by chunk leaves exactly the memory of the chunk found and its predecessors |
| ObstackMacros.ObjectStack.GnuMakeRoom | brcm/hndtools-mipsel-uclibc-3.2.3/include/obstack.h:375-381 | the GNU macro is the make-room step, `temp` untouched |
| ObstackMacros.ObjectStack.GnuGrow | brcm/hndtools-mipsel-uclibc-3.2.3/include/obstack.h:388-396 | the GNU macro is the grow step; its copy lands in owned memory |
| ObstackMacros.ObjectStack.GnuGrow0 | brcm/hndtools-mipsel-uclibc-3.2.3/include/obstack.h:398-407 | the GNU macro's two writes are one append of the data and a NUL |
| ObstackMacros.ObjectStack.GnuOneGrow | brcm/hndtools-mipsel-uclibc-3.2.3/include/obstack.h:409-415 | the GNU macro is the one-byte growth step |
| ObstackMacros.ObjectStack.GnuBlank | brcm/hndtools-mipsel-uclibc-3.2.3/include/obstack.h:443-450 | the GNU macro is the blank step, negative lengths down to the base included |
| ObstackMacros.ObjectStack.GnuFinish | brcm/hndtools-mipsel-uclibc-3.2.3/include/obstack.h:472-486 | the GNU macro is the finish step, returns the old base, and sets the flag iff it was set or next_free was the base |
| ObstackMacros.ObjectStack.GnuFree | brcm/hndtools-mipsel-uclibc-3.2.3/include/obstack.h:488-494 | the GNU macro is the free step for a live object's address |
| ObstackMacros.ObjectStack.GnuAlloc | brcm/hndtools-mipsel-uclibc-3.2.3/include/obstack.h:452-456 | alloc is blank then finish, returning the address of the newest object |
| ObstackMacros.ObjectStack.GnuCopy | brcm/hndtools-mipsel-uclibc-3.2.3/include/obstack.h:458-462 | copy is grow then finish, returning the address of the newest object |
| ObstackMacros.ObjectStack.GnuCopy0 | brcm/hndtools-mipsel-uclibc-3.2.3/include/obstack.h:464-468 | copy0 is grow0 then finish, returning the address of the newest object |
| ObstackMacros.ObjectStack.PortableMakeRoom | brcm/hndtools-mipsel-uclibc-3.2.3/include/obstack.h:513-516 | the portable macro, through `temp` and the other test, is the make-room step |
| ObstackMacros.ObjectStack.PortableGrow | brcm/hndtools-mipsel-uclibc-3.2.3/include/obstack.h:518-523 | the portable macro is the grow step |
| ObstackMacros.ObjectStack.PortableGrow0 | brcm/hndtools-mipsel-uclibc-3.2.3/include/obstack.h:525-531 | the portable macro is the grow0 step |
| ObstackMacros.ObjectStack.PortableOneGrow | brcm/hndtools-mipsel-uclibc-3.2.3/include/obstack.h:533-536 | the portable macro is the one-byte growth step |
| ObstackMacros.ObjectStack.PortableBlank | brcm/hndtools-mipsel-uclibc-3.2.3/include/obstack.h:554-558 | the portable macro is the blank step |
| ObstackMacros.ObjectStack.PortableFinish | brcm/hndtools-mipsel-uclibc-3.2.3/include/obstack.h:569-581 | the portable macro is the finish step, returns the old base through `temp`, and sets the flag iff it was set or next_free was the base |
| ObstackMacros.ObjectStack.PortableFree | brcm/hndtools-mipsel-uclibc-3.2.3/include/obstack.h:583-597 | the portable offset test selects the same path and step |
| ObstackMacros.ObjectStack.PortableAlloc | brcm/hndtools-mipsel-uclibc-3.2.3/include/obstack.h:560-561 | alloc is blank then finish, returning the address of the newest object |
| ObstackMacros.ObjectStack.PortableCopy | brcm/hndtools-mipsel-uclibc-3.2.3/include/obstack.h:563-564 | copy is grow then finish, returning the address of the newest object |
| ObstackMacros.ObjectStack.PortableCopy0 | brcm/hndtools-mipsel-uclibc-3.2.3/include/obstack.h:566-567 | copy0 is grow0 then finish, returning the address of the newest object |
| ObstackMacros.ObjectStack.FastOneGrow | brcm/hndtools-mipsel-uclibc-3.2.3/include/obstack.h:346 | with room, the fast store is the one-byte growth step |
| ObstackMacros.ObjectStack.FastBlank | brcm/hndtools-mipsel-uclibc-3.2.3/include/obstack.h:348 | with room, the fast advance is the blank step |
| ObstackMacros.ObjectStack.GnuRun | brcm/hndtools-mipsel-uclibc-3.2.3/include/obstack.h:365-494 | any run through the GNU family is the run of the transitions and returns its addresses |
| ObstackMacros.ObjectStack.PortableRun | brcm/hndtools-mipsel-uclibc-3.2.3/include/obstack.h:496-599 | the same for the portable family |
| ObstackMacros.FamiliesAgree | brcm/hndtools-mipsel-uclibc-3.2.3/include/obstack.h:365-599 | from equal states any run through either family, on pointers as numbers, gives equal fields, memory, objects and returned addresses |
| ObstackWords.DifferenceTestExact | brcm/hndtools-mipsel-uclibc-3.2.3/include/obstack.h:379 | on w-bit pointers the difference test of make_room and blank is always right |
| ObstackWords.SumTestExact | brcm/hndtools-mipsel-uclibc-3.2.3/include/obstack.h:392 | on w-bit pointers the sum test of grow, grow0, 1grow and the portable make_room is right iff the sum does not wrap, and otherwise reports room that is not there |
| ObstackWords.RoomTestsAgreeExact | brcm/hndtools-mipsel-uclibc-3.2.3/include/obstack.h:379-516 | on w-bit pointers the two make_room tests agree iff next_free + length does not wrap |
| ObstackWords.FinishOnWordsExact | brcm/hndtools-mipsel-uclibc-3.2.3/include/obstack.h:479-485 | on w-bit pointers finish gives the rounded address clipped to the limit, wrapped rounding included, iff the rounded address is less than 2^(w-1) above the chunk |
| ObstackWords.OffsetTestExact | brcm/hndtools-mipsel-uclibc-3.2.3/include/obstack.h:585-589 | on w-bit pointers the signed offset test is the pointer comparison for every address, and adding the offset back gives the address |
| ObstackWords.StepOnWordsExact | brcm/hndtools-mipsel-uclibc-3.2.3/include/obstack.h:365-599 | one macro of either family on w-bit pointers is its transition on numbers iff no test sum wraps and finish stays near the chunk |
| ObstackWords.FamiliesAgreeOnWordsExact | brcm/hndtools-mipsel-uclibc-3.2.3/include/obstack.h:365-599 | on w-bit pointers the two families do the same in one operation, right or wrong, iff it is not a make_room whose sum wraps |
| ObstackWords.RunOnWordsExact | brcm/hndtools-mipsel-uclibc-3.2.3/include/obstack.h:365-599 | a run on w-bit pointers that stays in range is the run on numbers |
| ObstackWords.FamiliesAgreeOnWords | brcm/hndtools-mipsel-uclibc-3.2.3/include/obstack.h:365-599 | runs on w-bit pointers in range for the portable family end equal in both families |
| Regexp.PatternIsLongestPrefix | brcm/hndtools-mipsel-uclibc-3.2.3/include/regexp.h:134-140 | the pattern is the longest prefix without eof, 0 or 10; a stopping eof is consumed, a stopping 0 or 10 is the next character to read |
| Regexp.CStringIsPattern | brcm/hndtools-mipsel-uclibc-3.2.3/include/regexp.h:162-167 | regcomp reads the whole pattern iff no character is stored as a NUL byte |
| Regexp.AlignBufferExact | brcm/hndtools-mipsel-uclibc-3.2.3/include/regexp.h:111-123 | expbuf moves to the least multiple of the requirement strictly above it |
| Regexp.GrowBuffer | brcm/hndtools-mipsel-uclibc-3.2.3/include/regexp.h:144-160 | each growth keeps the contents, owns its room, and doubles or triples the capacity, for every adjacency of the new region |
| Regexp.StoreChar | brcm/hndtools-mipsel-uclibc-3.2.3/include/regexp.h:142-162 | one character goes into owned memory and leaves room for a NUL; a growth at least doubles |
| Regexp.TerminatedBytes | brcm/hndtools-mipsel-uclibc-3.2.3/include/regexp.h:162-164 | the stored bytes are the characters modulo 256, so the characters themselves in 0..255, then 0 |
| Regexp.Accumulate | brcm/hndtools-mipsel-uclibc-3.2.3/include/regexp.h:134-164 | in new memory lie the pattern's characters modulo 256 and a 0; older memory is untouched; at most 128 or 4n - 128 bytes are requested; null write iff the pattern is empty |
| Regexp.Compile | brcm/hndtools-mipsel-uclibc-3.2.3/include/regexp.h:101-167 | error 50 iff no regex_t fits behind the aligned start, reading nothing; otherwise the buffer is split exactly between regex_t and compiled pattern |
| TailTools.AddTail | broadcom/tools/addtail.c:59-75 | the file grows by twenty zero bytes and keeps its own |
| TailTools.BuildProfile | broadcom/tools/add_odm_data.c:146-152 | byte i < 12 is id[i] or a space, then the two lengths least significant byte first |
| TailTools.CopyLoop | broadcom/tools/add_odm_data.c:171-187 | for every way fread splits, zero counts included, the loop ends, never takes more than is left and appends the file exactly |
| TailTools.HasHeaderExact | broadcom/tools/add_odm_data.c:80 | the header test is four byte comparisons on a file of at least eight bytes |
| TailTools.AcceptsExact | broadcom/tools/add_odm_data.c:80-91 | the guard is "HDR0" and at most 20 bytes over the recorded length, the sum taken in 32 bits |
| TailTools.ProfileExact | broadcom/tools/add_odm_data.c:146-152 | byte by byte: id or space, then both lengths least significant byte first |
| TailTools.ProfiledExact | broadcom/tools/add_odm_data.c:93-187 | the file after an accepted run, part by part |
| TailTools.AfterOdmExact | broadcom/tools/add_odm_data.c:79-187 | one run on the bytes: the profile is written iff all three guards hold, else the file stays |
| TailTools.CheckFiles | broadcom/tools/add_odm_data.c:71-140 | each outcome of the checks iff its bytes say so, with nothing written |
| TailTools.AddOdmData | broadcom/tools/add_odm_data.c:71-192 | each outcome iff its bytes say so; success writes profile, picture and settings at the tail, every other outcome leaves the file unchanged |
| TailTools.ExtensionKeepsHeader | broadcom/tools/add_odm_data.c:80-91 | an extended image is accepted iff at most 20 bytes follow it |
| TailTools.TailThenProfile | broadcom/tools/add_odm_data.c:79-187 | addtail then an accepted run gives image, profile, picture, settings |
| TailTools.RejectedRunsKeepFile | broadcom/tools/add_odm_data.c:86-139 | any rejected runs leave any file as it was, with or without an image header |
| TailTools.RejectedForEver | broadcom/tools/add_odm_data.c:86-91 | once more than 20 bytes follow the image, over all further runs only addtail changes the file |
| TailTools.FirstProfileStays | broadcom/tools/add_odm_data.c:86-91 | after the first profile any runs leave image, profile and payloads in place |
| TailTools.TwoTailsLockOut | broadcom/tools/addtail.c:66-75 | after two addtail runs no profile is ever written |
| TailTools.AcceptedResult | broadcom/tools/add_odm_data.c:93-187 | an accepted run keeps the file up to 20 bytes before its end, or all of a shorter file, and continues with profile, picture, settings |
| TailTools.ProfilePlacement | broadcom/tools/add_odm_data.c:86-93 | the result is image, profile, picture, settings iff one tail was appended, or none to an image shorter than 20 bytes |
| TailTools.ImageKeptExact | broadcom/tools/add_odm_data.c:86-160 | the image's bytes survive iff the profile is written behind them or the overwritten bytes equal the profile's |
| TailTools.RoundTrip | broadcom/tools/add_odm_data.c:146-187 | picture and settings are read back from behind the image by the recorded lengths, and the id byte by byte with spaces behind it |
| Endian.Swap16Exchanges | broadcom/src/include/bcmendian.h:37-40 | the masks and shifts exchange the two bytes |
| Endian.Swap32Reverses | broadcom/src/include/bcmendian.h:43-48 | the masks and shifts reverse the four bytes |
| Endian.Swap32By16Exchanges | broadcom/src/include/bcmendian.h:51-54 | the two halves change places |
| Endian.Swap32Involution | broadcom/src/include/bcmendian.h:63-67 | swapping twice gives the value back |
| Endian.Swap16Involution | broadcom/src/include/bcmendian.h:57-61 | swapping twice gives the value back |
| Endian.SwapsCompose | broadcom/src/include/bcmendian.h:37-54 | the 32-bit swap is the exchange of halves with each half swapped |
| Endian.LoadsExact | broadcom/src/include/bcmendian.h:167-200 | each load as a sum of its bytes with their weights |
| Endian.LoadsDifferBySwap | broadcom/src/include/bcmendian.h:167-200 | network-order loads are swapped little-endian loads of the same bytes |
| Endian.LoadUaAgrees | broadcom/src/include/bcmutils.h:449-508 | the accessors that join with `\|` equal the ones that add, in both byte orders |
| Endian.Htol16UaStore | broadcom/src/include/bcmendian.h:123-128 | each byte in little-endian order, the matching load returns the value, no other byte changes |
| Endian.Htol32UaStore | broadcom/src/include/bcmendian.h:133-140 | each byte in little-endian order, the matching load returns the value, no other byte changes |
| Endian.Hton16UaStore | broadcom/src/include/bcmendian.h:145-150 | each byte in network order, the matching load returns the value, no other byte changes |
| Endian.Hton32UaStore | broadcom/src/include/bcmendian.h:155-162 | each byte in network order, the matching load returns the value, no other byte changes |
| Endian.BcmSwap16Buf | broadcom/src/include/bcmendian.h:75-86 | bytes 2i and 2i + 1 change places for i < len / 2, in either host order, and the rest stays |
| Endian.SwapPairsConverts | broadcom/src/include/bcmendian.h:75-86 | little-endian loads of the result are big-endian loads of the original, an odd byte and the rest stay, twice is the identity |
| Bitmap.SetBit | broadcom/src/include/bcmutils.h:388 | setbit adds exactly bit i to the array's set |
| Bitmap.ClrBit | broadcom/src/include/bcmutils.h:389 | clrbit removes exactly bit i |
| Bitmap.Members | broadcom/src/include/bcmutils.h:390-391 | the set of an array is the indices for which isset is non-zero |
| Bitmap.MembersExact | broadcom/src/include/bcmutils.h:388-391 | i is in the set iff bit i % 8, from the low end, of byte i / 8 is one |
| Bitmap.IsClr | broadcom/src/include/bcmutils.h:391 | isclr is true iff the index is not in the set |
| Bitmap.SetBitAddsMember | broadcom/src/include/bcmutils.h:388 | setting a bit is adding to the set |
| Bitmap.ClrBitRemovesMember | broadcom/src/include/bcmutils.h:389 | clearing a bit is removing from the set |
| Bitmap.MembersDetermineBytes | broadcom/src/include/bcmutils.h:388-391 | arrays of equal length with equal sets have equal bytes |
| Bitmap.RunRefinesSet | broadcom/src/include/bcmutils.h:388-391 | any sequence of setbit and clrbit is that sequence of set operations |
| Bitmap.RunBitmap | broadcom/src/include/bcmutils.h:388-391 | the same for the macros on an array in place |
| ThreadEvents.EventPlace | brcm/hndtools-mipsel-uclibc-3.2.3/include/thread_db.h:101-116 | word and mask of events 1 to 64 as quotient and remainder, always inside the set |
| ThreadEvents.EventsExact | brcm/hndtools-mipsel-uclibc-3.2.3/include/thread_db.h:113-137 | n is in the set iff 1 <= n <= 64 and bit (n - 1) % 32 of word (n - 1) / 32 is one |
| ThreadEvents.EventSet.EmptySet | brcm/hndtools-mipsel-uclibc-3.2.3/include/thread_db.h:118-123 | the loop gives the empty set |
| ThreadEvents.EventSet.FillSet | brcm/hndtools-mipsel-uclibc-3.2.3/include/thread_db.h:125-130 | the loop gives all of 1 to 64 |
| ThreadEvents.EventSet.AddSet | brcm/hndtools-mipsel-uclibc-3.2.3/include/thread_db.h:132-133 | adds exactly event n |
| ThreadEvents.EventSet.DelSet | brcm/hndtools-mipsel-uclibc-3.2.3/include/thread_db.h:134-135 | removes exactly event n |
| ThreadEvents.EventSet.IsMember | brcm/hndtools-mipsel-uclibc-3.2.3/include/thread_db.h:136-137 | non-zero iff the event is in the set |
| ThreadEvents.EventSet.IsEmpty | brcm/hndtools-mipsel-uclibc-3.2.3/include/thread_db.h:138-140 | true iff the set has no event |
| ThreadEvents.EmptyExactly | brcm/hndtools-mipsel-uclibc-3.2.3/include/thread_db.h:138-140 | both words are zero iff the set is empty |
| WordLoops.HalvingStep | broadcom/src/include/bitfuncs.h:77-95 | whichever half the mask selects, the most significant one is in it |
| WordLoops.Halve | broadcom/src/include/bitfuncs.h:77-92 | one halving step keeps the shifted word below 2^k and non-zero for non-zero input |
| WordLoops.FindMsbit | broadcom/src/include/bitfuncs.h:73-97 | returns r with 2^r <= x < 2^(r+1), and 0 for 0 |
| WordLoops.TopBitUnique | broadcom/src/include/bitfuncs.h:39-42 | those bounds determine the index |
| WordLoops.SpinWait | broadcom/src/include/bcmutils.h:83-89 | the loop delays up to the first failing poll and at most countdown / 10 times |
| WordLoops.DelaysIsFirstFailure | broadcom/src/include/bcmutils.h:78-82 | that number is the first poll at which the condition is false, or the limit |
| WordLoops.SpinLimitExact | broadcom/src/include/bcmutils.h:83-89 | the limit is us / 10 rounded up iff us + 9 does not wrap; when it wraps there is no wait |

## Left out

- Bodies of `_obstack_newchunk`, `_obstack_free` and `_obstack_begin`: not in the tree; replaced by the contracts above.
- `obstack_free` with a null pointer or an address that is no live object: the header does not say what it does.
- `obstack_ptr_grow` and `obstack_int_grow`: growth by the bytes of one value, no new behaviour.
- The size, room and emptiness accessors, allocation failure, allocator callbacks and chunk_size: single expressions or foreign code.
- A growth source that points into the stack's own memory: the data is a value read before the call.
- ObstackMacros.FamiliesAgree: on pointers as natural numbers; the run on w-bit pointers, where both families overrun the chunk or differ, is characterised on the transitions in ObstackWords and not on the class.
- TailTools.AddOdmData: the three files are distinct objects and shorter than 2^31 bytes, the reads of the 8-byte headers are complete; printf, fopen, malloc and fwrite failures are not modelled.
- `regcomp` and the translation of its error codes: a library call without a body and a one-branch mapping.
- `compile`: the stores into the caller's regex_t are returned as values, the INIT and RETURN macros are the caller's.
- The Pentium variant of find_msbit, packet queues, TLV, CRC and other functions of which only prototypes are present.
- WordLoops.SpinWait: the delay itself is hardware behaviour; only the number of delays is modelled.
- `ltoh_ua`, `ntoh_ua` and the `hton16`-style aliases: selections among the operations above.
