# nOVL and its libelf, modelled in Dafny

nOVL turns a MIPS ELF image into a Nintendo 64 overlay; the libelf bundled with it builds, edits,
lays out, writes and re-reads ELF files. This project models the parts of both that carry the
hardest promises, and proves them. `dafny verify dfyconfig.toml` checks everything.

The modules follow the program:

- **Relocation engine** (`reloc.dfy`): the handlers as functions on the engine's state (image and the
  three `hilopair_*` tables), and the class `Relocator` whose methods change that state in place and
  are proved equal to the functions. `instructions.dfy` states what the functions on words mean for the
  fields of MIPS instructions.
- **The two passes** (`passes.dfy`, `pass_safety.dfy`): dry run and real pass as runs over one event
  list; what both compute is stated from the untouched image alone. `meaning.dfy` says exactly which
  references survive, `replay.dfy` that the emitted entries relocate the image again,
  `replay_exact.dfy` that they do so only if no entry that matters was taken back, and
  `retraction.dfy` exactly which entry a failing LO16 takes back. `counterexamples.dfy` has inputs
  that break a reference, a jump, a register field, a retraction and a replay.
- **Overlay file** (`overlay.dfy`, `overlay_reader.dfy`, `converter.dfy`, `conversion.dfy`): sorting, the
  address prediction, writer, reader, and the whole of `novl_conv` from the loaded image on;
  `example_overlay.dfy` is a small conversion, word by word.
- **Records and byte order** (`codec.dfy`, `records.dfy`, `puts.dfy`, `elf_types.dfy`, `words.dfy`).
  `file_format.dfy`, `element_bytes.dfy`, `section_types.dfy` and `version_format.dfy` state the formats on
  bytes and numbers alone, without the tables by which the rest is written: where each header field is,
  which byte of an element goes where, what depends on the number of a section type, and which bytes
  of version records lead where.
- **Layout** (`layout.dfy` specifies, `layouter.dfy` updates a descriptor in place; `allocation.dfy`,
  `overlap_check.dfy` and `relayout.dfy` prove what the layout guarantees; `many_sections.dfy` is an
  input that is accepted once only).
- **Writing and reading ELF files** (`pieces.dfy`, `written_file.dfy`, `writer.dfy`, `update.dfy`, `cook.dfy`,
  `read_back.dfy`, `round_trip.dfy`, `strings.dfy`; `mirrors.dfy` and `data_exact.dfy` say which buffers are found again,
  `version_data.dfy` the same of version records; `example_file.dfy`, `example_data.dfy` and
  `example_versions.dfy` are instances).
- **Linked structures** (`section_list.dfy`, `archive.dfy`): the mutable section list and the reference
  counts of archives, on the heap, with ghost sequences.
- **Version records and symbol lookup** (`versions.dfy`, `version_chains.dfy`, `nlist.dfy`;
  `version_offsets.dfy` is about offsets that wrap around).

Facts about the code that decide what can be promised:

- A LO16 rewrites its HI16 every time, so LO16s that share a HI16 survive together only if they agree
  on the high half; `Expressible` is the exact condition, `Uniform` the usual one.
- The high half can be 0x10000; the carry is or-ed into the register field of the HI16, which changes it
  exactly if it is even.
- A failing LO16 takes back the entry listed last. That is the entry of its HI16 exactly if the
  predicted count is balanced between the two; otherwise a replay can miss a word.
- `.bss` is predicted to follow the file; with a base address that is not a multiple of 16 the program
  always ends with its own size error.
- With 64-bit longs `elf_hash` agrees with the standard's 28-bit function on the low 32 bits, and
  altogether exactly if none of the last eight rounds carries; lookup works all the same.
- The overlap check of a caller-supplied layout skips null sections, and once there are 0xff00 sections
  it takes the section count in the first header for an extent; a second layout then fails exactly if a
  section that it looks at meets that extent.
- A section is read in whole elements: a buffer that ends beyond the last one is written and not read.
  In the other byte order one that does not start where fields start is found only if its bytes happen
  to match.
- Records of one section may be spread over buffers when it is written; read, they are one chain, which
  is the first buffer's exactly if, wherever that leaves the buffer, no further record fits in the
  section. Links that end in the buffer, and links that lead beyond the section, both do.
- With a 32-bit `size_t` the offsets of version records can wrap around; with 64 bits they cannot.
- `elf_delscn` stores the count in the 16-bit field of the ELF header, without the extended encoding.

## Model

| member | source | states |
|---|---|---|
| Reloc.TargetFrom | src/novl-reloc.c:53-62 | the answer passes the wrapping range test, and no section before it does; -1 only if none does |
| Reloc.Relocator.GetTargetSection | src/novl-reloc.c:53-62 | the scan finds the first section that holds the address |
| Reloc.Relocator.AdjustAddress | src/novl-reloc.c:64-86 | out of bounds fails, a jump outside .text is an error, otherwise the address moves with its section unless it is a dry run |
| Reloc.Relocator.RelocWord | src/novl-reloc.c:89-109 | a 32-bit word is replaced by its moved value in the image, and only on success in a real run |
| Reloc.Relocator.RelocJump | src/novl-reloc.c:112-138 | only the 26-bit field of a jump changes |
| Reloc.Relocator.RelocHi | src/novl-reloc.c:141-165 | a HI16 records its position and half for its register and makes it VALID |
| Reloc.Relocator.PatchPair | src/novl-reloc.c:211-223 | both words of a pair as the two stores leave them |
| Reloc.Relocator.RelocLo | src/novl-reloc.c:168-227 | error without a HI16, outright failure only on first use, both halves patched on success, register USED |
| Reloc.Relocator.RelocDo | src/novl-reloc.c:254-271 | the whole engine state and return code of a handler call |
| Reloc.Relocator.RelocInit | src/novl-reloc.c:286-294 | all registers INVALID |
| Reloc.DoEffect | src/novl-reloc.c:141-227 | what each kind of handler does to the tables; an outright LO16 failure found its register VALID |
| Instructions.ImmediateFields | src/novl-reloc.c:141-223 | a HI16 takes its register from rt and a LO16 from rs, both store into the immediate only, and a carry goes into the lowest bit of rt |
| Instructions.JumpFields | src/novl-reloc.c:112-138 | a jump names a word of segment 0x8 by its low 26 bits |
| Instructions.PairBuilds | src/novl-reloc.c:186-190 | a pair builds the first immediate, shifted, plus the second, which is signed |
| Instructions.HalvesOf | src/novl-reloc.c:207-223 | the halves that are stored build the address |
| Instructions.Handlers | src/novl-reloc.c:230-271 | types 2, 4, 5 and 6 have handlers, all others are an error |
| Instructions.BigEndianBytes | src/novl-reloc.c:89-109 | words are read with their most significant byte first |
| Passes.Job.HiOf | src/novl-reloc.c:150-160 | the pairing rule: latest earlier HI16 on the register in the same section |
| Passes.Job.DoCode | src/novl-reloc.c:89-227 | the return code depends only on the untouched image and the pairing, whatever the pass has rewritten elsewhere |
| Passes.Job.DoTables | src/novl-reloc.c:141-227 | after each call the tables hold what the pairing rule says |
| Passes.Job.DoImage | src/novl-reloc.c:89-227 | the image a call leaves, from the pairing alone |
| Passes.Job.ImageStepAt | src/novl-reloc.c:211-223 | every relocated word, and every byte outside them, stays as described from one call to the next |
| PassSafety.DoValidRegs | src/novl-reloc.c:141-227 | the number of VALID registers grows at most by one per success and drops by one per first-use failure |
| PassSafety.RetractionIsLegal | src/novl-conv.c:421-505 | in every run `last` is never followed when NULL, is the tail whenever the section has an entry, entries of the section are at least as many as VALID registers, and earlier sections' entries are kept |
| PassSafety.PredictionNonNegative | src/novl-conv.c:324-348 | the predicted count never goes negative |
| PassSafety.DryRunState | src/novl-conv.c:293-348 | the dry run leaves the image alone; its count and error flag in terms of the pairing |
| PassSafety.RealPassState | src/novl-conv.c:427-505 | image, tables, counter and outcome of the real pass at every step, from the untouched image |
| PassSafety.DryRunPredictsRealPass | src/novl-conv.c:293-505 | with disjoint relocations the real pass aborts exactly when the dry run saw an error, and otherwise lists exactly the predicted number |
| PassSafety.SameCodes | src/novl-conv.c:448-466 | each relocation gets the same return code in both passes |
| PassSafety.DryRunIgnoresOverlay | src/novl-conv.c:314-374 | the dry run does not depend on the addresses computed from it |
| Meaning.TargetIsDesignation | src/novl-reloc.c:53-62 | with separate sections the scan finds the one section and offset an address designates |
| Meaning.MovedDesignates | src/novl-reloc.c:64-86 | moving an address keeps section and offset |
| Meaning.JumpDecodes | src/novl-reloc.c:112-138 | a jump keeps its opcode, and decodes to the address if and only if that is word-aligned in segment 0x8 |
| Meaning.PairDecodes | src/novl-reloc.c:186-223 | a pair decodes to the address if and only if the high half is the sign-compensated one |
| Meaning.HiWordLowHalf | src/novl-reloc.c:211-223 | the half of a HI16 is decided by its last successful partner |
| Meaning.HiWordUpperHalf | src/novl-reloc.c:211-223 | its opcode and registers survive unless a carry is or-ed into an even field |
| Meaning.ReferenceExact | src/novl-conv.c:427-505 | after a completed pass each reference names its new address if and only if it is expressible |
| Meaning.ReferencesPreserved | src/novl-conv.c:427-505 | every word, jump and pair that designated a section and offset in the ELF designates them in the overlay, and out-of-bounds ones keep their value, if and only if expressible |
| Meaning.UniformIsExpressible | src/novl-reloc.c:168-227 | LO16 groups that are all out of bounds, or all in bounds with one high half, are expressible |
| Meaning.InstructionsPreserved | src/novl-conv.c:427-505 | opcode and register bits survive, exactly when for HI16s, and no byte outside the relocated words changes |
| Replay.ListedEntries | src/novl-conv.c:467-500 | the list is the packed words of the listed relocations in order |
| Replay.UnpackedEntry | src/novl-reloc.c:274-284 | an entry unpacks to the relocation it was made from |
| Replay.ReplayComposes | src/novl-conv.c:427-505 | running the handlers over the base-A image on the emitted entries gives the image converted directly to base B; a carry into an odd register field does no harm |
| Retraction.RetractionExact | src/novl-conv.c:470-487 | a failing LO16 takes back the entry of its HI16 if and only if the predicted count is balanced from that HI16 to it |
| Retraction.CleanIsReplayable | src/novl-conv.c:470-494 | uniform groups, balanced retractions, expressible jumps and no carry that changes a register are enough for a replay |
| ReplayExact.UnlistedIsMissed | src/novl-conv.c:470-494 | a changed word whose entry was taken back comes out wrong for some base |
| ReplayExact.ReplayExactly | src/novl-conv.c:427-505 | the entries relocate the image to every base as a direct conversion does if and only if every relocation with an effect is still listed |
| Counterexamples.SharedHiBreaksReference | src/novl-reloc.c:211-223 | an input where an out-of-bounds LO16 loses its value to another LO16 of the same HI16 |
| Counterexamples.WrongEntryRetracted | src/novl-conv.c:470-487 | an input where the retraction takes back another relocation's entry |
| Counterexamples.ReplayMissesWord | src/novl-conv.c:470-487 | with that input the replay completes for some base with another image than the direct conversion |
| Counterexamples.CarryChangesRegister | src/novl-reloc.c:211-223 | an input whose new address is near the top and whose HI16 gets another register |
| Counterexamples.JumpCannotReach | src/novl-reloc.c:112-138 | a one-jump input for every address that is unaligned or outside of the segment: the pass completes, and the jump names another address |
| Overlay.WrittenBytes | src/novl-conv.c:536-537 | every byte of the file after a seek and a write: the data, what was there, or zero in the gap |
| Overlay.OutFile.Write | src/novl-conv.c:536-537 | new contents and position after a write |
| Overlay.WriteEntries | src/novl-conv.c:540-550 | the entries up to the first zero word are appended in big-endian order |
| Overlay.WriteFooter | src/novl-conv.c:552-571 | padding to the last word of a 16-byte line and the distance back to the header |
| Overlay.WriteTail | src/novl-conv.c:526-571 | header, entries, padding and footer behind a gap for the sections |
| Overlay.WriteSections | src/novl-conv.c:588-602 | the gap is filled with exactly the bytes of .text, .data and .rodata |
| Overlay.CheckPositions | src/novl-conv.c:588-611 | the position checks pass exactly when the addresses agree with the sums of sizes |
| Overlay.WriteOverlay | src/novl-conv.c:526-611 | the file kept, or the error, for every image, layout and entry list |
| Overlay.LayoutSums | src/novl-conv.c:361-374 | without overflow the addresses are base plus sums of sizes, .bss on a 16-byte boundary |
| Overlay.SizePrediction | src/novl-conv.c:361-586 | the predicted .bss start equals base plus file length if and only if the base is a multiple of 16 |
| OverlayReader.GetHeader | src/overlay.c:96-129 | finds the header through the footer, rejects, or reads outside, for every file |
| OverlayReader.LoadOverlay | src/overlay.c:132-212 | header fields, entries and section positions, for every file |
| OverlayReader.FooterLeads | src/overlay.c:96-129 | which last words lead to a header, are rejected, or lead outside; the word is signed |
| OverlayReader.HeaderLeads | src/overlay.c:131-212 | four sizes, and as many entries as the fifth word says, which is signed too |
| OverlayReader.CopyRelocations | src/overlay.c:185-187 | every relocation word, byte-swapped |
| OverlayReader.PlaceSections | src/overlay.c:189-208 | sections at the running total of sizes |
| OverlayReader.FooterWord | src/novl-conv.c:552-571 | the footer word equals file length minus header offset |
| OverlayReader.ReaderInvertsWriter | src/overlay.c:96-212 | the reader finds the header offset and recovers sizes, count and every entry of any written file |
| Converter.SortSorts | src/novl-conv.c:298-311 | the list is ascending by offset and holds the same entries |
| Converter.SortReverses | src/novl-conv.c:298-311 | entries at the same offset end up in reverse order |
| Converter.InsertEntry | src/novl-conv.c:302-310 | one outer round of the in-place insertion sort |
| Converter.SortEntries | src/novl-conv.c:298-311 | the array is the sorted list |
| Converter.EventsOfSection | src/novl-conv.c:289-318 | each relocation section's entries are walked in sorted order after the tables are cleared |
| Converter.DryRunOne | src/novl-conv.c:315-348 | one round of the counting loop is one step of the dry run |
| Converter.DryRun | src/novl-conv.c:259-353 | count and error flag of the whole dry run; the image is unchanged |
| Converter.RelocateOne | src/novl-conv.c:448-500 | one round of the relocating loop is one step of the real pass, list, `last` and counter included |
| Converter.Relocate | src/novl-conv.c:388-505 | list, counter and image of the whole real pass, or its abort |
| Converter.Convert | src/novl-conv.c:259-611 | result of the whole conversion, with the addresses taken from its own dry run |
| Conversions.OverlaySectionsSeparate | src/novl-conv.c:361-374 | the overlay's sections do not overlap |
| Conversions.NoEntryIsZero | src/novl-reloc.c:274-284 | no listed entry is zero, so the emission loop never stops early |
| Conversions.PlannedIsConvertible | src/novl-conv.c:361-374 | planning the addresses from the dry run does not change the dry run |
| Conversions.ConversionOutcome | src/novl-conv.c:350-611 | stops at the dry run, or writes the file if the base is a multiple of 16, or ends in the size check: no other exit is reached |
| Conversions.ConvertedFileReadsBack | src/overlay.c:131-212 | the written file loads with its sizes, entries and the exact relocated bytes of each section |
| Conversions.EntryFindsWord | src/overlay.h:35-43 | OVL_RELOC_GET_ABS_ADDR of each entry is the file position of the word that was patched |
| Conversions.ConversionPreserves | src/novl-conv.c:259-611 | after an error-free dry run with a base that is a multiple of 16 the file is written, and in it each reference names its section and offset if and only if it is expressible |
| ExampleOverlay.FileIs | src/novl-conv.c:259-611 | a jump, a pair with two registers and a pointer, converted: each of the twenty words of the file |
| SectionList.Elf.UpdateShnum | libelf/newscn.c:26-62 | the count goes to the header, or to section 0 from 0xff00 on |
| SectionList.Elf.FirstScn | libelf/newscn.c:85-102 | the null section is there afterwards, and nothing changes if it was |
| SectionList.Elf.NewScn | libelf/newscn.c:104-145 | cooks the file first if it must, appends one section with the next index, records the count; null exactly for the wrong kind, no header or a failed cooking |
| SectionList.Elf.CookList | libelf/cook.c:326-478 | the sections of a file, linked from the last to the first, are in order and numbered |
| SectionList.Elf.MovScn | libelf/x.movscn.c:26-112 | the list becomes the move-to-after of the abstract sequence, indices and tail included; 0 and no change otherwise |
| SectionList.Elf.ShiftIndices | libelf/x.movscn.c:68-83 | the one pass changes exactly the indices between the two sections |
| SectionList.Elf.RemScn | libelf/x.remscn.c:26-119 | the list loses exactly that section and the count is recorded; 0 and no change otherwise |
| SectionList.Elf.Run | libelf/x.movscn.c:26-112 | over every run of new, move and remove the list is the fold of append, move and remove over the operations, with fresh sections where new ones are made; it stays acyclic and numbered and its length stays recorded |
| SectionList.MoveIsRemoveAndInsert | libelf/x.movscn.c:85-97 | the move is a removal and an insertion right behind the other section |
| SectionList.NewIndexDesignates | libelf/opt.delscn.c:26-29 | an adjusted number designates the same section, and 0 exactly if it designated the removed one or nothing |
| SectionList.Elf.UpdateShdrs | libelf/opt.delscn.c:31-65 | each header is adjusted as its type says |
| SectionList.RenumberedIs | libelf/opt.delscn.c:26-65 | sh_link of types 2, 4, 5, 6, 9, 11 and the three version types, and sh_info of 4 and 9, lose one above the removed number and become 0 at it; all else is kept |
| SectionList.Elf.DelScn | libelf/opt.delscn.c:107-205 | the section is gone; in every remaining header sh_link of types 2, 4, 5, 6, 9, 11 and the three version types, and sh_info of 4 and 9, name the sections that they named, and nothing else changes; the indices are consecutive, and the count is right exactly below 0x10000 sections |
| SectionList.ReferencesKept | libelf/opt.delscn.c:26-65 | an adjusted sh_link or sh_info names the same section object, and 0 exactly if it named the removed one or nothing |
| SectionList.WrongCount | libelf/opt.delscn.c:31-65 | a list of 0x10001 sections whose recorded count is wrong after one is deleted |
| SectionList.SymbolTable | libelf/opt.delscn.c:31-65 | a symbol table still names its string table after a section before both is deleted |
| Codec.LoadStored | libelf/byteswap.h:28-65 | loading what was stored gives the value, in either byte order and any width |
| Codec.StoreLoaded | libelf/byteswap.h:28-65 | storing what was loaded gives the bytes |
| Codec.LoadStoredFields | libelf/32.xlatetof.c:107-197 | the same for whole records |
| Codec.StoreLoadedFields | libelf/32.xlatetof.c:107-197 | and back, with values that fit their fields |
| Records.ElementSizes | libelf/32.fsize.c:28-52 | the declared sizes are those of the fields that are copied |
| Records.EhdrRoundTrip | libelf/32.xlatetof.c:143-158 | an ELF header survives encoding and decoding |
| Records.PhdrRoundTrip | libelf/32.xlatetof.c:159-168 | so does a program header |
| Records.ShdrRoundTrip | libelf/32.xlatetof.c:178-189 | so does a section header |
| FileFormat.EncodedHeaders | libelf/32.xlatetof.c:143-189 | every field of the three headers is stored at its place in the bytes |
| ElementBytes.TranslatedBytes | libelf/32.xlatetof.c:61-197 | for every element type, which byte each byte of a translation is |
| ElementBytes.FileSizeIs | libelf/update.c:64-88 | the size in the file of a buffer of each type |
| ElementBytes.BufferBytes | libelf/update.c:698-727 | the bytes that are written of a buffer of each type |
| Records.XlateBack | libelf/32.xlatetof.c:61-92 | translating an array of elements one way and back restores all whole elements |
| Records.XlateSlice | libelf/32.xlatetof.c:61-92 | a stretch at an element boundary is translated by itself |
| Records.Copy | libelf/32.xlatetof.c:61-87 | the copy loop stores the translation at the given place and nothing else |
| Layout.Sized | libelf/update.c:64-88 | the first buffer that cannot be sized |
| Layout.AlignUp | libelf/update.c:38-39 | the least such multiple: not below, less than one step above |
| Layout.Good | libelf/update.c:192-277 | the first section that stops the loop |
| Layouter.LayoutBufs | libelf/update.c:64-105 | length, alignment, offsets and flags of a section's buffers in both modes, or the buffer it stops at |
| Layouter.Descriptor.LayoutData | libelf/update.c:44-106 | the same, in the descriptor |
| Layouter.Descriptor.LayoutNull | libelf/update.c:201-210 | the first section's header is cleared, its flag set if that changes it |
| Layouter.Descriptor.Overlaps | libelf/update.c:257-270 | finds a conflict with an earlier section exactly if there is one |
| Layouter.Descriptor.SetEntSize | libelf/update.c:221-229 | the entry size is set unless the program has chosen one |
| Layouter.Descriptor.Place | libelf/update.c:231-240 | header fields, flag and next offset in automatic layout |
| Layouter.Descriptor.CheckPlace | libelf/update.c:241-275 | too small, overlapping, or the next offset, in a layout made by the program |
| Layouter.Descriptor.LayoutSection | libelf/update.c:192-277 | one round of the loop: section, error, offset and flag |
| Layouter.Descriptor.LayoutSections | libelf/update.c:192-277 | the whole loop, partial state on an error included |
| Layouter.Descriptor.LayoutPhdrs | libelf/update.c:153-190 | header fields before the sections, the escaped program header count included |
| Layouter.Descriptor.LayoutShdrs | libelf/update.c:279-320 | section header table, escaped section count, identification, and whether anything is dirty |
| Layouter.Descriptor.Layout | libelf/update.c:123-321 | whole descriptor and result for every input |
| SectionTypes.LaidEntSizes | libelf/update.c:218-229 | after a layout an entry size that was not chosen is 16 for types 2 and 11, 12 for 4, 8 for 6 and 9, 4 for 5 and 18, 2 for version numbers, and 0 otherwise |
| SectionTypes.LaidHeader | libelf/update.c:123-320 | identification, version, sizes and both counts of the header, escaped from 0xffff and 0xff00 on |
| SectionTypes.Written | libelf/update.c:684-700 | the buffers of all sections but the first, null ones and those of type 8 are written |
| SectionTypes.ConflictIs | libelf/update.c:257-270 | sections conflict if each ends behind the beginning of the other; type 8 ends where it begins |
| SectionTypes.ReachIs | libelf/update.c:64-105 | the length of a section whose buffers the program has placed is the end of one of them, and no buffer ends later |
| SectionTypes.ConflictIsOverlap | libelf/update.c:257-270 | sections with data conflict if and only if they share a byte of the file |
| Allocation.LayoutAllocates | libelf/update.c:153-320 | headers, tables and section extents are pairwise disjoint and inside the returned size; offsets are multiples of sh_addralign |
| Allocation.PlacedSection | libelf/update.c:231-240 | a section starts at its aligned offset and ends where the next search starts |
| Allocation.LayoutPlacesBuffers | libelf/update.c:64-103 | buffers lie in their section, apart from their siblings, and with power-of-two alignments at file offsets divisible by their own |
| OverlapCheck.OverlapReported | libelf/update.c:241-275 | exactly which conflicts the loop reports |
| OverlapCheck.ShortcutIsExact | libelf/update.c:241-275 | with null sections inside the headers an overlap is reported exactly when some two sections conflict |
| OverlapCheck.AllPairsTested | libelf/update.c:241-275 | with empty null sections that is the full all-pairs test |
| OverlapCheck.MissedConflict | libelf/update.c:253-271 | an input with a null section beyond the headers where a conflict is missed |
| OverlapCheck.SizeCovers | libelf/update.c:249-290 | the returned size covers both tables and every extent |
| Relayout.SettledAgain | libelf/update.c:192-277 | the second time the loop stores what is there; the flag is set exactly for values that do not fit |
| Relayout.LayoutIsFixedPoint | libelf/update.c:123-321 | laying out again succeeds if and only if no section meets the extent of the first header; then size, headers and offsets are the same, and no flag changes unless the section count is escaped or a value is too large for its field; otherwise an overlap is reported |
| Relayout.ChangesAreMarked | libelf/update.c:35-36 | when the layout leaves no dirty flag, which is when no file is written, it has changed nothing |
| Relayout.FewAreRecheckable | libelf/update.c:241-275 | with fewer than 0xff00 sections the second layout never fails |
| ManySections.RejectedTwice | libelf/update.c:297-305 | an input with 0xff00 sections that is laid out once and reported as overlapping the second time |
| Pieces.LabelsAre | libelf/update.c:633-727 | every header, table and buffer is written, once |
| Pieces.Untouched | libelf/update.c:633-727 | bytes that no piece covers keep what was there |
| Pieces.InPlace | libelf/update.c:633-727 | pieces that do not overlap are all there at the end |
| WrittenFile.PiecesFit | libelf/update.c:633-727 | after automatic layout every piece lies in the file and no two overlap |
| WrittenFile.PieceInFile | libelf/update.c:633-727 | so each can be read where it belongs |
| WrittenFile.HolesAreFill | libelf/update.c:948-953 | and everything else is fill |
| Writer.WriteBuf | libelf/update.c:698-727 | one buffer translated into its place, or failure exactly for a missing or untranslatable one |
| Writer.WritePhdrs | libelf/update.c:659-670 | the program header table in its place |
| Writer.WriteParts | libelf/update.c:633-727 | succeeds exactly if every buffer can be written, and then the output is all pieces in order; otherwise it is the pieces before the first such buffer and what that buffer leaves |
| Writer.LaidIsRoomy | libelf/update.c:123-321 | every layout leaves the writer room for everything it writes |
| Update.UpdateFile | libelf/update.c:968-1021 | layout, then writing exactly if something is dirty; result, file and cleared flags |
| Update.ElfUpdate | libelf/update.c:968-1021 | a refused command changes nothing; any other lays out, and writes if asked to |
| Update.CleanedIsClean | libelf/update.c:730-753 | after writing nothing is dirty, and nothing else has changed |
| Cook.PhdrItem | libelf/cook.c:80-123 | one translated header, or the error for an offset outside or a truncated file |
| Cook.CookPhdrs | libelf/cook.c:125-209 | the program headers, with the escaped count, or the error |
| Cook.CookShdrs | libelf/cook.c:211-460 | the section headers in order, with the escaped count, or the error |
| Cook.CookFile | libelf/cook.c:462-501 | everything recovered from a file image, or the error |
| FileFormat.CookedFields | libelf/cook.c:80-478 | which files are accepted, by their bytes, and that every field of every header that is found is the number at its place, in either byte order |
| FileFormat.WrittenFields | libelf/update.c:633-727 | the written file has every header field at its place |
| SectionTypes.SectionBytes | libelf/getdata.c:26-95 | by which fields a section of each type is translated, and which byte of the file each byte read is |
| SectionTypes.VersionBytes | libelf/getdata.c:26-95 | types 0x6ffffffd and 0x6ffffffe are read as definitions and needed versions |
| SectionTypes.VersionBuffer | libelf/update.c:698-727 | buffers of types 15 and 16 are written as definitions and needed versions |
| ReadBack.HeadersReadBack | libelf/cook.c:125-478 | cooking a written file recovers the ELF header, every program header and every section header in order, extended counts included |
| RoundTrip.UpdatedFileReadsBack | libelf/update.c:915-1021 | `elf_update` writes exactly if something is dirty and writable, and reading its file gives back the descriptor it leaves |
| DataExact.DataReadsBack | libelf/getdata.c:26-95 | a buffer of its section's type is found in the section's data, at its offset, if and only if it ends by the last whole element and its bytes match there, which they always do when host and file agree in byte order or the buffer is at a unit boundary |
| Mirrors.FoundExactly | libelf/32.xlatetof.c:61-92 | part of a translated array is given back by the translation of the whole if and only if each of its bytes is where that looks for it, or equal to the one there |
| Mirrors.FoundWhatever | libelf/32.xlatetof.c:61-92 | whatever else is in the array, contents of every kind are given back if and only if the bytes from there on move as they do from the beginning |
| DataExact.PlainReadsBack | libelf/getdata.c:26-95 | with power-of-two alignments it is found in either byte order if and only if it ends by the last whole element |
| DataExact.HolesReadBack | libelf/getdata.c:26-95 | holes between buffers are read as fill |
| ReadBack.BytesReadBack | libelf/getdata.c:26-95 | a section of bytes reads back whole |
| ReadBack.HolesReadAsFill | libelf/update.c:948-953 | with fill between its buffers |
| VersionData.VersionsReadBack | libelf/getdata.c:26-95 | a section of version records is walked as its first buffer is if and only if the chains of that buffer, wherever they leave it, leave the section too; exactly then, whatever the memory held, every visited byte is restored and all others are untouched |
| VersionData.ClosedSectionsRunOff | libelf/getdata.c:26-95 | so it is if the first buffer is the only one, or ends its own chains |
| VersionData.VersionImage | libelf/update.c:698-727 | its file image begins with the translation to file over fill bytes |
| VersionChains.PassesExtend | libelf/verdef.h:133-231 | records in the first part of a larger buffer go to file and back the same way, restored and nothing else changed, if and only if their chains leave the larger buffer wherever they leave the first part |
| ExampleVersions.SectionNotRead | libelf/getdata.c:26-95 | two buffers of which the first does not end its chain: the section is written and cannot be read |
| ExampleFile.SecondEntryLost | libelf/getdata.c:35-60 | a descriptor with two RELA buffers whose second entry is written and not read |
| ExampleData.MisalignedEntryLost | libelf/getdata.c:35-60 | a descriptor with three REL buffers aligned to 3, in the other byte order, whose second entry lies inside the whole elements and is not found |
| ExampleFile.SmallIsReady | libelf/update.c:123-321 | a file with one string table meets the assumptions of the layout, write and read results |
| Strings.FindBuf | libelf/strptr.c:72-112 | the first buffer that holds the offset in both modes; none exactly if there is none, holes included |
| Strings.StrPtr | libelf/strptr.c:26-150 | the one right answer for every section, offset and sanity setting |
| Strings.OneAnswer | libelf/strptr.c:72-149 | no two answers satisfy that contract |
| Strings.LookupAgreesWithLayout | libelf/strptr.c:89-112 | with byte buffers the search finds exactly the buffer that the layout has put over the offset |
| Strings.LookupAgreesWithFile | libelf/strptr.c:125-148 | and points to the byte that the file holds there |
| Versions.RecordSizes | libelf/ext_types.h:238-270 | the sizes of the two kinds of record of both formats |
| VersionFormat.DefWalk | libelf/verdef.h:151-230 | definitions: the count at byte 6, the link to the items at 12 and to the next at 16, that of an item at 4 |
| VersionFormat.NeedWalk | libelf/verneed.h:153-233 | needed versions: the count at byte 2, the links at 8 and 12, that of an item at 12 |
| VersionFormat.PassedByte | libelf/verdef.h:43-131 | every byte that a pass stores for a record |
| VersionFormat.NeededIsRead | libelf/verneed.h:166-230 | a needed version with one item is accepted, and both records are visited |
| Versions.WalkInside | libelf/verdef.h:151-230 | for any buffer only bytes inside it are touched by the walk without wrap-around |
| Versions.PassesCompose | libelf/verneed.h:137-235 | to file and back visits the same records in the same order and restores every visited byte |
| Versions.CopyItems | libelf/verdef.h:186-222 | the inner loop translates the items of the chain |
| Versions.Translate | libelf/verdef.h:133-231 | the destination after a pass, and whether the format is right, for either width of `size_t` and any buffer whose walk does not wrap around |
| VersionOffsets.RunsAreWalk | libelf/verdef.h:151-230 | the traversal by heads and items is the walk that specifies the translation |
| VersionOffsets.ItemsAgree | libelf/verdef.h:186-222 | a chain of items is followed as without wrap-around if and only if every bounds test is right |
| VersionOffsets.RunsAgree | libelf/verdef.h:151-230 | so is the whole traversal |
| VersionOffsets.WideIsSteady | libelf/verdef.h:151-230 | with a 64-bit `size_t` that is so for every buffer |
| VersionOffsets.EscapesBefore | libelf/verdef.h:186-199 | with a 32-bit `size_t`, an input whose item passes the bounds test outside the buffer |
| VersionOffsets.NeverEnds | libelf/verdef.h:223-228 | and an input whose heads go round in a circle |
| NList.ComputeHash | libelf/hash.c:26-38 | the hash of a name, for both widths of long |
| NList.RoundBits | libelf/hash.c:31-36 | every bit of the hash after a round: of 16 times the hash plus the character the low 28 bits, with bits 28 to 31 exclusive-ored into bits 4 to 7 |
| NList.KnownHashes | libelf/hash.c:26-38 | the hashes of `syscall` and `aaaaaaa` |
| NList.HashFits28Bits | libelf/hash.c:26-38 | with 32-bit longs it fits in 28 bits |
| NList.WideHash | libelf/hash.c:31-36 | the 64-bit value has the 32-bit value in its low half, for every name, and the carries of the last eight rounds above |
| NList.SameHash | libelf/hash.c:31-36 | the two widths agree if and only if none of the last eight rounds carries |
| NList.WideHashCarries | libelf/hash.c:31-36 | a name whose 64-bit value is not the standard's |
| NList.Index.Add | libelf/nlist.c:174-202 | one round of building: chains stay strictly decreasing and complete |
| NList.Index.Lookup | libelf/nlist.c:204-224 | the chained lookup returns the last symbol of that name, or 0 exactly if there is none |
| NList.FindSymbols | libelf/nlist.c:174-226 | every wanted name gets its last symbol; otherwise the first symbol without a usable name decides between failure and a read beyond the string table |
| Archive.Library.Begin | libelf/begin.c:223-388 | a new descriptor, another handle, or a member of the archive; counts stay handles plus members |
| Archive.Library.ElfBegin | libelf/begin.c:223-295 | a refused command gives null and changes nothing; any other is a begin with the access it implies |
| Archive.Library.BeginMember | libelf/begin.c:296-369 | an open member at that position is shared, otherwise a new one is linked in; members stay at different positions |
| Archive.Library.FindMember | libelf/begin.c:303-319 | the open member at a position, or none exactly if there is none |
| Archive.Library.Unlink | libelf/end.c:88-95 | the member leaves the list and nothing else does |
| Archive.Library.Drop | libelf/end.c:82-117 | the count-down and what is released with it, up to the file; the recursion ends |
| Archive.Library.End | libelf/end.c:74-118 | one handle less; nothing with a handle or a live member is released |
| Archive.Library.LiveIsReachable | libelf/end.c:74-118 | in every valid state exactly those descriptors are left that have a handle on them or on something opened from them |
| Archive.Library.NothingLeft | libelf/end.c:74-118 | when all handles are closed everything has been released |

## Left out

- Reading the ELF into memory in `novl_conv` (section names, entry point, symbol-less sections) is not modelled: the model starts with the image, the section addresses and the relocation sections; each relocation section has one data buffer.
- Converter.Convert: asks that every relocation lies in the image and the sections do too; the source does not check and would access memory outside.
- Meaning.ReferencesPreserved: asks that relocations share no byte; the source does not check that either.
- The comparison of the predicted .bss start with `ftell` plus base is done in 32 bits; where `long` has 64 bits it differs only beyond 2^32.
- Input and output, allocation failure, error texts, exit codes and closing of files are not modelled; the file is a byte sequence, the fill byte and the host byte order are parameters. Reading outside a buffer is a result of its own.
- The 64-bit class and its twins are not modelled. Sizes and offsets are unbounded where the source has `size_t`, except in the traversal of version records; header fields have their 32 or 16 bits and truncate as `rewrite` does.
- Descriptors that were read from a file and then changed: section data counts as loaded, and `_elf_update_pointers` is not part of this model.
- SectionList.Elf.NewScn: what cooking finds in the file is a parameter; `Cook` says what it is.
- The section list with its links and the descriptor with its layout are two models: the layout works on the sequence that the list stands for.
- Negative `d_off` in a layout made by the program is not modelled.
- A section header table with a non-zero offset and no sections in either count reads as an empty list; the source stores outside its zero-length allocation there.
- Update.UpdateFile: the fill byte also fills files with a layout made by the program, as in the variant without memory mapping; with memory mapping a failed write leaves the output that `WriteParts` describes in the file.
- Versions.Translate: source and destination do not overlap, so to-file translation in place in the other byte order is not modelled; where a 32-bit offset wraps around, `SourceRuns` says what is visited and no contents are promised.
- Versions.CopyItems: asks the same of a chain of items.
- Version records in memory have the sizes they have in the file, as in this class.
- NList.FindSymbols: the wanted names are those before the first empty one; copying the symbol's value is left out.
- Archive.Library.Begin: the result of parsing a member header is a parameter; elf_memory is left out.
- Archive symbol tables, checksums and raw data derive values from a file that nothing here depends on; `elf_next` and `elf_rand` set the position at which the next member is opened; the getters and setters read and write single fields.
- The decoder, option printing, messages and main program are left out.
