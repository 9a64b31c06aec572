# A verified model of the Appletini firmware tooling

The Python scripts of this repository build, check and model the firmware of an Apple II card. This project models
their hardest parts in Dafny and proves what those parts are relied on for. Everything is stated for all inputs, all
runs or all reachable states; an error return or an exception of the scripts is an `Err` or a `None` here.

| files | component |
|---|---|
| `Bytes`, `Crc32`, `Manifest`, `Packager` | The 32-byte image record: printer, parser, CRC-32 (section 8 of RFC 1952, bit by bit), streaming verifier, and the append-verify-replace transaction on a file system that may fail at any step |
| `Extents`, `LoadImage`, `RawElf`, `BootImage`, `Words`, `BootLayout`, `ElfLayout`, `MisalignedImage` | The release auditor: ELF32 and boot-image parsing, the raw binary image, and the comparison of packaged partitions with the executable |
| `FixedPoint`, `Filter`, `Chip`, `ChipFacts`, `ChipLaws`, `ChipRuns`, `Synth`, `SynthLaws`, `Models`, `Phrase` | The two models of the speech chip, their filters, and the loops that render phrases |
| `PhoneWords`, `FormantPackage`, `PackageLaws` | The phone ROM's 64-bit words, the generated package, and its reader |
| `MouseRom`, `BootMenuRom`, `BootMenuBuild`, `BootMenuAssembler`, `BootMenuLaws` | Two two-pass assemblers with their page layouts and relocation map |
| `RomPatch`, `RomEntries` | The in-place rewrite of the SmartPort slot page, with a step model of the 6502 instructions it uses, and which code survives it |
| `Pal256` | The PAL256 picture packer and its renderer |

Objects that the scripts update in place are classes (`Packager.Stream`, `Packager.FileSystem`, `Filter.FixedFilter`,
`Models.MameLikeVotrax`, `Models.FilterBank`, `Models.HdlLikeFormant`), and algorithms that fill or rewrite a
buffer work on arrays. Their contracts tie them to specification functions, about which the main results are proved.

Places where the code does not do what its structure, its names or its neighbours suggest. The code is modelled as it
stands; each point has a lemma with a concrete input or an exact condition:

- The low-pass filter `ffx` is made with no room for past inputs, but a filter with no room behaves as one with room
  for one (`Filter.NoRoomIsRoomForOne`), so the coefficient meant for its previous output multiplies its previous input
  (`Filter.OutputPoleIsLost`, `Filter.LostPoleWitness`).
- `mapped_bytes` tests that a mapping is unique only where a lookup starts and where it passes to the next segment
  (`RawElf.AmbiguousByteAccepted`). A lookup that succeeds is unambiguous exactly when no segment begins inside its
  range where another already maps (`RawElf.LookupIsUnambiguousIff`, `RawElf.SectionIsUnambiguousIff`).
- `bootgen_partitions` does not check that an image's claims are aligned with the partition headers
  (`BootImage.EveryHeaderHasOneImage`, `MisalignedImage.MisalignedClaimAccepted`).
- A pitch period of one freezes the pitch counter (`ChipFacts.PitchReachesRangeIff`). The period is one exactly at the
  twelve highest inflections of the SSI-263 mode (`ChipFacts.LimitOneIff`), and a run of three events from reset ends
  with the counter frozen at one for good (`ChipRuns.FrozenPitchIsReached`).
- The mouse assembler truncates absolute operands above 16 bits without a word (`MouseRom.DisassemblyIsInverse`,
  `MouseRom.TruncatedJumpAccepted`).
- The boot menu assembler relies on unchecked facts about its source: that every statement moves the address counter
  alike under the symbols before it and the final ones (`BootMenuRom.AddressesAgreeIffMovedAlike`). An operand that
  turns out small late breaks it (`BootMenuRom.LateShrinkWitness`), and so does a redefined symbol
  (`BootMenuRom.RedefinitionWitness`).
- It also accepts a negative origin that stores slot code in the expansion page
  (`BootMenuBuild.NegativeOriginClobbers`); the first pass's addresses tell exactly when
  (`BootMenuBuild.SlotSectionStaysIff`).
- `apply_appletini_entries` checks the displacement of the boot branch but not that the branch opcode survived the
  redirection of calls (`RomPatch.BootBranchIntactIff`, `RomEntries.BranchIsLost`), nor that the code its entries lead
  to lies clear of the entries themselves: with DISK at Cn0A the ProDOS entry jumps to itself for ever
  (`RomEntries.EntryLoopsForever`, `RomEntries.DiskSurvivesIff`, `RomEntries.BootReachesDentry`).
- `patch_abs_jsr` counts a call twice, and rewrites the byte behind it, exactly when it turns calls of Cn+C7 into calls
  of Cn+20 on a page where such a call is followed by another byte $C7 (`RomPatch.ScanIsRetargetingIff`,
  `RomPatch.RewrittenTwice`). Its only callers redirect to $A0 and $A4, so this never happens in this program.
- The noise register's test for the all-ones state never acts in a run from reset (`ChipRuns.NoiseGuardIsIdle`).

## Model

| member | source | states |
|---|---|---|
| Crc32.CrcOfChunks | scripts/image_manifest.py:158-167 | checksumming chunk by chunk, each call seeded with the last result, equals checksumming the whole |
| Crc32.FeedInjective | scripts/image_manifest.py:64-65 | over one message, different register states stay different |
| Crc32.Backward | scripts/image_manifest.py:64-65 | two runs of at most 32 bits that end alike differed at the start exactly by their message bits |
| Crc32.CrcDetectsBurst | scripts/image_manifest.py:64-65 | a change within four consecutive bytes always changes the checksum |
| Crc32.StepLaw | scripts/image_manifest.py:64-65 | one message bit shifts the register down and, when it differs from the bit shifted out, adds 0xEDB88320 modulo two |
| Crc32.CrcOfNothing | scripts/image_manifest.py:64-65 | the checksum of no bytes is its seed |
| Manifest.DecodeOfEncode | scripts/image_manifest.py:87-134 | every record the printer emits is parsed back to exactly its fields |
| Manifest.EncodeOfDecode | scripts/image_manifest.py:87-134 | every record the parser accepts is the one the printer emits for its fields |
| Manifest.AcceptedIffSealed | scripts/image_manifest.py:170-225 | verification returns a manifest exactly when the image ends in the record the printer makes for that payload, with its markers present, its rival's absent, its slot respected and the caller's expectations met |
| Manifest.AcceptedIffAsExpected | scripts/image_manifest.py:209-225 | verification under expectations is verification without any, and the role, the recovery flag and the tagged product as expected |
| Manifest.SixKinds | scripts/image_manifest.py:68-84 | role, flags and version are one of six combinations |
| Manifest.MarkersIffAsTagged | scripts/image_manifest.py:189-200 | no marker rule is violated exactly when the payload carries the texts of its tags, only those, and fits its product's slot |
| Manifest.DamageIsRejected | scripts/image_manifest.py:170-225 | a file that differs from an accepted image only within four consecutive bytes, anywhere, is rejected whatever is expected of it |
| Manifest.DamagedRecord | scripts/image_manifest.py:107-134 | two accepted records that differ within four bytes differ in the payload checksum they store |
| Packager.TailSuffices | scripts/image_manifest.py:137-150 | searching the kept tail plus the next chunk finds a marker exactly when it occurs in everything read, across chunk boundaries |
| Packager.MarkerPresent | scripts/image_manifest.py:137-150 | for every way the stream is cut into chunks, unless a read fails: true exactly when the marker occurs in the payload |
| Packager.PayloadCrc | scripts/image_manifest.py:158-167 | unless a read fails, the checksum of the next bytes of the stream, or an error exactly when the file ends early |
| Packager.CheckMarkers | scripts/image_manifest.py:189-200 | the stream scans report the first violated marker rule of the payload |
| Packager.VerifyImage | scripts/image_manifest.py:170-225 | unless a read fails, the streaming verifier gives exactly the verdict on the file's bytes |
| Packager.PrepareIsConsistent | scripts/image_manifest.py:228-250 | an accepted request has one product, its flags and version agree, and its limit is at most the caller's and the slot's |
| Packager.RequestAcceptedIff | scripts/image_manifest.py:233-247 | a request is accepted exactly for a known product, firmware and flags its image has anyway, or without product for a version 1 combination, and a size limit in range |
| Packager.AcceptedJob | scripts/image_manifest.py:233-241 | the job then has the completed flags and the smaller of the caller's limit and the slot |
| Packager.FitsIff | scripts/image_manifest.py:273-282 | a payload fits exactly when its size is below 2^32 and, with the 32-byte record, within the limit |
| Packager.PackageOutcome | scripts/image_manifest.py:228-302 | packaging succeeds exactly when the payload fits and is properly marked, and the result verifies with everything requested |
| Packager.FillTemp | scripts/image_manifest.py:263-292 | the temporary file ends up as the payload followed by its record, every other file untouched |
| Packager.AppendManifest | scripts/image_manifest.py:228-309 | on success only the destination changed and holds the packaged payload; on any failure, of any open, read, write or replace, every file is as before |
| Extents.SortedNeighboursDecide | scripts/audit_firmware_release.py:199-202 | for nonempty ranges, comparing neighbours after sorting by start decides disjointness of every pair |
| Extents.OneMatch | scripts/audit_firmware_release.py:208-210 | a match list of length one means exactly one extent contains the address |
| LoadImage.CheckSegment | scripts/audit_firmware_release.py:204-217 | the walk over a segment accepts exactly when each of its file bytes is stored in a partition, and collects exactly the partitions it meets |
| LoadImage.Rebuild | scripts/audit_firmware_release.py:224-233 | the buffer filled in place holds at each address the byte of the last segment that loads it, and zero elsewhere |
| LoadImage.CheckPartition | scripts/audit_firmware_release.py:224-241 | under the segment check: accepts exactly when the partition starts on a file byte, ends under four bytes past its last one, and is zero in between |
| LoadImage.CheckElf | scripts/audit_firmware_release.py:196-244 | accepts exactly the packagings that are faithful to the executable, address by address |
| LoadImage.AcceptedImageLoadsTheExecutable | scripts/audit_firmware_release.py:196-244 | copying the accepted partitions into any memory gives, at every address, what zeroing their spans and copying the segments gives |
| LoadImage.OverlappingSegmentsAgree | scripts/audit_firmware_release.py:204-217 | two segments that load one address load one byte there, from exactly one partition |
| RawElf.Elf32 | scripts/audit_firmware_release.py:45-81 | accepts exactly the files with a well-formed header, program table, section table and symbol tables, and yields the segments of the load headers, each with its file bytes, and the sections |
| ElfLayout.ElfIsWritten | scripts/audit_firmware_release.py:45-81 | a file is accepted, as an executable, exactly when it is one laid out for it: a 32-bit little-endian ARM header, its segments in the program table, its sections in the section table, and readable symbols |
| ElfLayout.SegmentIsWritten | scripts/audit_firmware_release.py:54-61 | a program header is read as a segment exactly when type 1, position, both addresses and both sizes stand there word by word |
| ElfLayout.SegmentsAreWritten | scripts/audit_firmware_release.py:54-61 | the segments read are exactly those of the type 1 headers, in table order |
| ElfLayout.SectionsAreWritten | scripts/audit_firmware_release.py:63-65 | the sections read are exactly those that stand in the table field by field |
| ElfLayout.SymbolsAreWritten | scripts/audit_firmware_release.py:66-80 | every symbol table is readable exactly when it lies in the file with 16-byte entries and every name ends in its string table |
| RawElf.MappedBytes | scripts/audit_firmware_release.py:84-95 | the cursor loop ends and computes the specified lookup |
| RawElf.MappedIsMapped | scripts/audit_firmware_release.py:84-95 | a successful lookup has the requested length, and every byte is one some segment maps at its address |
| RawElf.UniqueRangeIsMapped | scripts/audit_firmware_release.py:84-95 | a range whose every address is mapped exactly once is always found |
| RawElf.LookupIsUnambiguousIff | scripts/audit_firmware_release.py:84-95 | a successful lookup meets each address in exactly one segment exactly when no segment begins inside the range where another maps |
| RawElf.AmbiguousByteAccepted | scripts/audit_firmware_release.py:84-95 | concrete segments with a doubly mapped address that the lookup accepts |
| RawElf.SpanComesFromItsHolder | scripts/audit_firmware_release.py:98-113 | a section's span holds the bytes of the one segment that contains it, at that segment's physical address |
| ElfLayout.HoldsIff | scripts/audit_firmware_release.py:104-107 | a segment holds a nonempty section exactly when it maps every address of it |
| RawElf.SectionIsUnambiguousIff | scripts/audit_firmware_release.py:98-113 | each address of an accepted section is mapped by exactly one segment exactly when no segment begins strictly inside the section |
| RawElf.UnambiguousSpan | scripts/audit_firmware_release.py:98-113 | the span then holds, at every address, the byte of whatever segment maps it |
| RawElf.PlacedSections | scripts/audit_firmware_release.py:98-113 | the placed sections are exactly those with flag bit 1, not of kind 8 and not empty, each with its bytes from the file |
| RawElf.Paint | scripts/audit_firmware_release.py:114-124 | painting sorted spans succeeds exactly when no two overlap, and gives their image |
| RawElf.RawBinary | scripts/audit_firmware_release.py:98-124 | succeeds exactly when every loaded section has its span, there is one, they fit in 64 MiB and are disjoint; the image reaches from the lowest to the highest address, holds every span and is zero elsewhere |
| BootImage.NameRoundTrip | scripts/audit_firmware_release.py:165-170 | a name written zero-padded with its words swapped is read back unchanged |
| BootImage.AssignNames | scripts/audit_firmware_release.py:171-176 | one image's claims are recorded, or refused when one is taken or outside the table |
| BootImage.WalkHeaders | scripts/audit_firmware_release.py:158-177 | the header walk ends on every input and computes the specified walk |
| BootImage.WalkRecords | scripts/audit_firmware_release.py:158-177 | an accepted walk visits distinct headers, ends, and gives each recorded offset exactly one owner |
| BootImage.WalkAcceptsIff | scripts/audit_firmware_release.py:158-177 | the image headers are accepted exactly when their links lead through at most 32 distinct headers to an end, and every claim lies in the table and has one owner |
| BootImage.BootgenPartitions | scripts/audit_firmware_release.py:146-193 | the parser accepts exactly the well-formed partition tables and returns their partitions |
| BootImage.PayloadsAreDisjoint | scripts/audit_firmware_release.py:178-193 | every payload lies in the file behind the partition table, and no two share a byte |
| BootImage.EveryHeaderHasOneImage | scripts/audit_firmware_release.py:146-193 | every partition header belongs to exactly one slot of exactly one image, whose name it carries; there are no further claims exactly when all images are aligned |
| BootLayout.PartitionIsWritten | scripts/audit_firmware_release.py:178-190 | a partition header is accepted, as partition p, exactly when it is the one written for p word by word, its payload lies behind the table and its image is known |
| BootLayout.ImageIsWritten | scripts/audit_firmware_release.py:158-170 | an image header is read exactly as written: next header, first partition header, count and name |
| BootLayout.NameIsRead | scripts/audit_firmware_release.py:166-170 | a name is the nonempty ASCII text before the first zero byte |
| BootLayout.WordIsReversed | scripts/audit_firmware_release.py:167-168 | each word of a name has its bytes reversed |
| BootLayout.TableIsWritten | scripts/audit_firmware_release.py:146-157 | a table is found exactly where a completed boot header and an image header table written for it say |
| BootLayout.AcceptedIsWritten | scripts/audit_firmware_release.py:146-193 | every partition of an accepted image stands in its table as written, and the first one also in the boot header |
| MisalignedImage.MisalignedClaimAccepted | scripts/audit_firmware_release.py:171-176 | a concrete accepted image, whose second image claims an offset four bytes into a partition header |
| FixedPoint.LimitersAreGentle | scripts/compare_ssi263_formant.py:486-500 | the limiter keeps order; a slew step is short, neither passes its target nor moves away from it |
| FixedPoint.Scale4IsFraction | scripts/compare_ssi263_formant.py:507-540 | the shift sums are the gain's fraction of the sample in sixteenths, up to rounding down |
| FixedPoint.Scale7Fits | scripts/compare_ssi263_formant.py:542-559 | a scaled 24-bit sample stays 24-bit |
| FixedPoint.Scale20Fits | scripts/compare_ssi263_formant.py:561-604 | for every gain a scaled 24-bit sample stays 24-bit |
| Filter.FixedFilter.Apply | scripts/compare_ssi263_formant.py:280-288 | returns the specified output and shifts both histories by one |
| Filter.MemoryHoldsThePast | scripts/compare_ssi263_formant.py:275-288 | with room for an input and an output, the memory holds exactly the most recent ones |
| Filter.NoRoomIsRoomForOne | scripts/compare_ssi263_formant.py:275-288 | a filter made with no room for past inputs or outputs gives the same outputs as one with room for one |
| Filter.DifferenceEquation | scripts/compare_ssi263_formant.py:275-288 | for any lengths, zero counting as one, every output is the saturated combination of the present input and the previous inputs and outputs |
| Filter.OutputPoleIsLost | scripts/compare_ssi263_formant.py:275-288 | with no room for inputs, the second coefficient multiplies the previous input instead of the previous output |
| Filter.LostPoleWitness | scripts/compare_ssi263_formant.py:275-288 | a concrete step response that stops at once where the pole would let it decay |
| Filter.StepIsBounded | scripts/compare_ssi263_formant.py:280-288 | with 24-bit histories and at most seven 16-bit coefficients the sum stays below 2^41, and the histories stay 24-bit |
| ChipFacts.ClocksAgree | scripts/compare_ssi263_formant.py:350-357 | equality with restart and reached-or-passed with carry-over are one clock within the bounds |
| ChipFacts.ModelsSimulateEachOther | scripts/compare_ssi263_formant.py:338-394 | for every phone table, configuration and interleaving of starts, control steps and inflection writes, both models keep equal phone clock, update counter, closure state and noise |
| ChipFacts.FreshModelsAgree | scripts/compare_ssi263_formant.py:650-684 | the two models start in agreement |
| ChipFacts.RunsStayBounded | scripts/compare_ssi263_formant.py:696-856 | in every reachable state the clock, counters, registers, committed codes, pitch, noise and inflections are in range |
| ChipLaws.FreshModels | scripts/compare_ssi263_formant.py:650-684 | both models begin with the pause phone, closed, and every register, code and counter zero |
| ChipLaws.CommittedParts | scripts/compare_ssi263_formant.py:849-856 | a commit takes the high four bits of each register, of F2 the high five |
| ChipLaws.InflectionBits | scripts/compare_ssi263_formant.py:805-806 | the twelve inflection bits are the rate's bit 3, the inflection register and the rate's low three bits |
| ChipLaws.PitchTargetBits | scripts/compare_ssi263_formant.py:812-827 | setting the pitch target changes bits 6 to 10 only, and reading gives it back |
| ChipLaws.SlopeSteps | scripts/compare_ssi263_formant.py:811-813 | the ramp steps are one to four, then twice the step of two codes before |
| ChipLaws.InterpolationShare | scripts/compare_ssi263_formant.py:726-751 | one step covers a 32nd to a half of the distance by articulation, rounded down, but at least one, and never leads away |
| ChipLaws.Sc01Period | scripts/compare_ssi263_formant.py:383-385 | the period is two more than the byte of complemented inflection, formant code and a zero bit |
| ChipLaws.HdlSc01Period | scripts/compare_ssi263_formant.py:829-837 | in SC-01 mode the other model counts that period of the two top inflection bits, held to a byte |
| ChipLaws.Ssi263Period | scripts/compare_ssi263_formant.py:829-834 | otherwise five 32nds of what the inflection lacks of 4096, rounded down, at least one |
| ChipRuns.NoiseGuardIsIdle | scripts/compare_ssi263_formant.py:839-847 | in every run from a sound noise register its state never fills with ones |
| ChipRuns.NoiseStaysSound | scripts/compare_ssi263_formant.py:839-847 | a sound noise register stays sound, and its step is the one without the guard |
| ChipRuns.SlowRegistersAfter | scripts/compare_ssi263_formant.py:757-781 | after n control steps of a phone that is no pause, each slow register has moved once for each time the update counter came to 40 |
| ChipRuns.SlowUpdatesInRounds | scripts/compare_ssi263_formant.py:769-773 | that is once in any 48 control steps |
| ChipRuns.CommittedFromThenOn | scripts/compare_ssi263_formant.py:849-856 | once they have moved 255 times, the next commit makes the phone's own codes sound, and they stay |
| ChipRuns.MameSlowRegistersAfter | scripts/compare_ssi263_formant.py:350-374 | the same movement for the other model |
| ChipRuns.MameCommittedFromThenOn | scripts/compare_ssi263_formant.py:387-402 | the other model then commits the same codes and keeps them |
| ChipRuns.RampReachesIff | scripts/compare_ssi263_formant.py:812-827 | a transitioned chip sounds the requested inflection after n control steps exactly when n is at least the distance divided by the slope step, rounded up |
| ChipRuns.WrittenInflectionRamps | scripts/test_phasor_card.py:320-333 | on a live chip: after the registers are written and a phone is started in transition, the old pitch target ramps to the written one in exactly that many steps |
| ChipRuns.FrozenPitchIsReached | scripts/compare_ssi263_formant.py:791-837 | a concrete run from reset ends with pitch one and limit one, and no number of control steps moves it |
| ChipFacts.PitchMaskIsIdle | scripts/compare_ssi263_formant.py:791-803 | the ten-bit mask on the pitch never removes a bit |
| ChipFacts.HdlMovesTowards | scripts/compare_ssi263_formant.py:737-751 | one step moves strictly towards sixteen times the target and rests exactly there |
| ChipFacts.MameMovesTowards | scripts/compare_ssi263_formant.py:346-348 | one step moves strictly towards the band [16t, 16t + 7] and rests inside it; its mask removes nothing |
| ChipFacts.BothInterpolatorsCommitTheTarget | scripts/compare_ssi263_formant.py:726-751 | from any two bytes and for every articulation both registers settle on the code t (by four bits) and 2t (by three), for good |
| ChipFacts.ClockAfterStart | scripts/compare_ssi263_formant.py:757-767 | a started phone reaches tick sixteen after exactly 16 * (4 * duration + 1) control steps and stays there |
| ChipFacts.ClosureAfterStart | scripts/compare_ssi263_formant.py:757-772 | the closure is taken over exactly at the closure delay, and the update counter runs on modulo 48 |
| ChipFacts.PitchFallsIntoRange | scripts/compare_ssi263_formant.py:791-803 | under a steady limit of at least two, any ten-bit pitch falls below the limit in at most that many steps |
| ChipFacts.PitchCounts | scripts/compare_ssi263_formant.py:791-803 | inside the range the pitch is an exact counter modulo the limit |
| ChipFacts.PitchReachesRangeIff | scripts/compare_ssi263_formant.py:791-803 | the range is reached exactly when the limit is at least two or the pitch is zero |
| ChipFacts.LimitOneIff | scripts/compare_ssi263_formant.py:829-837 | the limit is one exactly outside the SC-01 mode at inflections from 0xFF4 |
| ChipFacts.CommitsPerPeriod | scripts/compare_ssi263_formant.py:791-803 | a period commits the filters once for each of 8, 10, 12, 14 below the limit: four times exactly from limit 15 on |
| Synth.FlowFits | scripts/compare_ssi263_formant.py:949-995 | every signal between the filters fits 24 bits, the mixers' sums fit 25, every filter sum stays below 2^41 |
| Synth.SampleStaysBounded | scripts/compare_ssi263_formant.py:949-1001 | from every reachable state one more sample keeps histories and presence 24-bit and the output 16-bit |
| SynthLaws.VoiceFollowsThePulse | scripts/compare_ssi263_formant.py:962-972 | the voice enters the filters as the glottal pulse of the pitch counter, in sixteenths of the voice code |
| SynthLaws.NoiseFollowsTheBit | scripts/compare_ssi263_formant.py:966-973 | the noise enters as 512 a code step, positive exactly with gate and noise bit, shifted and saturated |
| SynthLaws.RestSendsNothing | scripts/compare_ssi263_formant.py:950-973 | a phone that has ended sends nothing into the filters |
| SynthLaws.ClosureMutes | scripts/compare_ssi263_formant.py:874-879 | for a phone neither a voiced stop nor unvoiced, an open closure passes the signal whole and a full one nothing |
| SynthLaws.LevelFallsWithClosure | scripts/compare_ssi263_formant.py:542-559 | a higher gain always lets more of a signal through, of either sign |
| SynthLaws.BurstLaw | scripts/compare_ssi263_formant.py:858-879 | an unvoiced stop bursts for two ticks after its delay, fades over three and is silent before and after |
| SynthLaws.AttackLaw | scripts/compare_ssi263_formant.py:888-907 | a voiced stop is silent until its closure delay, attacks for two ticks, fades over four and is silent again |
| SynthLaws.BypassLaw | scripts/compare_ssi263_formant.py:984-992 | what the low-pass took comes back by three quarters for voice and CH, five quarters for other open noise, and not at all otherwise |
| SynthLaws.AttackBoostLaw | scripts/compare_ssi263_formant.py:909-941 | noisy and closed phones are louder by a half, a quarter and an eighth in three ticks from their attack, and not otherwise |
| SynthLaws.Scale7IsItsPart | scripts/compare_ssi263_formant.py:542-559 | the closure gains are their parts of 512, near to sevenths, to within rounding |
| SynthLaws.Scale20IsItsPart | scripts/compare_ssi263_formant.py:561-604 | the mixer gains are their parts of 64, near to twentieths, to within rounding |
| SynthLaws.SoftLimitLaw | scripts/compare_ssi263_formant.py:486-491 | the limiter passes 14 bits, bends the rest to a quarter and stops at 16 bits |
| SynthLaws.SaturationLaw | scripts/compare_ssi263_formant.py:478-484 | saturation keeps what fits and otherwise gives the nearest bound |
| SynthLaws.SlewLaw | scripts/compare_ssi263_formant.py:494-500 | a near target is reached at once, a far one approached by 3000 |
| Models.MameLikeVotrax.StartPhone | scripts/compare_ssi263_formant.py:338-344 | the object's new state is the specified start |
| Models.MameLikeVotrax.ChipUpdate | scripts/compare_ssi263_formant.py:350-394 | the object's new state is the specified update |
| Models.HdlLikeFormant.constructor | scripts/compare_ssi263_formant.py:617-684 | a new chip is in the initial state, within bounds, with silent filters |
| Models.HdlLikeFormant.SetInflection | scripts/test_phasor_card.py:325-327 | assigning the two registers on a live object changes the configuration and nothing else |
| Models.HdlLikeFormant.StartPhone | scripts/compare_ssi263_formant.py:696-724 | the new control state is the specified start; of the sound only the idle count is reset |
| Models.HdlLikeFormant.Interpolate | scripts/compare_ssi263_formant.py:737-751 | computes the step towards sixteen times the target that both directions specify |
| Models.HdlLikeFormant.AdvanceInflection | scripts/compare_ssi263_formant.py:815-827 | the new inflections are the specified approach to the requested target |
| Models.HdlLikeFormant.AdvancePitchNoise | scripts/compare_ssi263_formant.py:791-803 | pitch, committed codes and noise advance as specified |
| Models.FilterBank.Run | scripts/compare_ssi263_formant.py:949-985 | the seven filter objects, applied in turn, produce the specified signals and histories |
| Models.HdlLikeFormant.ControlStep | scripts/compare_ssi263_formant.py:757-827 | inflection, update and pitch-noise steps in order give the specified control step |
| Models.HdlLikeFormant.SynthSample | scripts/compare_ssi263_formant.py:949-1001 | the seven filter objects and the limiters give the specified next audio state and its output |
| Phrase.SamplesForIsUnique | scripts/compare_ssi263_formant.py:1408-1447 | the number of samples for a number of control steps is the least that suffices |
| Phrase.TwelveSamplesAreFiveSteps | scripts/compare_ssi263_formant.py:1003-1016 | any twelve successive samples hold five control steps |
| Phrase.RenderHdlPhone | scripts/compare_ssi263_formant.py:1424-1437 | the loop always leaves because the phone has ended, never by its guard, after exactly the samples sixteen ticks take, and returns the chip's samples |
| Phrase.RenderHdlPhrase | scripts/compare_ssi263_formant.py:1408-1447 | for every phone list the output is exactly the sound of each phone to its end and of the gap behind it, the chip running on |
| Phrase.PhraseLength | scripts/compare_ssi263_formant.py:1408-1447 | the number of samples of a phrase follows from the durations alone, and every sample is 16-bit |
| Phrase.PhraseIsSmooth | scripts/compare_ssi263_formant.py:494-500 | two successive samples of a phrase, across phones and gaps, differ by at most the slew step unless the later one is zero |
| Phrase.DecayEndsInSilence | scripts/compare_ssi263_formant.py:949-960 | whatever the control steps of the render loop do, a phone that has ended stays ended, counts 512 samples, and then is exactly silent with all filters cleared |
| Phrase.RestFallsSilent | scripts/compare_ssi263_formant.py:1438-1446 | in the sound of a resting chip every sample from the 512th idle one on is zero |
| Phrase.RenderMamePhone | scripts/compare_ssi263_formant.py:1459-1465 | the loop leaves by tick sixteen after exactly two samples a control step, the chip being updated before every second one |
| Phrase.RenderMamePhrase | scripts/compare_ssi263_formant.py:1450-1466 | for every phone list the output is exactly the states of each phone to its end and the silence behind it, of the length the durations tell |
| PhoneWords.FieldsShowLowBits | scripts/compare_ssi263_formant.py:138-154 | each of the low 44 bits of a word can be read off its decoded fields |
| PhoneWords.SameFieldsIff | scripts/compare_ssi263_formant.py:138-154 | two words decode alike exactly when they agree on bits 0 to 43 |
| PhoneWords.DecodeOfWord | scripts/compare_ssi263_formant.py:138-154 | every set of parameters in range is the decoding of a 44-bit word |
| PhoneWords.DecodedIsFromRom | scripts/compare_ssi263_formant.py:138-154 | decoded fields have the ranges the chip models rely on |
| FormantPackage.InvertVotraxMap | scripts/build_ssi263_formant_rom.py:60-65 | each phone is inverted to the first one mapped to it, and to $3F when there is none, although $3F also marks a free entry |
| FormantPackage.NoRowIsLost | scripts/build_ssi263_formant_rom.py:266-275 | a ROM whose 64 rows cover all phones has no row replaced by another |
| FormantPackage.RowIsFiledByItsLastByte | scripts/build_ssi263_formant_rom.py:268-271 | a row is filed under its eighth byte in the file, modulo 64 |
| PackageLaws.CoversIff | scripts/build_ssi263_formant_rom.py:266-275 | a ROM covers all phones exactly when each is named by the eighth byte of one of its 64 rows |
| FormantPackage.ReadOfPrint | scripts/build_ssi263_formant_rom.py:291-318 | a number printed in fixed-width hexadecimal is read back |
| FormantPackage.RowIsReadBack | scripts/compare_ssi263_formant.py:163-179 | the reader's searches take a printed row for its own kind, key and value, and for no other kind |
| PackageLaws.MatchIff | scripts/compare_ssi263_formant.py:163-179 | a row pattern matches exactly where a row's text stands, and its groups are the two numbers |
| PackageLaws.HexDigitsIff | scripts/compare_ssi263_formant.py:168-179 | digits are read in either case |
| PackageLaws.LastRowWins | scripts/compare_ssi263_formant.py:168-179 | for every text: a key is read with a value exactly when the first row in some line gives it and no later line gives the key |
| PackageLaws.PhoneRowText | scripts/build_ssi263_formant_rom.py:291-318 | the printed text of a phone map row |
| FormantPackage.EmitPackage | scripts/build_ssi263_formant_rom.py:266-318 | refuses exactly the ROMs that miss a phone, and otherwise prints the two tables between their surrounding lines |
| FormantPackage.ParseGeneratedData | scripts/compare_ssi263_formant.py:157-187 | the loop over the lines computes the specified reading |
| FormantPackage.PackageRoundTrip | scripts/compare_ssi263_formant.py:157-187 | reading a printed package gives every word, all 64 bits and decoded, the same phone map and no override |
| FormantPackage.GenerateAndRead | scripts/build_ssi263_formant_rom.py:266-318 | with the shipped phone table, generating and reading succeeds exactly for ROMs that cover all phones and gives back their words, their fields and the inverse of that table |
| MouseRom.Assemble | scripts/build_mouse_rom.py:109-208 | the two loops accept exactly the programs the specification accepts, with its code and symbols |
| MouseRom.LabelsAreAddresses | scripts/build_mouse_rom.py:140-153 | every label equals the origin plus the bytes emitted before it |
| MouseRom.DisassemblyIsInverse | scripts/build_mouse_rom.py:155-208 | the code reads back as the program, instruction for instruction, exactly when every absolute operand fits 16 bits |
| MouseRom.CodeSaysTheProgram | scripts/build_mouse_rom.py:155-208 | each disassembled instruction of an accepted 16-bit program has its statement's mnemonic, the mode its notation stands for and the operand it names |
| MouseRom.SymbolsOfAccepted | scripts/build_mouse_rom.py:115-131 | every equate of an accepted program keeps its value |
| MouseRom.TruncatedJumpAccepted | scripts/build_mouse_rom.py:196-207 | a jump to $12345 is accepted and reads back as a jump to $2345 |
| MouseRom.AcceptedProgram | scripts/build_mouse_rom.py:109-208 | both of the above for every accepted program, whose code fits its region |
| MouseRom.Compose | scripts/build_mouse_rom.py:211-229 | for code that fits, the collision and overrun checks never fire, and every page byte is the pinned, vector, code or filler byte due there |
| MouseRom.StubsStand | scripts/build_mouse_rom.py:37-51 | the identification bytes and the three stubs stand where the pinned symbols point |
| MouseRom.VectorsStand | scripts/build_mouse_rom.py:53-56 | the nine vectors stand in protocol order and lead to their routines in the page |
| MouseRom.CodeStands | scripts/build_mouse_rom.py:222-229 | the code stands whole behind the vectors, and every other byte is filler |
| BootMenuRom.SizesAgreeIff | scripts/build_boot_menu_rom.py:171-199 | both passes size an instruction alike exactly when its operand does not turn small late |
| BootMenuRom.SymbolsOnlyGrow | scripts/build_boot_menu_rom.py:202-230 | without redefinitions the symbols of every prefix keep their values to the end |
| BootMenuRom.PassesAgree | scripts/build_boot_menu_rom.py:202-325 | without redefinitions and late shrinking every statement is emitted at its first-pass address |
| BootMenuRom.AddressesAgreeIffMovedAlike | scripts/build_boot_menu_rom.py:202-325 | for every program both passes accept, all addresses agree exactly when every instruction is sized alike and every origin evaluates alike under the symbols before it and the final ones |
| BootMenuRom.AddressesAgreeIff | scripts/build_boot_menu_rom.py:202-325 | without redefinitions, all addresses agree exactly when no operand shrinks late |
| BootMenuRom.LabelsAreAddresses | scripts/build_boot_menu_rom.py:219-230 | a label is the address at which the statement behind it is emitted |
| BootMenuRom.LateShrinkWitness | scripts/build_boot_menu_rom.py:171-189 | a concrete program whose label ends up one past its statement |
| BootMenuRom.RedefinitionWitness | scripts/build_boot_menu_rom.py:202-230 | a concrete program with a redefined symbol whose label ends up one short of its statement, though nothing shrinks late |
| BootMenuBuild.OpcodesAreDistinct | scripts/build_boot_menu_rom.py:33-77 | an opcode byte determines its mnemonic and mode |
| BootMenuBuild.ZeroPageOperand | scripts/build_boot_menu_rom.py:180-188 | the zero-page form is chosen only for operands that fit it |
| BootMenuBuild.LowAndHigh | scripts/build_boot_menu_rom.py:114-121 | `<` and `>` are the low and high byte of a value |
| BootMenuBuild.EvaluatesArithmetic | scripts/build_boot_menu_rom.py:123-129 | sums, differences, numbers and the counter evaluate to themselves |
| BootMenuBuild.ImmediatesHoldTheAddress | scripts/build_boot_menu_rom.py:244-249 | two immediates `#<L` and `#>L` in the image together hold the address of the statement behind L |
| BootMenuBuild.ImageDisassembles | scripts/build_boot_menu_rom.py:233-267 | where no cell is written twice, memory at each instruction's address reads back as that instruction with its intended operand, branches landing on their targets |
| BootMenuBuild.BranchReachesItsLabel | scripts/build_boot_menu_rom.py:250-256 | a branch to a label lands where the label's statement was emitted |
| BootMenuLaws.InstructionIff | scripts/build_boot_menu_rom.py:171-267 | the bytes stored for an instruction are exactly those the processor's opcode table reads as that instruction with its operand, in the short form whenever that fits; it is refused exactly when there are none |
| BootMenuLaws.ResolvedIff | scripts/build_boot_menu_rom.py:151-168 | an operand is resolved early exactly when it is plain arithmetic over known symbols |
| BootMenuLaws.EvaluatesIff | scripts/build_boot_menu_rom.py:114-129 | an expression has a value exactly when all its symbols are known |
| BootMenuLaws.DataIff | scripts/build_boot_menu_rom.py:302-307 | a data statement stores its items one after the other, each evaluated where it stands, and is refused exactly when one has no value |
| BootMenuLaws.DataStands | scripts/build_boot_menu_rom.py:302-307 | where no cell is written twice, the image holds them at the statement's address |
| BootMenuLaws.IndexIff | scripts/build_boot_menu_rom.py:233-267 | a counter reaches the cell it is congruent to, from one memory size below zero to one above |
| BootMenuLaws.AcceptedIff | scripts/build_boot_menu_rom.py:270-336 | a program is accepted exactly when both passes get through and every byte is stored up to $C7FE, or from a section at or above $C800 up to $C8FF |
| BootMenuBuild.RelocationMarks | scripts/build_boot_menu_rom.py:262-267 | a cell is marked exactly when it is the high byte of an absolute operand in $C700-$C7FF |
| BootMenuBuild.MarkedCellsHoldThePage | scripts/build_boot_menu_rom.py:262-267 | where no cell is written twice, every marked cell holds $C7 |
| BootMenuBuild.SectionsStayApartIff | scripts/build_boot_menu_rom.py:279-334 | in an accepted program the expansion section stays in its page, and the slot section stays below $C7FF exactly when no counter wraps from below zero |
| BootMenuBuild.SlotSectionStaysIff | scripts/build_boot_menu_rom.py:279-334 | the same, decided by the first pass alone: no instruction or data list of the slot section occupies an address that wraps |
| BootMenuBuild.SectionsNeverClobber | scripts/build_boot_menu_rom.py:279-334 | without such a wrap the two sections share no cell and leave $C7FF alone |
| BootMenuBuild.SignatureByteIsFree | scripts/build_boot_menu_rom.py:317-340 | then forcing $C7FF to zero overwrites no emitted byte |
| BootMenuBuild.OriginsKeepCountersUp | scripts/build_boot_menu_rom.py:297-301 | origins at or above zero keep every counter there |
| BootMenuBuild.NegativeOriginClobbers | scripts/build_boot_menu_rom.py:297-301 | a concrete accepted program whose slot section overwrites the expansion page |
| BootMenuAssembler.CollectSymbols | scripts/build_boot_menu_rom.py:202-230 | the first loop computes the symbols of the first pass |
| BootMenuAssembler.EmitInstruction | scripts/build_boot_menu_rom.py:233-267 | one instruction's bytes and mark are added in place to both arrays, or it is refused exactly when the specification refuses it |
| BootMenuAssembler.EmitItems | scripts/build_boot_menu_rom.py:302-307 | a data list is stored item by item and moves its own section's mark only |
| BootMenuAssembler.Build | scripts/build_boot_menu_rom.py:270-344 | returns pages exactly for accepted programs: the slot page and its relocation map with the last byte zeroed, and the expansion page, as the writes left them |
| RomPatch.PatchAbsJsr | scripts/build_smartport_rom.py:564-576 | page and count are exactly those of the scan that sees its own rewrites |
| RomPatch.ScanIsRetargetingIff | scripts/build_smartport_rom.py:564-576 | the scan redirects, and counts, exactly the calls of the page it was given exactly when it does not feed itself: not from $C7 to $20 with a call followed by $C7 |
| RomPatch.ScanRedirects | scripts/build_smartport_rom.py:564-576 | the same after any number of positions |
| RomPatch.RewrittenTwice | scripts/build_smartport_rom.py:564-576 | a concrete page where one call is counted twice |
| RomPatch.ApplyEntries | scripts/build_smartport_rom.py:579-664 | a page is patched exactly when it has the expected shape, a call of each routine and an empty probe area |
| RomEntries.AcceptedIff | scripts/build_smartport_rom.py:600-658 | the pages that are patched, read off the original page alone, byte by byte |
| RomPatch.OtherBytesUnchanged | scripts/build_smartport_rom.py:579-664 | outside the fixed places, the old routine and the redirected operands nothing changes |
| RomPatch.FixedBytes | scripts/build_smartport_rom.py:639-658 | the entry jumps, the trampoline, the probe signature and the last byte are in place |
| RomPatch.RoutineIsMoved | scripts/build_smartport_rom.py:627-637 | the whole setup routine stands at its new place |
| RomPatch.CallIsRedirected | scripts/build_smartport_rom.py:628-634 | a former call clear of the fixed places calls the moved routine |
| RomPatch.EntriesReachTheirTargets | scripts/build_smartport_rom.py:579-664 | from any machine state Cn0A jumps to DISK, Cn0D to DISK + 3, and the intact boot branch with V clear to DENTRY |
| RomPatch.WholeInstructions | scripts/build_smartport_rom.py:611-620 | the step model runs exactly the twelve instructions of the patched code, whole in the page, one behind the other |
| RomPatch.BootBranchIntactIff | scripts/build_smartport_rom.py:628-664 | the boot branch opcode survives exactly when no redirected call stands at Cn08 |
| RomEntries.ByteSurvivesIff | scripts/build_smartport_rom.py:579-664 | a byte of an accepted page survives exactly when it lies clear of everything rewritten, or in an entry place that already held its byte |
| RomEntries.DiskSurvivesIff | scripts/build_smartport_rom.py:606-658 | the code at DISK survives exactly when it lies clear of the entry jumps, the trampoline and the last byte |
| RomEntries.EntriesRunTheirCode | scripts/build_smartport_rom.py:606-658 | under that condition Cn0A runs DISK's code to DISK + 4 with carry clear and Cn0D with carry set, as the code runs on the original page |
| RomEntries.BootReachesDentry | scripts/build_smartport_rom.py:642-664 | the boot branch, unless a redirected call stands at Cn08, reaches DENTRY, whose byte is the original one exactly under the stated condition |
| RomEntries.CallIsRedirectedIff | scripts/build_smartport_rom.py:564-658 | in an accepted page a former call becomes a call of the moved routine exactly when none of its three bytes lies in an entry place |
| RomEntries.ClearCallsBehaveAlike | scripts/build_smartport_rom.py:579-664 | such a call has the same effect on registers, flags, stores, stack and return as on the original page |
| RomEntries.EntryLoopsForever | scripts/build_smartport_rom.py:606-658 | a concrete accepted page whose ProDOS entry never leaves Cn0A |
| RomEntries.BranchIsLost | scripts/build_smartport_rom.py:628-664 | a concrete accepted page whose boot branch opcode is overwritten |
| RomPatch.CallsBehaveAlike | scripts/build_smartport_rom.py:579-664 | a former call has the same effect on registers, flags, stores, stack and return as on the original page |
| Pal256.MakeBank | scripts/build_pal256_image.py:36-49 | refuses a field of the wrong size or a short palette; otherwise every byte of the bank is the pixel, control, magic, palette or filler byte due there |
| Pal256.PixelShowsItsColour | scripts/render_shr4.py:82-148 | decoding a packed bank gives at every pixel its palette colour with each channel's low nibble cleared |
| Pal256.PackedSelectsPal256 | scripts/render_shr4.py:62-69 | a packed bank always selects the PAL256 renderer |
| Pal256.Pal256Line | scripts/render_shr4.py:141-148 | a line is 320 pixels, each twice |
| Pal256.Frame | scripts/render_shr4.py:214-231 | all 400 rows are filled, each with its bank's line |
| Pal256.Pack | scripts/build_pal256_image.py:52-79 | the file holds one bank, or the upper and lower half picture in two |
| Pal256.PackedPictureIsShown | scripts/render_shr4.py:214-231 | packing and rendering show every pixel of the picture in its four-bit palette colour, in every row, single or interlaced |

## Left out

- FormantPackage.PackageRoundTrip: the lines around the two tables (module header, field functions, coefficient functions) are arbitrary text without a six- or eight-bit key and its colon, and a package is its list of lines, because the coefficients come from floating point; joining and splitting lines is not modelled.
- FormantPackage.EmitPackage: the fixed Verilog text around the tables is a parameter.
- Packager.AppendManifest: opening, creating, reading, writing and replacing may each fail; removing the temporary file, whose random name is a parameter, does not; other processes do not touch the files during the call; the two messages for an oversized payload are one error.
- Phrase.RenderMamePhone: what `analog_calc` computes from a state in floating point is not modelled, so a sample is the state it reads; the gap between phones is given in samples, and the final normalization of the list is left out.
- Models.HdlLikeFormant.SynthSample: the coefficient tables are arbitrary 16-bit integers, not the values designed in floating point.
- ChipFacts.ModelsSimulateEachOther: pitch and filter registers are not part of the relation, because the two pitch dividers and interpolators really differ.
- LoadImage.CheckElf: the report it returns (digests, chunk list, zero-fill count) is not modelled.
- RawElf.Elf32: the dictionary of symbol values it also returns, with decoded names, is not modelled.
- BootMenuRom.PassesAgree: source lines are modelled after parsing, with expressions built from numbers, symbols, the counter, low and high bytes, sums and differences; regular expressions, quotes, `#` inside operands and Python's other operators are left out.
- MouseRom.Assemble: source lines are modelled after parsing.
- RomPatch.PatchAbsJsr: both addresses lie in the slot page, as the only callers ensure.
- RomEntries.EntriesRunTheirCode: the code behind DISK + 4 and DENTRY is the reference source's and is not run; the step model covers the instructions of the patched code only; `assemble_source` and the reference source are not part of this model.
- Pal256.Frame: the renderer's modes other than PAL256, the image scaling and quantization, and PNG output are left out.
- Signed-off builds: SHA-256 identities, timing reports, ZIP files, subprocesses, FTP, TLS and UART tools, which compare or move bytes, are left out.
- The firmware's C and SystemVerilog and the protocols its documentation describes are left out.
- The phoneme audits, spectra, correlations and WAV files of the comparison script are floating-point reports and are left out.
