# Disk tracks, flux and an emulated Amiga: a verified model

This project models the stateful and bit-level core of a disk-image toolkit and of
the small Amiga emulator that comes with it, and proves what that core is for.

- **Track codec.** `TrackBuffer` is the ring into which format handlers print a
  track; `StreamReader` is the cell stream from which they parse one, and
  `Revolutions` what it delivers of a ring. `Crc`, `Mfm`, `MfmWord` and `SyncMarks`
  hold the encodings, `Gap` what lies between the end of a track and its start, and
  `Speed` the nominal and the weak speed. On top of them stand the AmigaDOS format
  (`AmigaDos`, `AmigaDosReader`, `AmigaDosErrors`, `AmigaDosTrack`), the IBM MFM
  format (`IbmTrack`, `IbmReader`, `IbmSectorList`, `IbmField`, `IbmGap`, `IbmIam`,
  `IbmRoundTrip`, `IbmRing`, `IbmLayout`) and the modified MFM of DEC RX02 disks
  (`Rx02`). The main results are round trips: whatever is written is read back, from a
  finished ring, from a reset on and over any number of revolutions, and sync marks
  are seen only where they were written.
- **Flux.** `Pll` is the software phase-locked loop and the ideal flux source,
  `PllTracking` the loop with its period adjustment; `ScpSamples` and `ScpTrack` write
  flux as samples. Time is conserved exactly, and the loop keeps lock: with a fixed
  period on every sequence of intervals within a sixteenth of a cell, with the default
  adjustment on cells of any one length within a sixteenth.
- **Emulated Amiga.** `EventOrder`, `EventFire` and `EventQueue` are the event
  queue; `FreeList`, `HeapHistory` and `Memory` the memory allocator; `Drive` and
  `DiskDma` the floppy drive and its data path; `M68kArith`, `M68kMemory`,
  `M68kChain`, `M68kMemoryChain`, `M68kException` and `M68kCpu` the arithmetic with
  the extend flag and exceptions. Invariants hold in every reachable state, and
  chains of instructions compute numbers of any length.
- **Two codecs of their own.** `Copylock` rebuilds a protected track from any one of
  its sectors; `IpfFormat`, `IpfRuns`, `IpfBlocks` and `IpfWriter` write IPF data
  streams whose chunk headers are squeezed in after the fact.

Objects whose methods change them in C are classes here (`Tbuf`, `Stream`,
`Decoder`, `SoftStream`, `EventBase`, `Mem`, `Df0`, `DataPath`, `IpfTbuf`, `Cpu`, and the
linked `List` under the sector, event and region lists); loops are loops. Each such
method is tied to a function of its inputs or of the old state, and the properties
are lemmas about those functions. Bit cells, shift registers and the status register
are lists of booleans, most significant first; stored bytes and words are numbers.

Where code and expectation differ the model follows the code, and a lemma says
exactly when the expectation holds:

- the V flag of ADDX and SUBX (`M68kArith.OverflowExact`);
- setting an event to time zero (`EventOrder.SetKeeps`);
- freeing memory that is already free (`FreeList.ReleaseExact`);
- recovery reads, which may list sectors closer than 1000 cells
  (`IbmSectorList.SpacedThroughout`, with the input `IbmSectorList.RecoveryMayCrowd`);
- an empty weak stretch, after which an IPF block is not closed
  (`IpfRuns.BlocksExact`, with the input `IpfRuns.EmptyWeakLosesBlock`);
- a sync run at the very start of a track or directly behind a gap, which is not counted
  when an IPF block is split (`IpfBlocks.BlockHolds`, with the input
  `IpfBlocks.LeadingSyncStays`);
- an extended CopyLock signature, which makes its sector eight bytes too long
  (`Copylock.EmittedExact`);
- an SCP track without flux, whose time may be lost (`ScpTrack.TrackDuration`, with
  the input `ScpTrack.TimeLostWithoutFlux`);
- the ID CRC of an IBM sector, of which the reader keeps the low byte only, so that
  a field with a wrong CRC may be trusted (`IbmField.IdTrusted`, with the input
  `IbmField.WrongIdTrusted`);
- the data start of an AmigaDOS track, which, with the index pulse taken at the last
  cell of the ring as in `Revolutions`, is reported one cell more than its distance
  from that pulse (`AmigaDosTrack.RoundTrip`);
- RTE after a bus or address error (`M68kException.RestoredIffShort`).

`dafny verify dfyconfig.toml` checks the whole project.

## Model

| member | source | states |
|---|---|---|
| Crc.Crc16Ccitt | libdisk/util.c:119-131 | the bytewise CRC over a buffer equals the bit-serial CRC over its bits, most significant first |
| Crc.CrcByteIsEightBits | libdisk/util.c:119-140 | one bytewise update is eight bitwise updates, for every byte and register |
| Crc.CrcBytesAreBits | libdisk/util.c:119-140 | the two forms agree on buffers of any length |
| Crc.CrcResidueZero | libdisk/util.c:133-140 | feeding the register its own sixteen bits clears it, so a field followed by its CRC leaves residue zero |
| Crc.LowBitsClear | libdisk/util.c:133-140 | feeding up to sixteen bits leaves as many low bits of the register clear if and only if they are its high bits |
| Crc.OneBitSeen | libdisk/util.c:133-140 | fields that differ in a single bit, wherever it is, leave different CRCs |
| Crc.PresetInverts | libdisk/stream/stream.c:158-163 | starting from the preset is starting from a clear register with the first sixteen bits inverted, for any bits |
| Mfm.MfmDecodeBytes | libdisk/disk.c:690-711 | byte i of the output is decoded from the right pair of input bytes in each layout, also when the linear form decodes a buffer onto itself, and nothing else changes |
| Mfm.MfmEncodeBytes | libdisk/disk.c:713-748 | the cells of the output are the MFM encoding of the laid-out data bits, continuing after the previous data bit, for all three layouts |
| Mfm.CodecRoundTrip | libdisk/disk.c:690-748 | decoding what encoding wrote returns every byte, whatever the layout and the preceding bit |
| Mfm.DataBitsOfEncode | libdisk/disk.c:658-688 | taking every second cell undoes the encoding of any data bits, whatever bit came before |
| MfmWord.DecodeWordIs | libdisk/disk.c:658-668 | the sixteen shifted and masked terms of the word decoder pick out every second cell |
| MfmWord.EncodeWordIs | libdisk/disk.c:670-688 | the shift-and-mask word encoder computes the MFM cells of the low sixteen bits, the first clock cell depending on the bit above them |
| MfmWord.WordRoundTrip | libdisk/disk.c:658-688 | decoding an encoded word returns its sixteen data bits |
| Mfm.DecodeUndoesLayout | libdisk/disk.c:690-711 | any cells that carry the laid-out data bits decode to the bytes, whatever the clock cells are |
| Mfm.EncodedRunIsLegal | libdisk/disk.c:670-688 | an encoded run obeys the clock rule wherever it stands in a stream |
| Mfm.LegalRunLength | libdisk/disk.c:670-688 | legal MFM has no two ones side by side and no four zeros in a row |
| TrackBuffer.Tbuf.ChangeBit | libdisk/disk.c:458-464 | exactly one cell of the map changes |
| TrackBuffer.Tbuf.AppendBit | libdisk/disk.c:466-472 | the cell and its speed are appended to what the ring holds; Valid() ties ring and log together cell by cell |
| TrackBuffer.Tbuf.Bit | libdisk/disk.c:474-487 | a data bit appends clock and data cell by the MFM rule, a raw bit one cell, and the previous data bit is updated |
| TrackBuffer.Tbuf.Gather | libdisk/disk.c:549-579 | the value re-packed for an even-odd or odd-even pass is made of every second bit |
| TrackBuffer.Tbuf.Emit | libdisk/disk.c:549-579 | the cells of a word in each of the raw, plain and two-pass encodings, the CRC over its data bits, the speeds |
| TrackBuffer.Tbuf.EmitBytes | libdisk/disk.c:581-598 | a buffer is laid out, encoded and entered into the CRC in one go |
| TrackBuffer.Tbuf.EmitCrc | libdisk/disk.c:643-646 | the CRC is written after its field and the register is left at zero |
| TrackBuffer.LaidAt | libdisk/disk.c:466-472 | as long as the cells fit on the ring, cell i is where the write position was i cells ago and no other cell has changed |
| TrackBuffer.Tbuf.Finalise | libdisk/disk.c:513-547 | gap fill ends; every cell of the gap gets its value and the average speed, no other cell or speed changes, and the write splice lies inside the raw zeros in the middle of the gap |
| TrackBuffer.MiddleOfGap | libdisk/disk.c:513-547 | the raw zeros begin in the middle of the gap, to within two cells, and are five wherever the second half has room |
| TrackBuffer.FinishedRing | libdisk/disk.c:513-547 | if at least one cell and less than a turn was appended, the finished ring read from the data start is what was appended followed by exactly the gap |
| StreamReader.Stream.Reset | libdisk/stream/stream.c:117-156 | the source starts again and the stream stands behind the first index pulse, its register filled with the cells before that pulse |
| StreamReader.Stream.NextIndex | libdisk/stream/stream.c:150-156 | the stream runs on to just behind the next index pulse, or to its end |
| StreamReader.Stream.NextBit | libdisk/stream/stream.c:165-191 | one more cell is consumed; Valid() ties the register, the index distance, the track length and the rolling CRC to the cells read so far |
| StreamReader.Stream.NextBits | libdisk/stream/stream.c:193-200 | n cells are consumed, or the stream ends |
| StreamReader.Stream.NextBytes | libdisk/stream/stream.c:202-214 | the bytes stored are the next 8n cells packed from the top |
| StreamReader.Stream.StartCrc | libdisk/stream/stream.c:158-163 | the rolling CRC starts with the two bytes in the register |
| StreamReader.WordIsLast32 | libdisk/stream/stream.c:165-191 | after 32 cells the register shows exactly the last 32 |
| StreamReader.CrcRunIsBitSerial | libdisk/stream/stream.c:165-191 | over whole bytes the rolling bytewise CRC is the bit-serial CRC of the data bits |
| SyncMarks.HalvesAsNumbers | libdisk/format/amiga/amigados.c:55-60 | the halves of the four sync words of the list, as numbers |
| SyncMarks.OwnHalvesAsNumbers | libdisk/format/amiga/amigados.c:344-475 | the halves of the sync words of the twelve track types that accept a single one |
| SyncMarks.NoHalfInLegal | libdisk/format/amiga/amigados.c:98-115 | no half of a sync word that some track type accepts occurs in legal MFM, with the clock cells at either parity |
| SyncMarks.NoHalfTail | libdisk/format/amiga/amigados.c:98-115 | the same if only the last fifteen cells are legal |
| SyncMarks.NoHalfAfterZeros | libdisk/format/amiga/amigados.c:98-115 | the same if the window starts with raw zeros and goes on with legal cells |
| SyncMarks.TurnedHalf | libdisk/format/amiga/amigados.c:55-60 | a half of the list turned by one to fifteen places differs from all four |
| SyncMarks.TurnedOwn | libdisk/format/amiga/amigados.c:344-475 | the half of a track type of its own turned by one to fifteen places differs from itself |
| SyncMarks.NoSyncBefore | libdisk/format/amiga/amigados.c:98-115 | for each track type, no window that straddles the start of a sync mark it accepts shows a sync that it accepts |
| SyncMarks.NoSyncAfter | libdisk/format/amiga/amigados.c:98-115 | nor does any window that straddles the end of one |
| AmigaDos.AmigadosChecksum | libdisk/disk.c:750-759 | the checksum as the exclusive or of all words, folded and masked |
| AmigaDos.ChecksumIs | libdisk/disk.c:750-759 | bit 2k+1 of the checksum is the parity of the data bits 2k and 2k+1 over all words of the buffer, and all other bits are clear |
| AmigaDos.OneBitOff | libdisk/disk.c:750-759 | a single data bit that is off changes the checksum, and changes it in exactly one bit |
| AmigaDos.EncodeSector | libdisk/format/amiga/amigados.c:225-260 | one sector: gap, sync, header, label, both checksums and data, in cells, all of the speed recorded for it |
| AmigaDos.AdosReadRaw | libdisk/format/amiga/amigados.c:215-261 | the encoder appends exactly the eleven sectors, each at its speed |
| AmigaDosReader.DecodeSector | libdisk/format/amiga/amigados.c:122-134 | header and data of a raw block and whether both checksums match |
| AmigaDosErrors.CellErrorSeen | libdisk/format/amiga/amigados.c:119-134 | if a sector checks out it no longer does with any one of its data cells off, in header, label, data or either checksum |
| AmigaDosErrors.ExtendedExact | libdisk/format/amiga/amigados.c:140-147 | a sector is extended if and only if no sector of a standard track has its sync and its header |
| AmigaDosReader.AdosWriteRaw | libdisk/format/amiga/amigados.c:98-161 | the scanning loop fills blocks, valid count, data start and the extended flag as the recursive scan of the cells says |
| AmigaDosTrack.FieldOfWord | libdisk/format/amiga/amigados.c:124-131 | a checksum written in even-odd layout reads back as its own bits |
| AmigaDosTrack.SectorDecodes | libdisk/format/amiga/amigados.c:122-134 | decoding what follows a sync mark gives back header and data, and both checksums verify |
| AmigaDosTrack.LegalBetween | libdisk/format/amiga/amigados.c:242-259 | from the end of one sync mark to the start of the next the cells are legal MFM, across the sector boundary |
| Gap.NoSyncAcrossSplice | libdisk/disk.c:513-547 | across the splice in a gap, whose raw zeros are no legal MFM, no window shows two halves of accepted sync words |
| AmigaDosTrack.NoSyncInGap | libdisk/format/amiga/amigados.c:98-115 | from the last mark of a revolution over the data, the gap and the splice up to the first mark of the next, no accepted sync shows |
| AmigaDosTrack.SyncOnlyWhereWritten | libdisk/format/amiga/amigados.c:98-115 | however often a finished track goes round, a window shows a sync that the track type accepts if and only if it stands where the encoder put one |
| AmigaDosTrack.ScanFrom | libdisk/format/amiga/amigados.c:98-161 | from a reset, or from behind any sector, the scan finds all sectors not yet found, in the order in which they pass |
| AmigaDosTrack.RoundTrip | libdisk/format/amiga/amigados.c:98-261 | for any sector contents, headers and labels, every track type and any mixture of the sync marks it accepts, any track length and data start, also where the track runs over the index, and any two or more revolutions read from a reset on: all eleven sectors come back with sync, header and data; extended contents are reported exactly if there are some; and the data start reported is one cell more than its distance from the index pulse, less the track length if the first mark ends at or behind the next pulse |
| AmigaDosTrack.StandardIsNotExtended | libdisk/format/amiga/amigados.c:140-147 | a standard track has no contents that are reported as extended |
| AmigaDosTrack.TrackReadRaw | libdisk/disk.c:179-200 | encoder and gap fill leave the ring that the round trip starts from |
| Revolutions.RegisterAt | libdisk/stream/stream.c:117-156 | behind the first index pulse the register shows what it would if the ring had always been turning |
| Revolutions.SoftLead | libdisk/stream/soft.c:30-55 | the cells that a soft stream delivers before the first index pulse fill the register with the end of the ring |
| Revolutions.FirstIndex | libdisk/stream/stream.c:150-156 | a reset leaves the stream behind the lead-in, at the start of the first whole revolution |
| IbmTrack.EmitMarks | libdisk/format/ibm.c:450-455 | twelve zero bytes and three marks, with the CRC started between them so that it covers the marks |
| IbmTrack.EmitField | libdisk/format/ibm.c:450-463 | a whole ID or data field with its CRC and filler, in cells |
| IbmTrack.EmitSector | libdisk/format/ibm.c:446-479 | one sector: ID field, gap, data field, gap |
| IbmTrack.EmitIam | libdisk/format/ibm.c:435-443 | the index mark and the gaps around it |
| IbmTrack.IbmMfmReadRaw | libdisk/format/ibm.c:425-480 | the encoder appends exactly the index mark, if any, and the sectors in order |
| IbmReader.IbmScanMark | libdisk/format/ibm.c:113-137 | finds the next doubled mark within the limit, its offset from the index and the mark byte, and starts the CRC there |
| IbmReader.StartExact | libdisk/format/ibm.c:127-129 | the start of a mark is measured from the pulse before it, also if the index goes by within the mark |
| IbmReader.IbmScanIdam | libdisk/format/ibm.c:139-161 | the ID field behind a mark and the low byte of its CRC |
| IbmReader.ReadData | libdisk/format/ibm.c:280-282 | the data behind a data mark, decoded in place |
| IbmReader.ReadSector | libdisk/format/ibm.c:239-287 | what is made of one ID field: redone at another ID mark, dropped or kept by track type and CRC |
| IbmReader.ScanIam | libdisk/format/ibm.c:219-226 | whether an index mark is seen anywhere |
| IbmReader.IbmMfmWriteRaw | libdisk/format/ibm.c:209-373 | the list ends up holding exactly what inserting the sectors met, in order, gives |
| IbmReader.OrdinaryRecordsGood | libdisk/format/ibm.c:284-287 | an ordinary track type only ever lists sectors whose data CRCs are good |
| IbmReader.RecordsTrusted | libdisk/format/ibm.c:250-264 | whatever the flux holds, and in a recovery read too, no sector is listed with a size code above 7, and each holds as many bytes as its code says |
| IbmReader.ListOrder | libdisk/format/ibm.c:289-373 | whatever the flux holds: entries of an ordinary read stay 1000 cells apart, those of a recovery read strictly ascending |
| IbmSectorList.Add | libdisk/format/ibm.c:289-373 | the linked list walk, replacement, removal and insertion do to the list what the insertion function says |
| IbmSectorList.OrdinaryListSpaced | libdisk/format/ibm.c:289-373 | good sectors in any order and from any revolution: offsets stay at least 1000 cells apart, ascending |
| IbmSectorList.SpacedUnlessCrowded | libdisk/format/ibm.c:289-373 | one sector keeps the distance of 1000 cells if and only if it does not take the place of a bad entry while the entry after that lies less than 1000 cells behind it |
| IbmSectorList.SpacedThroughout | libdisk/format/ibm.c:289-373 | over any sequence of sectors, good or bad, the list keeps the distance after every step if and only if no sector is of that kind when it is met |
| IbmSectorList.RecoveryListAscending | libdisk/format/ibm.c:289-373 | with bad sectors, replacement and moves the list stays strictly ascending, for every sequence of sectors |
| IbmSectorList.RecoveryMayCrowd | libdisk/format/ibm.c:289-373 | three sectors, the last of that kind, after which two entries are a cell apart |
| IbmSectorList.EverySectorCovered | libdisk/format/ibm.c:289-373 | every good sector that was met is in the list or within 1000 cells of one that is |
| IbmSectorList.InsertAllSpaced | libdisk/format/ibm.c:289-373 | sectors met in ascending order are listed in that order |
| IbmSectorList.InsertAllAgain | libdisk/format/ibm.c:289-373 | a second revolution adds nothing |
| LinkedList.List.InsertAt | libdisk/format/ibm.c:370-372 | splicing a node in behind the link found changes the list at exactly that place |
| LinkedList.List.RemoveAt | m68k/amiga/event.c:20-28 | unlinking a node takes exactly it out |
| IbmField.ResidueIs | libdisk/format/ibm.c:139-161 | the reader's rolling CRC, started at the second mark, behind a field with any sixteen bits in place of its CRC: what these bits leave of the field's CRC |
| IbmField.FieldResidue | libdisk/format/ibm.c:139-161 | so it is zero behind every field the writer wrote |
| IbmField.IdTrusted | libdisk/include/private/disk.h:150 | the whole residue of an ID field is zero if and only if its CRC is right; the byte of it that is kept is zero if and only if the second CRC byte is what the register asks for behind the first |
| IbmField.WrongIdTrusted | libdisk/format/ibm.c:250-264 | for any five bytes an ID field whose CRC is wrong and which passes the test all the same |
| IbmField.FieldCrcIs | libdisk/stream/stream.c:158-163 | in absolute terms: the CRC of a field is that of the bytes a1 a1 a1 and its own, the first sixteen bits inverted, from a clear register; the same for what the reader starts from at the second mark |
| IbmField.FillerReads | libdisk/format/ibm.c:435-480 | what stands behind the CRC of a field, up to the next field, reads as bytes 0x4e |
| IbmField.SeedIsBitSerial | libdisk/stream/stream.c:158-163 | the register the reader starts from is the writer's bit-serial CRC of the first two marks |
| IbmField.MarkedData | libdisk/format/ibm.c:139-161 | the data bytes behind a mark decode to what was written |
| IbmField.QuietLegal | libdisk/format/ibm.c:113-137 | no doubled mark is seen in legal MFM up to and across the start of the next mark |
| IbmGap.QuietSplice | libdisk/disk.c:513-547 | the raw zeros at the write splice hide no mark |
| IbmGap.IamHidesNoMark | libdisk/format/ibm.c:435-443 | no window of the index mark is a mark |
| IbmGap.QuietIam | libdisk/format/ibm.c:435-443 | from legal MFM through the index mark to the first sector no mark is seen |
| IbmIam.NoIamInLegal | libdisk/format/ibm.c:219-226 | legal MFM, with the clock cells at either parity, does not show the word that begins an index mark |
| IbmIam.NoIamToMarks | libdisk/format/ibm.c:219-226 | from the marks of one field to those of the next no window shows it, those that straddle the marks included |
| IbmIam.NoIamAcrossSplice | libdisk/disk.c:513-547 | nor does any window over the splice, whose raw zeros are no legal MFM |
| IbmRoundTrip.SectorMet | libdisk/format/ibm.c:232-287 | from anywhere before a sector that shows no other mark, the decoder reads exactly its header, mark and data, with good CRCs and the right offset, and stops behind its data |
| IbmRoundTrip.DataMarkWithin | libdisk/format/ibm.c:266-270 | behind a trusted ID field a data mark counts if and only if it begins to show within a thousand cells; otherwise the sector is given up there |
| IbmRoundTrip.OnlyIdMarks | libdisk/format/ibm.c:163-170 | only an ID mark begins a sector; any other mark met first is passed over |
| IbmRoundTrip.FoundIsTriple | libdisk/format/ibm.c:113-137 | whatever the flux holds, what is taken for a mark are three 0x4489 in a row and the byte behind them |
| IbmRoundTrip.QuietBetween | libdisk/format/ibm.c:113-137 | between the data of a sector and the first mark of the next no mark is seen |
| IbmRoundTrip.SectorsFrom | libdisk/format/ibm.c:232-373 | the decoder meets all sectors of a track in order |
| IbmRing.FinalisedIsFinished | libdisk/disk.c:513-547 | what gap fill leaves is a finished ring of that track |
| IbmRing.SilentStart | libdisk/format/ibm.c:113-137 | from the first index pulse to the first sector no mark is seen, the register being full of cells from before the pulse |
| IbmRing.SilentTurn | libdisk/format/ibm.c:113-137 | nor is one between the last sector of a revolution and the first of the next, over gap and splice |
| IbmRing.RoundTrip | libdisk/format/ibm.c:209-480 | a finished track of sectors with size code at most 7 and data mark not the ID mark, read from a reset on for any number of revolutions, gives exactly its sectors in order with headers, marks and data, and an index mark is reported if and only if the track has one |
| IbmRing.NoIamInTurn | libdisk/format/ibm.c:435-443 | through a whole revolution of a finished track without an index mark no window shows its first word |
| IbmRing.IamAbsent | libdisk/format/ibm.c:219-226 | of such a track the scan for the index mark finds none, however many revolutions it reads |
| IbmRing.IamPresent | libdisk/format/ibm.c:219-226 | of a track with an index mark the scan finds it in the first whole revolution: nothing shows its first word before, and the second word follows |
| IbmLayout.EnoughSpace | libdisk/format/ibm.c:187-207 | from a known number of spare cells on, the gap is large enough, so stretching ends |
| IbmLayout.GapBudget | libdisk/format/ibm.c:187-199 | the gaps between the sectors use up what the gaps around the index and the index mark leave of the spare cells, to within what does not go round, for MFM and FM |
| IbmLayout.DefaultBitsAre | libdisk/include/private/disk.h:11 | the default length at 300 and at 360 revolutions a minute, for double and for high density |
| IbmLayout.ChoosePostDataGap | libdisk/format/ibm.c:187-207 | for MFM and FM tracks the gap is at least 10 and the number of 1000-cell extensions is the least that gives that |
| IbmLayout.LayoutFits | libdisk/format/ibm.c:425-480 | with a stored gap no larger than the computed one the encoder ends 120 byte times before the track does |
| IbmLayout.SetupIbmMfmTrack | libdisk/format/ibm.c:509-556 | the sectors set up are those of the image, too much data is refused exactly if the sectors alone exceed the default length, the track is stretched by the least number of steps, the gap is stored in eight bits, and the layout fits |
| IbmLayout.TrackReadRaw | libdisk/disk.c:179-200 | encoder and gap fill on a layout that fits leave a finished ring |
| Rx02.MatchIsRun | libdisk/format/ibm.c:1144-1155 | the substitution fires exactly at the end of a run of exactly four ones, although earlier substitutions have already rewritten cells of its window |
| Rx02.SubstitutedIs | libdisk/format/ibm.c:1144-1155 | every cell after the substitution, as a function of the runs of four ones |
| Rx02.TripleIsRun | libdisk/format/ibm.c:877-885 | three clear cells around a clock occur exactly inside a substituted run |
| Rx02.RestoredIs | libdisk/format/ibm.c:877-885 | every cell after the undo pass |
| Rx02.RestoredData | libdisk/format/ibm.c:877-885 | the undo pass brings all data bits back |
| Rx02.EncodeWords | libdisk/format/ibm.c:1133-1143 | the normal MFM encoding, one word a byte |
| Rx02.ApplyRule | libdisk/format/ibm.c:1144-1155 | the loop over words with a 32-bit window computes the substitution of the whole cell string, the last word staying as it was |
| Rx02.WriteField | libdisk/format/ibm.c:1123-1158 | the words written are the cells of data, CRC and lead-out |
| Rx02.RoundTrip | libdisk/format/ibm.c:864-1158 | for data of any length and its CRC, undoing the rule returns the data bits, and the CRC over both is zero |
| Rx02.FieldRunLength | libdisk/format/ibm.c:1123-1158 | the rewritten cells keep the run lengths of MFM: no two adjacent ones, at most three zeros between ones |
| Rx02.UndoRule | libdisk/format/ibm.c:877-885 | the byte loop with its sliding register computes the undo pass, including the bit it reaches back for |
| Rx02.ReadField | libdisk/format/ibm.c:864-888 | undo, in-place decoding and CRC of the field |
| Rx02.SectorRoundTrip | libdisk/format/ibm.c:864-1158 | the bytes of the written cells decode to data and CRC, residue zero |
| Pll.Decoder.FluxNextBit | libdisk/stream/stream.c:227-265 | the loop over flux intervals and the adjustments compute the bit and the new state |
| Pll.TimeConserved | libdisk/stream/stream.c:227-265 | latency and flux together grow by exactly the flux used up, whatever the parameters |
| Pll.RunConserves | libdisk/stream/stream.c:227-265 | the same over any number of bits |
| Pll.OneWindow | libdisk/stream/stream.c:227-265 | one window brings the next reversal one window closer; in its window it is seen and the phase is pulled in |
| Pll.SlackIsSmall | libdisk/stream/stream.c:227-265 | the accumulated phase error never reaches half a window |
| Pll.KeepsLock | libdisk/stream/stream.c:227-265 | with no period adjustment and 60% phase adjustment any sequence of intervals of one to four cells, each cell at most a sixteenth off, is read as it was meant, every reversal less than half a cell off the middle of its window, and lock is kept |
| PllTracking.ClockLimits | libdisk/stream/stream.c:253-255 | whatever the parameters and the reversal, the clock ends within a tenth of its centre |
| PllTracking.ClockFollows | libdisk/stream/stream.c:243-247 | after at most three zeros a late reversal never lowers the clock and an early one never raises it; within the limits it moves by that percentage of the phase error, rounded towards zero |
| PllTracking.ClockReturns | libdisk/stream/stream.c:248-251 | behind more than three zeros the clock moves back towards its centre, and not past it |
| PllTracking.WindowEdges | libdisk/stream/stream.c:231-241 | a cell is decided as soon as half a clock of flux is at hand, and is a one if and only if less than half a clock stays behind |
| PllTracking.CountTo | libdisk/stream/stream.c:227-264 | for any parameters: a reversal less than half a window off is seen in its own window, and phase and period are adjusted by how far it was off |
| PllTracking.BoundsKept | libdisk/stream/stream.c:243-261 | with 5% and 60%, the bounds on phase and period are kept from one interval of one to four cells to the next |
| PllTracking.StartsTracking | libdisk/stream/stream.c:115-131 | a locked state with its clock at the centre, as after a reset, is within those bounds for every cell length within a sixteenth |
| PllTracking.KeepsLockAdjusting | libdisk/stream/stream.c:227-264 | with the default adjustments any sequence of intervals of one to four cells of one length within a sixteenth of the centre, each interval off by up to a fortieth of what the centre has above 500ns, is read as it was meant, every reversal less than half a cell off |
| PllTracking.LosesLock | libdisk/stream/stream.c:227-264 | six intervals, each within a sixteenth but long ones before short ones, the last of which is read a cell short |
| Pll.SoftStream.SsNextFlux | libdisk/stream/soft.c:36-55 | the do/while loop returns the time to the next set cell around the ring |
| Pll.NextFluxExact | libdisk/stream/soft.c:36-55 | the source stops at the next set cell or at the first at which a millisecond has passed, and reports the time of all cells up to there, each by its own speed |
| Pll.RingReadsBack | libdisk/stream/soft.c:36-55 | a ring with runs of at most three zeros is read back from its second cell on, round and round, for any number of bits |
| EventQueue.EventBase.EventAlloc | m68k/amiga/event.c:41-51 | a new event, not queued |
| EventQueue.EventBase.RemoveFromList | m68k/amiga/event.c:20-28 | exactly that event leaves the queue |
| EventQueue.EventBase.FindLater | m68k/amiga/event.c:30-39 | the walk stops at the first event that is strictly later |
| EventQueue.EventBase.AddToList | m68k/amiga/event.c:30-39 | the event is queued behind all that are not later |
| EventQueue.EventBase.EventUnset | m68k/amiga/event.c:71-77 | unset as a function of the queue and the times |
| EventQueue.EventBase.EventSet | m68k/amiga/event.c:59-64 | set as a function of the queue and the times, for any time; list and times stay consistent if and only if it is not zero |
| EventQueue.EventBase.FireEvents | m68k/amiga/event.c:79-89 | with callbacks that schedule strictly later than now the firing loop ends and does what the firing function says, callbacks included |
| EventOrder.SetKeeps | m68k/amiga/event.c:59-64 | setting an event keeps list and times consistent if and only if the time is not zero |
| EventOrder.UnsetKeeps | m68k/amiga/event.c:71-77 | unsetting keeps them consistent and the event is no longer queued |
| EventOrder.QueueOrdered | m68k/amiga/event.c:20-77 | after any sequence of setting and unsetting the queue holds exactly the events with a time, once each, by time, first set first among equals |
| EventFire.FiresWhatIsDue | m68k/amiga/event.c:79-89 | the events due when firing starts fire in queue order, except those a callback has set or unset meanwhile, and none is due afterwards |
| EventFire.NothingDue | m68k/amiga/event.c:79-89 | nothing due means that no event has a time that has come |
| EventFire.WalkAll | m68k/amiga/event.c:79-89 | without interference every due event fires |
| EventFire.FiringIsHistory | m68k/amiga/event.c:79-89 | what a firing leaves is what unsetting each event that fires and then doing what its callback does would leave |
| EventFire.QueueOrderedAfterFiring | m68k/amiga/event.c:20-89 | after any sequence of set, unset and fire_events the queue holds exactly the events with a time, once each, by time, first set first among equals |
| Memory.Mem.MemReserve | m68k/amiga/mem.c:94-129 | the pointer walk and edits compute the reservation on the list of regions, or refuse where the assertions fail |
| Memory.Mem.MemAlloc | m68k/amiga/mem.c:131-156 | the same for allocation |
| Memory.Mem.MemFree | m68k/amiga/mem.c:158-192 | the same for freeing, and exactly the freed bytes are filled |
| FreeList.ReserveExact | m68k/amiga/mem.c:94-129 | a reservation succeeds if and only if the whole range is free, takes exactly that range and keeps the list ordered and coalesced |
| FreeList.AllocExact | m68k/amiga/mem.c:131-156 | the lowest run that is long enough is granted, refused exactly if there is none, and exactly the block is taken |
| FreeList.ReleaseExact | m68k/amiga/mem.c:158-192 | freeing keeps the list ordered and coalesced if and only if no byte of the range was free, and then gives back exactly the range |
| FreeList.Canonical | m68k/amiga/mem.c:94-192 | a coalesced list is determined by which addresses are free |
| HeapHistory.AllocThenFree | m68k/amiga/mem.c:131-192 | freeing what was just allocated restores the identical list |
| HeapHistory.ReserveThenFree | m68k/amiga/mem.c:94-192 | so does freeing what was just reserved |
| HeapHistory.RunPartitions | m68k/amiga/mem.c:94-216 | after any sequence of operations free and held bytes partition the memory and the list is ordered, inside it and coalesced |
| Drive.InitialHolds | m68k/amiga/disk.c:254-278 | the invariant holds at the start |
| Drive.CiaKeeps | m68k/amiga/disk.c:178-238 | every write to the port keeps it: motor spinning exactly if its delay is queued, step pending exactly if its event is, track number in 0..161 and odd exactly if the side bit is clear |
| Drive.FiredKeeps | m68k/amiga/disk.c:61-176 | so does every event that fires, also if the side has flipped while a step was in flight |
| Drive.Run | m68k/amiga/disk.c:61-278 | every state of every run satisfies the invariant |
| Drive.HeadSteps | m68k/amiga/disk.c:218-233 | a step with the direction bit clear ends a millisecond later two tracks further in, with it set two tracks further out, and at the end of the way nothing is begun |
| Drive.StepHolds | m68k/amiga/disk.c:218-233 | the step bit counts only where it rises while the drive is selected and the head at rest; otherwise nothing is begun and a step under way is not disturbed |
| Drive.MotorFollows | m68k/amiga/disk.c:193-216 | selecting the drive leaves it, once its motor event has fired, running and ready or stopped and not ready as the motor bit says, whatever it was doing |
| Drive.MotorTurns | m68k/amiga/disk.c:193-216 | what the selecting write does at once, for each state of the motor: it starts, stops, turns round without delay or is left alone with its old time |
| Drive.MotorHolds | m68k/amiga/disk.c:189-216 | the motor bit counts only when the drive becomes selected |
| Drive.FiredDoes | m68k/amiga/disk.c:150-174 | what each event brings about when it fires, and what it leaves alone |
| Drive.Df0.DiskCiaChanged | m68k/amiga/disk.c:178-238 | the field updates and event calls compute the port function |
| Drive.Df0.MotorCallback | m68k/amiga/disk.c:150-163 | the motor callback computes its function |
| Drive.Df0.StepCallback | m68k/amiga/disk.c:165-176 | the step callback computes its function |
| Drive.Df0.RecalcCiaInputs | m68k/amiga/disk.c:129-148 | the ready and track-zero lines as a function of drive state |
| Drive.Df0.FireNext | m68k/amiga/disk.c:61-176 | taking the head of the queue and running its callback computes the fired state |
| DiskDma.DataPath.TrackLoadByte | m68k/amiga/disk.c:30-40 | the byte under the head and the time it lasts, a weak cell taking a random byte |
| DiskDma.DataPath.DiskDmaWord | m68k/amiga/disk.c:42-59 | a word goes to memory, pointer and count move, the last one ends the transfer |
| DiskDma.DataPath.DataCb | m68k/amiga/disk.c:61-110 | the cell loop computes the run to now and asks to be called when the next cell is due |
| DiskDma.TimeSlicing | m68k/amiga/disk.c:61-110 | running to one moment and then to a later one reaches the same disk, register and memory state as running to the later one at once |
| DiskDma.OnlyTheLastCounts | m68k/amiga/disk.c:61-110 | the same for any number of calls at ascending times |
| DiskDma.AlwaysInStep | m68k/amiga/disk.c:61-110 | shift register and counter hold exactly the bits since the last word boundary |
| DiskDma.DmaExact | m68k/amiga/disk.c:42-110 | of a running transfer of n words exactly the first n sixteen-bit groups behind the sync, re-aligned at each later match, go to consecutive addresses; then, and not before, the block is reported done |
| DiskDma.ArmedCell | m68k/amiga/disk.c:61-110 | a cell starts an armed transfer if and only if it completes the sync word, and moves nothing |
| DiskDma.ArmedUntilSync | m68k/amiga/disk.c:61-110 | until the first sync word an armed transfer stays armed and nothing moves; with that word, and not before, it runs, beginning with the cell behind it |
| DiskDma.ArmedTransfer | m68k/amiga/disk.c:42-110 | from the first cell that completes it on, the transfer of n words runs as a running one does: the first n groups to consecutive addresses, then the block is done |
| DiskDma.ReadsTheRing | m68k/amiga/disk.c:30-110 | on a track without weak cells the bits entering are the cells of the ring in order |
| DiskDma.CellTimes | m68k/amiga/disk.c:30-78 | after k cells the clock stands at the sum of their times, each by the speed of the first cell of its byte |
| DiskDma.OnePulseATurn | m68k/amiga/disk.c:73-76 | every full turn of the ring gives one index pulse |
| DiskDma.CellByte | m68k/amiga/disk.c:80-92 | the flag for the sync word is up for exactly the cell that completes it, and the byte register changes with every eighth cell alone |
| DiskDma.ByteShown | m68k/amiga/disk.c:79-86 | half a word behind a boundary the byte register holds the eight bits since the boundary, and keeps them until the next |
| DiskDma.WeakDraws | m68k/amiga/disk.c:30-40 | a weak byte is drawn afresh where it begins, and no other draws |
| DiskDma.NoWords | m68k/amiga/disk.c:42-59 | a transfer of no words ends with the first one, which goes nowhere |
| DiskDma.ArmedTwice | m68k/amiga/disk.c:240-252 | from any state without a transfer and by any writes to the length register, a transfer is armed if and only if the last two values it held have their top bit set: two writes in a row, or one behind a transfer that has finished |
| DiskDma.CalledOff | m68k/amiga/disk.c:246-249 | a transfer that is armed or running is called off by a length with its top bit clear and by no other |
| DiskDma.BitStaysSet | m68k/amiga/disk.c:42-59 | a word moved, the last one included, leaves the top bit of the length as it was |
| Copylock.StepsInverse | libdisk/format/amiga/copylock.c:77-85 | the forward and the backward step undo each other |
| Copylock.ThereAndBack | libdisk/format/amiga/copylock.c:87-99 | so do any number of steps |
| Copylock.LfsrForward | libdisk/format/amiga/copylock.c:94-99 | the loop makes that many steps |
| Copylock.LfsrBackward | libdisk/format/amiga/copylock.c:87-92 | the loop makes that many steps back |
| Copylock.LfsrSeek | libdisk/format/amiga/copylock.c:107-128 | the loop over sectors reaches the register at the start of the other sector |
| Copylock.SeekPathIndependent | libdisk/format/amiga/copylock.c:107-128 | seeking by way of any third sector makes no difference, and seeking back returns the register, with either setting of the sector-6 skip |
| Copylock.SignatureInterrupts | libdisk/format/amiga/copylock.c:101-128 | with the skip, the data of any number of sectors, the sixteen bytes of the signature left out, is one run of register output from the seed |
| Copylock.SignatureReplaces | libdisk/format/amiga/copylock.c:101-128 | without it, the data is one run of register output with the signature in place of bytes 3072 to 3087 |
| Copylock.Recurrence | libdisk/format/amiga/copylock.c:77-92 | every byte put out is the exclusive or of those 23 steps and one step before it |
| Copylock.LfsrCheck | libdisk/format/amiga/copylock.c:130-139 | the check accepts exactly the output of the register |
| Copylock.WriteData | libdisk/format/amiga/copylock.c:366-381 | the data loop writes the signature of sector 6, the extended signature and the register output as they are laid down |
| Copylock.EmittedExact | libdisk/format/amiga/copylock.c:366-381 | what is written is the sector of the track if and only if it is not sector 6 with an extended signature; that one comes out eight bytes too long |
| Copylock.SamplesTellAll | libdisk/format/amiga/copylock.c:209-219 | the bytes sampled eight steps apart hold all 23 bits of the register |
| Copylock.SeedRecovered | libdisk/format/amiga/copylock.c:209-219 | from any sector of any track the seed it grew from is recovered |
| Copylock.SectorsDiffer | libdisk/format/amiga/copylock.c:209-219 | different seeds make different sectors |
| Copylock.AcceptedIsGenuine | libdisk/format/amiga/copylock.c:201-246 | whatever is accepted is a sector of the track of the seed then known |
| Copylock.OwnSectorAccepted | libdisk/format/amiga/copylock.c:201-246 | every sector of a track with a non-zero seed is accepted |
| Copylock.AcceptedIffGrown | libdisk/format/amiga/copylock.c:201-246 | with nothing known a sector is accepted if and only if it grew from some non-zero seed, or is sector 6 with an extended signature and the output of the known seed behind it |
| Copylock.ExtendedReadsBack | libdisk/format/amiga/copylock.c:222-236 | sector 6 as written with either extended signature is accepted and tells which one it was, unless it is what the sector holds without one |
| Copylock.OneSectorGivesTrack | libdisk/format/amiga/copylock.c:201-246 | any one good sector determines every other sector |
| Copylock.DecodeSector | libdisk/format/amiga/copylock.c:201-246 | the judgement on one sector |
| Copylock.CopylockDecode | libdisk/format/amiga/copylock.c:161-257 | the loop over the sectors met |
| Copylock.FirstStays | libdisk/format/amiga/copylock.c:186-187 | the first good reading of a sector stays, and only sectors 0 to 10 are kept |
| Copylock.AllFromOneSeed | libdisk/format/amiga/copylock.c:161-257 | all sectors accepted in one read belong to the one track whose seed is kept |
| IpfFormat.CountBack | libdisk/container/ipf.c:116-119 | the count reads back from its big-endian bytes |
| IpfFormat.ChunkBack | libdisk/container/ipf.c:116-119 | a chunk parses back to its code, count and payload bits |
| IpfFormat.BlockBack | libdisk/container/ipf.c:116-119 | a block parses to the chunks it was written from, whatever follows |
| IpfRuns.WritesRuns | libdisk/container/ipf.c:141-247 | after any calls the closed and open chunks are exactly the maximal runs emitted, and block sizes and open cells add up to the cells emitted |
| IpfRuns.BlocksExact | libdisk/container/ipf.c:141-247 | the blocks hold exactly the runs emitted if and only if directly behind the last cell or weak stretch comes a gap or the end; then their sizes add up too |
| IpfRuns.ClosedIffEnded | libdisk/container/ipf.c:141-247 | the same condition says when no chunk is left outside the blocks |
| IpfRuns.EndClosesBlock | libdisk/container/ipf.c:157-190 | the end of the track closes one more block if and only if the event before it emitted cells, and otherwise changes no block |
| IpfRuns.EmptyWeakLosesBlock | libdisk/container/ipf.c:157-190 | after an empty weak stretch the end closes no block: its chunks are written but belong to none |
| IpfRuns.WholeTrack | libdisk/container/ipf.c:141-247 | a track that ends in content and then gaps or the end: the blocks hold exactly its runs and their sizes add up |
| IpfBlocks.BlockHolds | libdisk/container/ipf.c:141-247 | a block is closed exactly by a gap or the end directly behind content, or with splitting by a sync run that begins directly behind content and is not the first such since the last gap; it holds the runs of the events since the block before, all their cells, and the gap doubled |
| IpfBlocks.BlocksSized | libdisk/container/ipf.c:198-247 | the size of every block is that of its chunks, a sync cell counting once and a data or weak bit twice |
| IpfBlocks.LeadingSyncStays | libdisk/container/ipf.c:141-180 | a sync run at the very start of a track is not counted, so that its block holds the next one too |
| IpfWriter.IpfTbuf.MoveUp | libdisk/container/ipf.c:163-170 | memmove of the payload to make room for the header |
| IpfWriter.IpfTbuf.FinishChunk | libdisk/container/ipf.c:141-196 | finishing a chunk in the buffer: header before the moved payload, block end, and everything before it untouched |
| IpfWriter.IpfTbuf.TbufBit | libdisk/container/ipf.c:198-217 | a cell pair or raw cell appended to the open chunk, another chunk opened if the kind changes |
| IpfWriter.IpfTbuf.TbufGap | libdisk/container/ipf.c:219-236 | a gap noted in the block it ends |
| IpfWriter.IpfTbuf.TbufWeak | libdisk/container/ipf.c:238-247 | a weak stretch opened |
| IpfWriter.IpfTbuf.EndTrack | libdisk/container/ipf.c:366-370 | the end of a track finishes its last chunk and block |
| IpfWriter.BlockReadsBack | libdisk/container/ipf.c:141-196 | each block, read from the data offset recorded for it, parses to exactly its chunks |
| IpfWriter.IpfTbuf.BufferReadsBack | libdisk/container/ipf.c:141-247 | the buffer after a whole track parses block by block to what its blocks hold, with offsets, sizes and gaps as recorded; those are all its runs if and only if directly behind the last content comes a gap or the end |
| M68kArith.AddMeans | m68k/m68k/m68k_emulate.c:547-569 | result and carry together are the exact sum of the low parts, whatever is in the high parts; N, Z and V mean sign, zero and signed overflow |
| M68kArith.SubMeans | m68k/m68k/m68k_emulate.c:511-545 | the same for subtraction and borrow |
| M68kArith.ExtendedMeans | m68k/m68k/m68k_emulate.c:1430-1464 | ADDX and SUBX: exact result and final X with initial X taken in, N the sign, Z kept exactly if it was set and the result is zero |
| M68kArith.OverflowExact | m68k/m68k/m68k_emulate.c:1454-1461 | V tells signed overflow exactly unless X is set and the first step overflows by one; there V is set although the result fits |
| M68kArith.OverflowWrong | m68k/m68k/m68k_emulate.c:1454-1461 | operands on which V is wrong |
| M68kArith.DecimalMeans | m68k/m68k/m68k_emulate.c:1303-1328 | ABCD and SBCD on decimal digits: exact decimal sum or difference, in decimal digits |
| M68kChain.ChainComputes | m68k/m68k/m68k_emulate.c:1303-1464 | a chain of any length of ADDX, SUBX, ABCD or SBCD computes the exact sum or difference of numbers of that many limbs, final X the carry or borrow, Z kept exactly if set and the whole result zero |
| M68kMemoryChain.RunIsChain | m68k/m68k/m68k_emulate.c:1435-1461 | the predecrementing form works limb by limb down the two regions and changes nothing outside the destination |
| M68kMemoryChain.MemoryArithmetic | m68k/m68k/m68k_emulate.c:1435-1464 | a chain in memory adds or subtracts the numbers in the two regions, also if they overlap so that no limb is overwritten before it is read |
| M68kMemoryChain.BigEndianArithmetic | m68k/m68k/m68k_emulate.c:1430-1464 | the same with the regions read as big-endian binary numbers |
| M68kCpu.Cpu.OpAdd | m68k/m68k/m68k_emulate.c:547-569 | the flag-by-flag code computes the addition and writes it back |
| M68kCpu.Cpu.OpSub | m68k/m68k/m68k_emulate.c:511-545 | the same for subtraction |
| M68kCpu.Cpu.OpCmp | m68k/m68k/m68k_emulate.c:533-536 | comparison sets the flags of a subtraction but not X |
| M68kCpu.Cpu.AddxSubx | m68k/m68k/m68k_emulate.c:1430-1464 | the instruction in its register and memory forms, address errors and unmapped memory included; nothing is stored unless it succeeds |
| M68kCpu.Cpu.AbcdSbcd | m68k/m68k/m68k_emulate.c:1281-1328 | the decimal instruction in both forms |
| M68kCpu.RegisterFormMeans | m68k/m68k/m68k_emulate.c:1430-1464 | Dy is added to Dx or taken from it with the extend flag, binary or decimal; nothing but the low part of Dx and the flags changes |
| M68kCpu.WriteBackIs | m68k/m68k/m68k_emulate.c:538-569 | a result goes to the low part of its register or to its bytes of memory, most significant first, and nothing else changes but the flags |
| M68kCpu.MemoryFormIsStep | m68k/m68k/m68k_emulate.c:1430-1464 | with two different address registers the memory form is one step of a chain |
| M68kCpu.Cpu.ChangeSr | m68k/m68k/m68k_emulate.c:243-252 | crossing between user and supervisor mode swaps the stack pointers |
| M68kCpu.Cpu.DeliverException | m68k/m68k/m68k_emulate.c:1682-1711 | delivery, with its short or extended frame, changes registers only if every access succeeds |
| M68kCpu.Cpu.ReturnFromException | m68k/m68k/m68k_emulate.c:603-612 | RTE, with its privilege check and its accesses |
| M68kException.DeliverShort | m68k/m68k/m68k_emulate.c:1682-1711 | delivery with a short frame succeeds if and only if the vector is readable and the supervisor stack even with room for six bytes; then everything but pc, sr, stack and frame is as before |
| M68kException.DeliverEnters | m68k/m68k/m68k_emulate.c:1691-1692 | a delivery that goes through, with either frame, leaves as program counter the four bytes of the vector, most significant first |
| M68kException.DeliverExtended | m68k/m68k/m68k_emulate.c:1694-1708 | delivery with an extended frame goes through if and only if the vector can be read and the stack is even with room for fourteen bytes, and leaves exactly status, address, opcode, status register and program counter there |
| M68kException.RteExact | m68k/m68k/m68k_emulate.c:604-615 | when RTE is refused, fails or goes through, and what it takes |
| M68kException.SrMasks | m68k/m68k/m68k_emulate.c:35-47 | the masks of the status bits, as numbers |
| M68kException.DeliverThenRte | m68k/m68k/m68k_emulate.c:1682-1711 | delivery from either mode, any handler that leaves its frame alone, RTE: pc, sr and both stack pointers are restored |
| M68kException.RestoredIffShort | m68k/m68k/m68k_emulate.c:1682-1711 | RTE straight after delivery restores the program if and only if the frame was short |
| M68kException.NestedTraps | m68k/m68k/m68k_emulate.c:1682-1711 | the same for any properly nested deliveries, whose frames are left intact, inside the handler; the stack above is untouched |
| ScpSamples.Emit | libdisk/container/scp.c:76-121 | the nested loops append the samples of the interval |
| ScpSamples.EmittedTime | libdisk/container/scp.c:76-121 | in either weak pattern or none the samples, zero counting 0x10000, add up to the interval, with one tick more exactly if it is a multiple of 0x10000 and no pattern applies; the last is never zero |
| ScpSamples.EmittedShape | libdisk/container/scp.c:76-127 | what an interval is written as, sample by sample: drifting pairs and a last sample, bursts and a last sample, or one sample behind a zero for every overflow |
| ScpTrack.NoDrift | libdisk/container/scp.c:185-201 | samples and remaining nanoseconds always add up to the time of the cells, extra ticks apart |
| ScpTrack.FluxTimes | libdisk/container/scp.c:185-201 | right after each flux the samples last as long as the cells, rounded down to ticks, plus the extra ticks |
| ScpTrack.SamplesIffFlux | libdisk/container/scp.c:184-201 | samples are written if and only if some cell that is not weak holds a flux; until then all time is owed |
| ScpTrack.WeakIffMet | libdisk/container/scp.c:184-194 | the interval in progress counts as weak if and only if a weak cell has been met since the last flux, or none has been written yet and the track before ended that way |
| ScpTrack.WeakCells | libdisk/container/scp.c:184-192 | exactly the cells with the weak speed are weak, and only the others show their bit as a flux |
| ScpTrack.RestMerged | libdisk/container/scp.c:203-214 | the rest of a track joins its first sample if and only if it is shorter than 100us and the sample has room |
| ScpTrack.TrackDuration | libdisk/container/scp.c:184-219 | the stored duration is the time of all cells in whole ticks plus the extra ticks if and only if the track has a flux outside weak cells, or lasts no whole tick, or its ticks cannot be merged into the sample that an earlier track left in the buffer |
| ScpTrack.TimeLostWithoutFlux | libdisk/container/scp.c:203-214 | a track without flux whose time is lost that way |
| ScpTrack.SampleTrack | libdisk/container/scp.c:179-219 | the per-track loop, the handling of the remainder and the duration sum |
| ScpTrack.CutInTheGap | libdisk/container/scp.c:177-180 | from the start of the data up to the write splice the cells lie side by side in the image, in the order of the ring; the image begins with the splice if that is not behind the start of the data, and with the index otherwise |
| ScpTrack.WholeRing | libdisk/container/scp.c:184-201 | wherever it is cut, the image lasts as long as the whole ring, each cell by its speed |

## Left out

- Files, devices, options, printing and logging: everything around the libraries.
- The CAPS library, KryoFlux, DiscFerret, diskread and SCP readers, the other Amiga formats, JV3, and the ADF, DSK, EADF, IMG, IMD and HFE containers.
- Instruction decode and the other m68k instructions, cycle counting, prefetch, the CIA timers, disassembly.
- Allocation failure, and wrap-around of 32-bit counters, addresses, times and sums; streams and tracks are shorter than 2^32 cells. Where the source cuts a value to a narrower field or register (post-data gap, ID CRC, DMA pointer, track number, register arithmetic, decimal digits) the cut is modelled.
- Random weak bits: a weak cell takes its value from a parameter.
- Below the cell stream (`Stream`) the flux is taken as cells with index pulses; decoding of flux to cells is modelled by itself in `Pll`. A ring is what lies between two index pulses: the soft stream places the pulse by time, so that it may fall a cell earlier or later than the end of the track buffer.
- StreamReader.Stream.Reset: the hundred cells on which the PLL locks first are not modelled, and the rolling CRC starts afresh where the source lets it run on; every reader starts it anew.
- AmigaDosReader.AdosWriteRaw: leaves out block latencies, the speeds derived from them, and the flag that long or short blocks set for the variable-rate type.
- AmigaDosTrack.RoundTrip: is for tracks longer than their eleven sectors; the subtraction of the data start is not cut to 32 bits.
- The FM parts of RX02 tracks (marks, ID fields, half-rate cells); only the modified-MFM data field is modelled, for any number of data bytes.
- The IBM long tracks, the FM-only formats, and the post-processing of a read IBM track (interleave and gap values guessed from offsets).
- Pll.KeepsLock: starts from a locked state and a clock of at least 2ns, with no period adjustment.
- PllTracking.KeepsLockAdjusting: starts from a locked state and a clock of at least 500ns, on cells of one length; lengths that change within a sixteenth can lose lock (`PllTracking.LosesLock`). How lock is first found is not modelled, nor is keeping it with other percentages.
- Pll.RingReadsBack: cells are shorter than 333 microseconds, so that the intervals stay below the limit at which `soft.c` reports one without flux.
- Copylock.CopylockDecode: takes the sectors that the scan for their sync words meets as a list.
- CopyLock track-length checks and the warnings about sector latencies.
- Copylock.WriteData: follows the source, which does not count the extended signature, so that a sector with one is written eight bytes too long (`Copylock.EmittedExact`).
- Several blocks of emulated memory: `find_memory` is modelled for one block, and the processor's memory is one block from address zero, short of the whole address space.
- EventQueue.EventBase.FireEvents: a callback is given by the list of set and unset operations it performs at each firing. Any run determines such lists, but how a callback arrives at its own is not modelled here (for the drive it is, in `Drive`).
- ns_to_index; clearing the flag of the byte register when the processor reads it.
- IpfRuns.EmptyWeakLosesBlock: no format handler emits an empty weak stretch (they emit 1 to 4096 cells), so its input is one that only the interface admits.
- IPF: the CAPS encoder, variable density, headers and CRC records of the file. The buffer is assumed large enough, as the source does, and a count below 2^32.
- SCP: file headers and checksums, and byte order of the stored samples.
- M68kException.NestedTraps: a handler may do anything to memory below its stack pointer and to its registers, but must end in supervisor mode with its stack pointer back and the user stack pointer unchanged; extended frames inside it are excluded, since RTE does not undo them.
