# Floppy controller data path: a verified model

This project models, in Dafny, the data path of a floppy-disk testbed that does a controller's job in software, and
proves what its stages promise, one by one and composed.

Bytes are expanded in place to MFM or FM cells, sync words are patched over them, and the cells become timer reload
values in a 1024-entry ring that a DMA engine drains while it is being filled. On the way back the engine fills a ring
with captures of a 16-bit timer; a hunt rounds the intervals to cells until it sees a sync pattern, a decoder takes over
from there into a buffer, and the buffer is contracted in place, checked and compared. Around that path stand a timer
list served by a one-shot alarm, a 32-bit clock kept over a 24-bit counter, and a handful of library routines.

Bits that pass under the head are sequences of booleans, most significant first; memory is an array of 8-bit vectors;
shift registers and Amiga longs are 32 booleans. Ring positions, fields and buffers that the source updates in place are
fields and arrays here, and each method is proved against a function of its inputs. The DMA engine is a method that may
run between any two accesses; the alarm, interrupts and callbacks are events of a state machine, whose steps use the same
list functions and alarm periods that the methods on the linked list are proved against.

Where the code does something a reader might not expect, the model follows the code:

- The hunt and the decoder round differently. The closed form of the hunt is one cell larger when the interval less half
  a cell is a positive multiple of the cell, so the hunt tolerates a little less speed error than the decoder:
  `Flux.SpeedTolerance` gives the exact condition, `Flux.HalfCellExcess` a case.
- `mfm_check` loads the word before its buffer without swapping bytes, so its first comparison looks at another bit than
  the later ones do. `Mfm.CheckAfterEncode` says exactly when that shows; it never does for the tracks and sectors built.
- `bin_to_mfm` reads the byte before its buffer, which is a parameter here. The byte that pads an odd track is whatever
  the buffer held.
- The first poll of the drain loop has no earlier poll to compare with (`Writer.FirstPollExact`).
- `strtol` in base 0 cannot reach its hexadecimal case; `Strtol.HexReadRight` says which numbers that gets wrong.
- The prefix of a number goes before its padding, so that spaces asked for come between the two and the number is read
  back as zero (`Strtol.UnsignedIsReadBack`).
- A sector numbered 0xff looks like a free slot to the interleave placer. `Interleave.ReuseIsExact` says exactly when a
  later sector takes its slot, `Interleave.ReusedSlot` gives a case.
- A read of an odd number of words, or of no more words than its sync mark fills, misses the end of its buffer and can
  run on (`Reader.OverrunsExactly`); nothing in the source makes one.
- Sector writes begun a few cells apart can leave a sync mark of their own in the gap before the data, and the next read
  stops there (`IbmRewrite.EightWritesFail`); it takes eight of them (`Seams.EightStarts`), and
  `IbmRewrite.TrackHoldsExactly` says exactly when any do.
- The Amiga reader copies a sector before it minds the number it found, so an image with numbers out of range is copied
  outside the buffer (`AmigaRead.InsideExactly`, `AmigaRead.OnesLandOutside`).
- Interleaves near 2^32 wrap on their way round the track (`Interleave.WrapBreaksRounds`, `Interleave.WrapBreaksSteps`).
- A timer can be put off by others set before it (`TimerRun.LateWithoutWaiting`).
- The clock is right for exactly 2^24 ticks after its stamp (`SystemClock.ExactWhen`).
- A read that begins inside a sync mark can miss its first pair. A search copes, given sixteen cells more slack
  (`IbmSearch.SearchAnywhere`).

| file | what it holds |
|---|---|
| arithmetic | word sizes, powers, greatest common divisors and remainders |
| bits, tables, mfm, fm, marks, stream | bytes and cells, the codecs, sync words, and where sync patterns can occur |
| crc, crc_theory | the table-driven checksum, and long division over GF(2) |
| flux, ring, writer, reader | ticks and gaps, the ring, the two paths through it |
| hunt, end_to_end | what a hunt and a read recover of a stream written at another speed |
| ibm_layout, ibm, ibm_reads, ibm_search, ibm_flux | the IBM MFM format: building, scanning, searching, reading |
| splice, seams, ibm_rewrite | streams put together from pieces, what shows at the seams, and tracks whose sectors have been written again |
| fm_sector, fm_flux | FM data fields, in memory and as flux |
| longs, amiga_format, amiga_decode, amiga, amiga_read, amiga_hunt, amiga_flux | the Amiga format |
| timer_spec, timer, timer_run, timer_system, clock | the timer list in memory, the timer system as a state machine, the one refining the other, the clock |
| qsort, memory, interleave, strings, strtol | the quicksort, memory copying, sector interleave, formatted output, number parsing |

`dafny verify dfyconfig.toml` checks everything.

## Model

| member | source | states |
|---|---|---|
| `Mfm.TableIsExpand` | src/mfm.c:12-45 | All 256 table entries are the words the MFM clock rule gives when the preceding bit is zero. |
| `Mfm.EncodeIsMfm` | src/mfm.c:73-83 | For every byte string and every preceding byte, the encoder output is MFM modulation cell by cell: data bits in the odd cells, a clock exactly between two zero bits. |
| `Mfm.DecodeIsDataCells` | src/mfm.c:47-71 | Decoding keeps the odd cells of any word stream, lawful or not. |
| `Mfm.DecodeEncode` | src/mfm.c:65-83 | Decoding undoes encoding for every byte string and preceding byte. |
| `Mfm.BinToMfm` | src/mfm.c:73-83 | The backward, overlapping, in-place expansion leaves exactly the encoding of the bytes that were there, with the byte before the buffer supplying the first clock, and touches nothing else. |
| `Mfm.MfmToBin` | src/mfm.c:65-71 | The forward, overlapping, in-place contraction leaves exactly the decoding of the words that were there, and touches nothing else. |
| `Mfm.MfmCheck` | src/mfm.c:85-103 | The checker reports word i exactly when it breaks the check; its first comparison uses the byte two before the buffer, because that word is loaded without byte swapping. |
| `Mfm.ChecksIsClockRule` | src/mfm.c:91-93 | A word passes the check if and only if its eight clock cells obey the clock rule, given the data cell before it. |
| `Mfm.CheckAfterEncode` | src/mfm.c:85-93 | After encoding, a check from the second word on never complains but at its first word, and there if and only if the second byte starts with a zero bit and bits 3 and 7 of the first byte differ. |
| `Fm.FmEncodeIsFm` | src/fm.c:19-29 | For every byte string the FM encoder sets every clock cell and puts the data in the odd cells. |
| `Fm.FmDecodeEncode` | src/fm.c:19-29 | The decoder, which FM shares with MFM, undoes FM encoding. |
| `Fm.BinToFm` | src/fm.c:19-29 | The in-place FM expansion leaves exactly the FM encoding of the bytes that were there, and touches nothing else. |
| `Fm.FmSyncCells` | src/fm.c:12-17 | A sync word carries the chosen clock byte in its even cells and the chosen data byte in its odd ones. |
| `Fm.FmPlainNeverMatches` | src/floppy_generic.c:62-68 | The FM hunt pattern matches no 32-cell window of plain FM data, in either phase. |
| `Fm.FmSyncExactly` | src/floppy_generic.c:62-68 | In FM data with sync words, the pattern is in a window if and only if the window ends a cell short of a marked word, the word before is unmarked, and the nine data cells compared before the mark are empty. |
| `Crc.TableEntry` | src/crc.c:12-45 | Every table entry is what eight bit-serial steps make of its index. |
| `Crc.Crc16Ccitt` | src/crc.c:47-54 | The table loop computes the bit-serial register for every message, seed and position. |
| `CrcTheory.DivisionIdentity` | src/crc.c:12-54 | The reference division is one: dividend = quotient * (x^16 + x^12 + x^5 + 1) + remainder, degree of the remainder below 16. |
| `CrcTheory.CrcIsRemainder` | src/crc.c:47-54 | For every seed and message the register ends holding the remainder of the seeded message polynomial under the generator of section 2 of ITU-T V.41. |
| `CrcTheory.Residue` | src/ibm.c:152-154 | A message followed by its checksum, high byte first, has checksum zero, for every seed. |
| `CrcTheory.BurstDetected` | src/crc.c:47-54 | Any nonzero error confined to sixteen consecutive bits changes the checksum, however long the message. |
| `CrcTheory.TwoBytesDetected` | src/crc.c:47-54 | Any change confined to two adjacent bytes changes the checksum, however long the message. |
| `Stream.RunLengths` | src/mfm.c:73-83 | In cells that obey the clock rule except at sync words, no two reversals are adjacent and at most three empty cells separate two. |
| `Stream.WordUnambiguous` | src/ibm.c:263-271 | The single word 0x4489 occurs at no bit offset of such a stream but at a marked word, or seven cells into one. |
| `Stream.SyncUnambiguous` | src/floppy_generic.c:69-74 | The detector pattern 0x44894489 occurs at cell o if and only if o is the start of a marked word that another marked word follows. |
| `Marks.MarkedIsLawful` | src/ibm.c:263-271 | Patching 0x4489 over any choice of encoded 0xa1 bytes leaves a stream that obeys the clock rule everywhere else. |
| `Marks.DecodeMarked` | src/ibm.c:263-271 | The patches do not change what decoding returns. |
| `Flux.UnrollGaps` | src/floppy_generic.c:222-238 | The reversal distances of any cell stream determine its cells up to the last reversal. |
| `Flux.SamplesExact` | src/floppy_generic.c:229-233 | When each gap fits sixteen bits, every reload value is its gap in ticks less one. |
| `Flux.TimeConserved` | src/floppy_generic.c:213-247 | Sixteen times the emitted intervals plus the ticks left over equals sixteen times the ticks of all cells consumed. |
| `Flux.CellCountWindow` | src/floppy_generic.c:119-128 | The subtract loop yields n for exactly the intervals above (n - 1) * cell + cell / 2, up to and including n * cell + cell / 2. |
| `Flux.ClosedCountWindow` | src/floppy_generic.c:58 | The closed form yields n for exactly the intervals from (n - 1) * cell + cell / 2 to just below n * cell + cell / 2. |
| `Flux.RoundingsAgree` | src/floppy_generic.c:58-128 | For every interval the two roundings agree, except that the closed form is one larger exactly when the interval less half a cell is a positive multiple of the cell. |
| `Flux.JitterTolerance` | src/floppy_generic.c:58-128 | n * cell + d with 2 * abs(d) < cell is n to the loop, and to the closed form if and only if d is not the rounded-down half cell. |
| `Flux.HalfCellExcess` | src/floppy_generic.c:58 | A concrete case where the hunt miscounts within half a cell: forty ticks at nine ticks a cell. |
| `Flux.SpeedTolerance` | src/floppy_generic.c:58-128 | Gaps of two, three and four cells written at w ticks are all read exactly by both roundings at c ticks if and only if 4 * (w - c) < c / 2 and 4 * (c - w) < c - c / 2. |
| `Flux.EighthIsTolerant` | src/floppy_generic.c:58 | A speed error below an eighth of a cell is tolerated if and only if 8 * (w - c) is not c - 1: an odd cell written as slow as that bound allows is the one case the hunt cannot take. |
| `Writer.SamplesPrefix` | src/floppy_generic.c:210-247 | Converting more cells only appends samples, so any split of the work over calls gives the samples of one call. |
| `Writer.FreeSlots` | src/floppy_generic.c:254-260 | The free count computed from the two wrapped indices is one less than the true room left. |
| `Writer.FluxWriter.DmaRun` | src/floppy_generic.c:285-294 | The DMA engine takes samples in order from the ring and keeps the ring invariant. |
| `Writer.FluxWriter.ConvertWord` | src/floppy_generic.c:224-237 | One word, from any cell on, is converted to samples in place while the DMA engine runs between stores; the ring never holds more than 1023 unread samples. |
| `Writer.FluxWriter.BcToFlux` | src/floppy_generic.c:210-247 | A call converts cells until its space is full or the cells end, and leaves samples, cells consumed and ticks left over in step. |
| `Writer.FluxWriter.Refill` | src/floppy_generic.c:249-269 | With a stale DMA position and the engine running meanwhile, a refill overwrites no unread slot; how many samples it adds is exact: the contiguous stretch, or at most max(32, fill + 1) when latency matters, or what is left; so is whether the cells have ended. |
| `Writer.FluxWriter.constructor` | src/floppy_generic.c:271-295 | Before the engine is enabled the first refill has left 1023 samples in the ring, or 32 when latency matters, or fewer only because the cells ended; the engine has taken none. |
| `Writer.DrainExact` | src/floppy_generic.c:341-345 | If the engine moves fewer than 1024 entries between polls, a poll after the first stops if and only if every sample has been taken. |
| `Writer.FirstPollExact` | src/floppy_generic.c:336-345 | The first poll stops if and only if the last sample has just been taken. |
| `Writer.FluxWriter.Drain` | src/floppy_generic.c:335-345 | The first poll that sees the index count at its stop, or finds the ring drained, ends the loop, and no other does; drained means every sample was emitted. |
| `Writer.FluxWriter.Write` | src/floppy_generic.c:308-345 | Over any interleaving, the engine emits exactly the samples of the cells, in order, up to where it has got; how many are made by each refill is exact. The write stops if and only if a poll sees the stop count, at the first that does; it is still polling only when every refill and poll offered was made; a completed write has emitted all. |
| `Writer.StopsAtItsPulse` | src/floppy_generic.c:312-340 | A write asked to stop at an index pulse stops at that pulse, one not asked to never does, for any count the pulses are counted from, short of 2^32 - 1 pulses. |
| `Writer.StopIsReached` | src/floppy_generic.c:312-340 | The polled count equals the stop count exactly at those pulses, across any wrap of 32 bits. |
| `Reader.FluxReader.HuntLoop` | src/floppy_generic.c:43-76 | The hunt over captures that arrive meanwhile stops at the first reversal whose 32-cell window is the sync pattern, and nowhere earlier. |
| `Reader.FluxReader.WaitSync` | src/floppy_generic.c:30-94 | One poll of the hunt: it finds the mark or saves its progress, cells counted included; found, it reckons when the mark began and seeds the buffer with 31 valid bits for FM, 32 for MFM; no byte outside the buffer changes. |
| `Reader.FluxReader.PushInterval` | src/floppy_generic.c:119-133 | The subtract loop of one interval, from whatever count of bits and with the real test for the end: the window, the words stored and whether it ended are those of pushing its bits one by one. |
| `Reader.FluxReader.DecodeInterval` | src/floppy_generic.c:119-133 | An interval adds its cells to the window and the buffer, cut off exactly when the buffer is full; no byte outside the buffer changes. |
| `Reader.FluxReader.DecodeLoop` | src/floppy_generic.c:110-134 | The decoder adds the cells of every capture it consumes, whether it ends or runs out; the complete words in memory and the window together are the decoded bits, and no byte outside the buffer changes. |
| `Reader.FluxReader.FluxToBc` | src/floppy_generic.c:96-142 | One poll of the decoder: true exactly when the captures consumed make nr_words * 16 bits, and then memory holds exactly them; every write stays within the nr_words / 2 longs of the buffer. |
| `Reader.HuntCompose` | src/floppy_generic.c:78-93 | A fruitless hunt followed by another over later captures is one hunt over all of them. |
| `Reader.DecodeCompose` | src/floppy_generic.c:136-141 | An unfinished decoding run followed by another is one run over all the captures. |
| `Reader.FluxReader.Read` | src/floppy_generic.c:173-195 | Whenever the captures come, the read completes if and only if those it has taken contain a sync mark and enough cells from there on, and then memory holds those cells; until then it takes captures as they come, so it is done once those heard by the last poll but one suffice; its start is reckoned from the poll that found the mark; no byte outside the buffer changes. |
| `Reader.AllHeard` | src/floppy_generic.c:43-52 | While fewer than 1024 captures come in two polls, every poll hears all that have come when it begins. |
| `Reader.MarkTimeIs` | src/floppy_generic.c:84-88 | As long as the sums fit, the mark is reckoned to have begun its share of the time of all cells before it was found, to within three ticks, and exactly when cells take whole ticks. |
| `Reader.ReadExtend` | src/floppy_generic.c:186-192 | What a read has made of the captures it consumed it would make of any longer capture stream. |
| `Reader.OverrunsExactly` | src/floppy_generic.c:84-133 | Whatever cells arrive, with any sync mode and any number of words, the decoder stores within its buffer if and only if that number is even and the sync mark does not fill the buffer by itself: otherwise it misses the end, and some cells make it run on. |
| `Hunt.StopsAtFirstSync` | src/floppy_generic.c:69-76 | Hunting a lawful stream from any reversal stops exactly at the first sync pattern from there on, or at one that began one cell earlier. |
| `EndToEnd.SpeedSkewIsFaithful` | src/floppy_generic.c:96-247 | A lawful stream written at w and captured at c ticks a cell has every interval after the first rounded to its own gap, both ways, for every tolerant w and c. |
| `EndToEnd.JitterIsFaithful` | src/floppy_generic.c:58-128 | So does any jitter of less than half a cell per interval, but for the one excluded excess. |
| `EndToEnd.ReadDeliversStream` | src/floppy_generic.c:30-142 | A completed read of a faithful capture, started anywhere, delivers the stream itself from the first sync pattern on. |
| `EndToEnd.ReadCompletes` | src/floppy_generic.c:186-192 | Once a whole sync pattern and enough cells after it have been heard, the condition under which a read is done holds. |
| `EndToEnd.BytesSurvive` | src/floppy_generic.c:96-247 | Bytes encoded, marked, written at one speed and read at another from an arbitrary start come back as the bytes from the first pair of marks on that lies wholly in the cells heard, or began one cell before them. |
| `EndToEnd.PlainBytesSurvive` | src/floppy_generic.c:96-247 | Without sync, bytes written at w and read at c ticks a cell with 8 * abs(w - c) < c come back cell for cell and byte for byte. |
| `Ibm.TrackBytes` | src/ibm.c:192-209 | The length computed before the buffer is allocated is the length of the track that is then built, padding included. |
| `IbmLayout.SizeDoubles` | src/ibm.c:200 | A sector of size code 0 has 128 bytes, and each code twice as many as the one before, for all 256 codes. |
| `IbmLayout.SizeIsShift` | src/ibm.c:92 | For the codes 0 to 7 that is the 32-bit shift of the source. |
| `IbmLayout.SectorLayout` | src/ibm.c:219-255 | What every byte of a formatted sector is: gaps, marks, address, fill, and checksums that come out. |
| `IbmLayout.TrackLayout` | src/ibm.c:214-260 | A track is 64 gap bytes, its sectors one after the other, and 64 gap bytes. |
| `Ibm.PutTrack` | src/ibm.c:215-261 | The cursor lays out exactly the gaps, address fields, data fields and checksums of the track, and records the offsets of all its sync marks. |
| `Ibm.WriteTrack` | src/ibm.c:182-271 | The buffer ends up holding the encoded and marked track for any addresses, gap and memory content, padded to even length by whatever byte was there, and no other byte changes. |
| `Ibm.TrackPassesCheck` | src/ibm.c:263-265 | The clock check made before the sync words are fixed never complains, whatever the track. |
| `IbmLayout.DamRejected` | src/ibm.c:44-46 | No data field, whatever it holds, passes for an address field. |
| `IbmLayout.DamAccepted` | src/ibm.c:104-111 | Every data field passes the mark and checksum tests made when it has been read, and gives its data back. |
| `IbmLayout.DamagedIdam` | src/ibm.c:44-46 | An address field with any change to one byte or two neighbouring ones is not taken for one. |
| `IbmLayout.DamagedDam` | src/ibm.c:108 | A data field with any such change has a checksum that does not come out. |
| `IbmLayout.ScanFindsTrack` | src/ibm.c:21-68 | For every list of addresses, gap, padding byte and read latencies within the gaps, a scan of the track reports exactly those addresses in order. |
| `IbmReads.MfmScan` | src/ibm.c:38-68 | The scan loop over the memory its reads fill: it counts exactly the reads of the revolution that delivered an address, and records the first max of them in order, each with the ticks that lead from the index to its start in 32-bit time; the gap it gives is the one whose sector is as long as the first two are apart, to within half a byte, or 84; it touches nothing outside its buffer. |
| `IbmReads.GapRecovered` | src/ibm.c:54-62 | That gap is the gap of the format if and only if the two marks were heard as far apart as the sector is long, to within half a byte. |
| `IbmReads.MfmSearch` | src/ibm.c:70-88 | The search loop over the memory its reads fill stops at the first read that delivers the address, warns exactly when a read was begun after a second index pulse, and touches nothing outside its buffer. |
| `IbmSearch.SearchIsExact` | src/ibm.c:70-88 | A search over one revolution of a formatted track succeeds if and only if the address is on it. |
| `IbmSearch.SearchAnywhere` | src/ibm.c:70-88 | A search started anywhere, even between the two pairs of a mark, finds what it would have found from one of the sectors ahead on; it misses only sectors whose address mark lay behind it. |
| `IbmSearch.SearchEnds` | src/ibm.c:70-111 | A search started anywhere in one revolution ends within the next if and only if the address is on the track, and the read that follows delivers the data field of that sector. |
| `IbmSearch.FormattedSectorReads` | src/ibm.c:90-111 | After a successful search, the next read delivers the data field of that very sector: mark, fill bytes and checksum. |
| `Ibm.BuildSector` | src/ibm.c:125-164 | The buffer ends up holding the encoded and marked data field, even in length, with no clock complaint, and no other byte changes. |
| `Ibm.SectorWriteLayout` | src/ibm.c:143-160 | What every byte of that field is, and that its length is even. |
| `Ibm.FinishRead` | src/ibm.c:92-110 | The finished read of a sector of any size code reports the clock verdict of each word, whether the mark is right, and the checksum, and returns the decoded data; no other byte changes. |
| `Ibm.FieldReadsBack` | src/ibm.c:104-164 | A data field as it is written is read back with no clock complaint, the right mark, residue zero, and the bytes that were written. |
| `Splice.NoneAcross` | src/ibm.c:166-179 | Where the cells of one write meet those of another, in any phase, no sync pattern straddles the seam, if the marks on either side keep a word away from it. |
| `Seams.EightStarts` | src/ibm.c:166-179 | Writes of one sector begun over one another in the gap before its data mark can spell a false sync mark only if eight of them, each with a byte before its buffer that ends in a one, start visibly within twenty-nine cells. |
| `Seams.NoneInGap` | src/ibm.c:166-179 | Before the data mark of the last write a false mark is on the track exactly where the starts of the writes spell one, whatever their data. |
| `Seams.StopsKeepEnds` | src/ibm.c:166-179 | Where the writes stop no false mark shows, if no two stops that show are less than 31 cells apart, or no three when every write ends in a gap byte. |
| `IbmRewrite.TimelyWriteFits` | src/ibm.c:122-179 | A sector write begun within 192 cells of the end of gap 2, with a last gap two bytes shorter than the format gave, starts before the old data mark and stops before the next address. |
| `IbmRewrite.WriteKeepsRegions` | src/ibm.c:113-180 | Writing one sector of a track, from any cell within its gap, adds to what that sector shows and changes the cells of no other, whatever had been written before. |
| `IbmRewrite.TrackHoldsExactly` | src/ibm.c:113-180 | After any run of sector writes, any number of each sector and from any cells within its gap, the track holds exactly its sectors, each with what was last written to it, if and only if for no sector the seams of its writes spell a false mark. |
| `IbmRewrite.SeldomIsClear` | src/ibm.c:113-180 | They spell none when fewer than eight writes of each sector had a byte before the buffer that ends in a one, and the stops that show keep apart. |
| `IbmRewrite.TwiceIsSeldom` | src/ibm.c:113-180 | Which holds of every sector written no more than twice with some gap behind it, from whatever two cells. |
| `IbmRewrite.TrackAfterWrites` | src/ibm.c:70-180 | After any such run that spells no false mark, a scan still reports every address in order, every sector is still found, and the read that follows delivers what was last written to it, or what the format put there. |
| `IbmRewrite.NextMarkExactly` | src/ibm.c:90-180 | After any run of writes at all, the next mark behind the address of a written sector is the data mark of its last write if and only if the starts of its writes spell no other. |
| `IbmRewrite.EightWritesFail` | src/ibm.c:90-180 | A case where it is not: eight timely writes of one sector, each with the byte 0x01 before its buffer and begun a few cells after the one before, leave a false mark that the read stops at. |
| `IbmFlux.ScanAcrossSpeeds` | src/ibm.c:21-52 | At flux level: reads of a track formatted at one speed and scanned at another record the formatted addresses in order, all of them once no mark is left ahead. |
| `IbmFlux.SectorAcrossSpeeds` | src/ibm.c:90-164 | At flux level: a data field written at one speed and read at another fills memory with the words that were written. |
| `IbmFlux.SectorFoundAcrossSpeeds` | src/ibm.c:70-111 | At flux level: a search from the index of a track formatted at another speed that finds an address has found it on the track, and the read that follows fills memory with the words of that sector. |
| `IbmFlux.SectorFoundAnywhere` | src/ibm.c:70-111 | At flux level, over two revolutions: so does a search started anywhere on the first, even inside a sync mark. |
| `IbmFlux.SectorMissedAnywhere` | src/ibm.c:70-88 | And an address that no read of such a search has found by the end of two revolutions is not on the track. |
| `FmSector.BuildFmSector` | src/ibm.c:381-416 | The buffer ends up holding the FM data field with its one sync word, and no other byte changes. |
| `FmSector.FmFieldReadsBack` | src/ibm.c:357-416 | The FM hunt over a written field stops at its mark and nowhere else, and the words from there decode to the mark, the data and a checksum of residue zero. |
| `FmSector.FmSectorLayout` | src/ibm.c:391-408 | What every byte of that field is, and that its length is even. |
| `FmSector.FinishFmRead` | src/ibm.c:350-367 | The finished FM read reports the clock verdict of each word, whether the mark is right, and the checksum, and returns the decoded data; no other byte changes. |
| `FmSector.FmFieldIsGood` | src/ibm.c:350-408 | Of a field as it was written it finds the mark right, the checksum zero, and the bytes that were written. |
| `FmFlux.FmReadDelivers` | src/floppy_generic.c:30-142 | A completed FM read of a faithful capture, started anywhere, delivers the cells of the stream from the word before the first of its marks whose pattern begins in the cells heard. |
| `FmFlux.FmReadCompletes` | src/floppy_generic.c:186-192 | Once a whole pattern and enough cells after it have been heard, the condition under which a read is done holds. |
| `FmFlux.FmSectorAcrossSpeeds` | src/ibm.c:340-416 | At flux level: an FM data field written at one speed and read at another from any start fills memory with its words from the last gap byte on, which decode to the field. |
| `Amiga.TrackWriter.EmitLong` | src/amiga.c:137-141 | A long goes out with its data bits and the clocks they call for, the first clock cleared when the long before ended in a one. |
| `Amiga.TrackWriter.WriteTrack` | src/amiga.c:114-183 | The buffer ends up holding exactly the items of the track: gaps, sync longs, headers, checksums, and even and odd halves of every sector. |
| `AmigaFormat.SectorsFit` | src/amiga.c:116-129 | A track has the whole longs that 110000 cells hold, or twice as many; eleven sectors fit the one, twenty-two the other. |
| `AmigaFormat.TrackIsLawful` | src/amiga.c:132-141 | The emitted cells obey the MFM clock rule everywhere except inside the sync longs. |
| `AmigaFormat.LongSurvives` | src/amiga.c:34-41 | A long sent as even and odd halves is what get_long returns, byte swapping included. |
| `AmigaRead.ReadTrack` | src/amiga.c:71-111 | For every image, the in-place sector loop copies each sector to where its own info long says, in order, and reports success if and only if every sync, info, header and data test passes. |
| `AmigaDecode.InfoExactly` | src/amiga.c:82-90 | The info long passes its tests if and only if it is that of some sector of this track, as far from the gap as it was found. |
| `AmigaDecode.HeaderCatches` | src/amiga.c:92-94 | A good header, or its checksum, with one long changed is still good if and only if no data bit was changed. |
| `AmigaDecode.DataCatches` | src/amiga.c:96-98 | So is the data of a sector, or its checksum. |
| `AmigaRead.InsideExactly` | src/amiga.c:97-108 | The copies stay within the buffer of nsec sectors, whatever memory held, if and only if every sector number found is below nsec. |
| `AmigaRead.OnesLandOutside` | src/amiga.c:97-108 | An image whose sector numbers are all 255: no sector passes its tests, and the copies land outside the buffer all the same. |
| `AmigaRead.TrackComesBack` | src/amiga.c:71-183 | For 11 or 22 sectors and every buffer, the track as written passes every test and decodes to the buffer, whatever the destination held before. |
| `AmigaHunt.WrittenCells` | src/amiga.c:132-141 | What the emitter leaves in memory, byte-swapped, is the stream of cells that passes under the head. |
| `AmigaHunt.TrackPassesClockCheck` | src/amiga.c:71-76 | Once the sync longs are replaced, the track as written passes the clock check at every word. |
| `AmigaHunt.DiskSync` | src/amiga.c:153-154 | Over several revolutions the detector pattern occurs exactly at the sync longs. |
| `AmigaHunt.HuntFindsTrack` | src/amiga.c:57-69 | From any point of a revolution and any latencies within the slack of a sector, the search for the last sector ends, and the read that follows delivers the track from its first sector. |
| `AmigaFlux.TrackAcrossSpeeds` | src/amiga.c:57-69 | At flux level: a track written at one speed is delivered whole at another, whatever reads the search made. |
| `TimerSpec.TimeDiffExact` | inc/time.h:22 | The signed 32-bit difference of two wrapped times is their true difference whenever that is within 2^31. |
| `TimerSpec.AlarmNeverOvershoots` | src/timer.c:28-45 | For every delta the registers are in range and nonzero; a fine alarm ends eleven ticks early, a coarse one at least 44100 ticks early and less than 45000 unless the counter is at its limit. |
| `TimerSpec.InsertPlace` | src/timer.c:87-92 | A timer is linked in behind every timer due earlier and before every timer due at the same time or later. |
| `Timers.TimerQueue.Cancel` | src/timer.c:59-71 | The pointer walk unlinks exactly the given timer; afterwards a timer is active if and only if it is in the list, once. |
| `Timers.TimerQueue.Set` | src/timer.c:73-98 | Active or not before, the timer ends up in the list once, before everything due no earlier, true deadlines deciding across 32-bit wrap; the alarm is reprogrammed exactly when it comes first. |
| `Timers.TimerQueue.Service` | src/timer.c:121-131 | One turn of the interrupt loop stops, rearms for a first timer more than twelve ticks off, or removes the first timer and hands it over. |
| `TimerRun.NoTimerIsLost` | src/timer.c:59-132 | Over every run of settings, cancellations, alarms, interrupts and callbacks the list is ordered with each timer once, a nonempty list has an interrupt or alarm in time for its head, no callback is more than twelve ticks early, and every deadline set is waiting, fired or dropped, once. |
| `TimerSystem.System.TimerSet` | src/timer.c:73-98 | Setting a timer on the linked list and the alarm registers is the step of the state machine that sets it. |
| `TimerSystem.System.TimerCancel` | src/timer.c:59-71 | So is cancelling one. |
| `TimerSystem.System.IrqTurn` | src/timer.c:116-132 | So is a turn of the interrupt loop, which runs a callback exactly when the state machine stays in the interrupt. |
| `TimerRun.ReprogramsBound` | src/timer.c:28-45 | A timer delta ticks away needs at most delta / (65536 * 900) + 2 alarms. |
| `TimerRun.FirstTimerIsReached` | src/timer.c:116-132 | The run of alarms and interrupts that follows does reach the first timer within that many alarms, and fires it eleven ticks before its deadline, or at once when no more than twelve were left. |
| `TimerRun.LateWithoutWaiting` | src/timer.c:73-98 | How late a callback runs has no bound even when no interrupt ever waits: a timer set first in the list again and again restarts the alarm each time, and one behind it can be as late as 32-bit times can tell. |
| `SystemClock.TimeIsExact` | src/time.c:22-30 | With fewer than 2^24 ticks since the stamp that was read, the result is the true 32-bit time, even when the stamp is replaced before the counter is read. |
| `SystemClock.TimeOfAnyAge` | src/time.c:22-30 | However old the stamp, the reading is the true time less the whole turns of the 24-bit counter that were missed. |
| `SystemClock.ExactWhen` | src/time.c:22-30 | A reading less than 2^32 ticks after its stamp is right if and only if it is less than 2^24 ticks after it. |
| `SystemClock.Clock.Restamp` | src/time.c:15-20 | The update leaves an exact stamp and asks for the next one 500 ms after it. |
| `SystemClock.ClockIsAlwaysExact` | src/time.c:15-38 | Over every run whose stamp callback is never later than 2^24 ticks less half a second, every reading is exact. |
| `SystemClock.ClockIsMonotone` | src/time.c:15-38 | Any two readings of such a run differ by the time between them, modulo 2^32. |
| `Quicksort.Partition` | src/util.c:262-283 | Both scans stay within l to r, and the range ends up split around the pivot, a permutation of what it was. |
| `Quicksort.Sort` | src/util.c:254-294 | For any total preorder the range ends up a sorted permutation, nothing else changes, and it calls itself with one level less each time, out of as many as the binary logarithm of the length and one. |
| `Quicksort.QSort` | src/util.c:296-300 | The whole array, empty or not, ends up a sorted permutation of itself. |
| `Memory.Memmove` | src/util.c:91-102 | However source and destination overlap, the destination ends up holding the old source and nothing else changes. |
| `Memory.Memcpy` | src/util.c:42-60 | Copying by blocks and then bytes is right for disjoint ranges and for a destination below an overlapping source. |
| `Interleave.MkIdams` | src/main.c:286-302 | Every probe ends, for any skews and interleave in 32-bit arithmetic and any sector numbers. |
| `Interleave.SkewIs` | src/main.c:293-297 | Without skew the first sector is in slot zero; each cylinder moves it on by the cylinder skew and each head by the head skew, round the track. |
| `Interleave.EverySectorOnce` | src/main.c:286-302 | When the last sector number fits a byte, every sector keeps a slot of its own and every number is in exactly one slot. |
| `Interleave.ReuseIsExact` | src/main.c:290-300 | For every interleave, skew, count and first number, the sectors keep slots of their own, each under its number modulo 256, if and only if no sector numbered 0xff is first in a round of nr / gcd(interleave, nr) that another round follows: its slot looks free to that one. |
| `Interleave.ReusedSlot` | src/main.c:290-300 | A case where they do not: nine sectors from number 252 with an interleave of three. |
| `Interleave.CoprimeInterleave` | src/main.c:291-301 | With an interleave prime to the number of sectors no slot is ever probed past: sector first + j goes to slot start + j * interleave, counted round. |
| `Interleave.WrapBreaksRounds` | src/main.c:290-300 | A case where the 32-bit sum wraps and the rounds are broken: three sectors from number 254 with an interleave of 2^32 - 1 keep slots of their own though the rounds say they clash. |
| `Interleave.WrapBreaksSteps` | src/main.c:291-301 | And three sectors from slot two with an interleave of 2^32 - 2, prime to three: the second goes to slot zero, where steps counted round would put it in slot one. |
| `Strings.DigitsFit` | src/string.c:23-141 | No number in any base printed needs more than eleven of the twelve scratch characters. |
| `Strings.VsnPrintf` | src/string.c:19-156 | For every format, argument list and size, the whole output length is returned, and the buffer holds the output cut to size - 1 and a terminator, or is untouched at size 0. What the output is, the next five rows say. |
| `Strings.TextPrints` | src/string.c:25-29 | Text without directives is copied as it stands. |
| `Strings.DirectivePrints` | src/string.c:31-79 | A directive, spelled with any modifiers that can be told apart, is replaced by what its conversion prints under exactly those modifiers, and uses up an argument for each star and one for itself. |
| `Strings.UnsignedPrints` | src/string.c:66-148 | %u, %o, %x, %X and %p print digits that write the argument, cut to the size asked for, in base 10, 8, 16, 16 and 16, in the case asked for and without leading zeros, behind the prefix and the padding asked for. |
| `Strings.SignedPrints` | src/string.c:69-148 | %d and %i print the signed value of the argument in base 10, with the minus sign before zeros and behind spaces. |
| `Strings.OthersPrint` | src/string.c:81-94 | %s prints the string and spaces up to the width, %c the low byte, and any other character itself. |
| `Strtol.StrToL` | src/util.c:198-252 | The parser returns the signed value of the digits after spaces, sign and prefix, and where they end. |
| `Strtol.HexPrefix` | src/util.c:217-228 | After any spaces and sign, the prefix 0x in either case is honoured in base 16 alone; in every other base, 0 included, it reads as a zero that ends at the x. |
| `Strtol.HexReadRight` | src/util.c:217-252 | So a number with the prefix is read as what its digits write if and only if the base is 16 or the number is zero, and is read to its end if and only if the base is 16. |
| `Strtol.DigitTable` | src/util.c:236-241 | Each digit is worth its distance from 0, each letter, in either case, ten more than its distance from a. |
| `Strtol.SpaceSkipped` | src/util.c:192-208 | Any of the six space characters before a string moves the end on by one and changes nothing else. |
| `Strtol.SignedParse` | src/util.c:211-215 | Before a digit a plus sign changes nothing but the end, and a minus sign negates the value. |
| `Strtol.BaseZero` | src/util.c:217-231 | Base 0 means base 8 behind a leading zero and base 10 otherwise. |
| `Strtol.PrintedIsReadBack` | src/util.c:198-252 | Every int but the smallest, printed in decimal at any width with either padding, parses back to itself. |
| `Strtol.FormatIsReadBack` | src/string.c:19-156 | So does the output of the formats %*d and %0*d as a whole. |
| `Strtol.UnsignedIsReadBack` | src/string.c:96-148 | Every number printed in base 8, 10 or 16, at any size, width and padding, is read back in that base if and only if it is zero or no spaces come between its prefix and its digits. |

## Left out

- Assumptions about the DMA engine: it neither laps the consumer of the read ring nor runs dry while the write ring is
  being filled; in the model it waits there. What an overrun would do to a read is not modelled.
- Cell sizes with cell + cell / 2 at or above 2^16 are left out, as are intervals of a whole timer period or more.
- Shifting the window by 32 or more cells at once, which C leaves undefined, fills it with zeros here.
- Reader.FluxReader.Read: asks for an even number of words, more than the sync mark fills; Reader.OverrunsExactly shows
  what the others can do.
- rd.end, the time a read returns, and the time a sector write begins after waiting for the end of gap 2 are parameters;
  so are the index counts and times at each poll.
- IbmReads.MfmScan: the index pulses, times and memory of its reads are parameters, and it stops when they run out. The
  gap is given before its conversion to an unsigned value, and for marks less than 2^32 ticks, less half a byte, apart.
- IbmReads.MfmSearch: likewise stops when its reads run out, where the source reads on.
- IbmRewrite.TrackAfterWrites: a write begins on a cell boundary of the track and at the track's own speed. It is not
  carried to flux level, where a seam may fall within a cell.
- IbmRewrite.SeldomIsClear: sufficient only; IbmRewrite.TrackHoldsExactly has the exact condition.
- IbmLayout.ScanFindsTrack: one revolution at a time, with reads that start within 544 cells of the end of the one before.
- IbmSearch.SearchIsExact: a search starts at the index and covers one revolution; IbmSearch.SearchEnds has it start
  anywhere and cover two.
- IbmFlux.SectorFoundAnywhere: the byte before the buffer ends in the same bit as the last byte of the track, so that the
  clock rule holds where the track meets its own beginning. IbmFlux.SectorMissedAnywhere asks the same. At flux level the
  latency of a read is counted to the first reversal it hears, or from the cell before when a mark begins there.
- Sector sizes: 128 << n is unbounded here, where the code has 32 bits.
- The FM scan and search loops, which repeat the MFM ones, and FM address fields, which the source reads but does not
  write.
- AmigaRead.ReadTrack: the buffer is taken to begin a stretch of memory long enough for every sector number, so that what
  the source would do outside the buffer can be said.
- Amiga.TrackWriter.WriteTrack: takes the low eight bits of the track number, where the code would spill a larger one
  into the format byte.
- AmigaHunt.HuntFindsTrack: the disk is three identical revolutions; the splice where a write ends at the index is not
  modelled, nor what lies on an unformatted disk.
- TimerRun.NoTimerIsLost: deadlines stay within 2^31 ticks of now whenever they are compared, as the source requires.
- Timers.TimerQueue.Init: an active timer is not initialised again; the source would leave it linked.
- SystemClock.ClockIsAlwaysExact: the lateness of the stamp callback is a bound given to the model. It does not follow from
  one on the latency of interrupts, as TimerRun.LateWithoutWaiting shows.
- Quicksort.Sort: index sums are unbounded integers, and comparisons have no side effects.
- Interleave.ReuseIsExact: leaves out interleaves within nr of 2^32 when nr does not divide 2^32, for which
  Interleave.WrapBreaksRounds shows it false; Interleave.MkIdams and Interleave.EverySectorOnce cover them.
- Interleave.CoprimeInterleave: leaves out the same interleaves, for which Interleave.WrapBreaksSteps shows it false.
- Interleave.SkewIs: as long as the skews add up to less than 2^32.
- Strings.DirectivePrints: modifiers that run together, such as a width and then a zero, are read as one; such spellings
  are left out here, not in Strings.VsnPrintf.
- Strings.VsnPrintf: a format that ends inside a directive, which would be read past its end, stops here. Widths are
  unbounded, and arguments are taken to have the type their directive asks for. Plain characters are unsigned, as the
  target has them.
- Strtol.StrToL: values are unbounded where a long would overflow; bases above 36 are left out.
- Memory.Memcpy: overlapping ranges with the destination above the source are left out, as in C.
- The console (src/console.c), which has a simpler ring; the disk-image and Quick Disk tests (src/da.c, src/quickdisk.c),
  motor and head movement (src/floppy.c), LED display, test sequences and hardware set-up: device sequencing with little
  to prove.
- The string helpers of src/util.c other than those above, and its random number generator: they would only add easy
  members.
