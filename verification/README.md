# A verified model of GNU tar

GNU tar writes and reads archives of 512-byte blocks through a record buffer. Its writer and its reader are two
separate programs that must undo each other. This project models both, in Dafny, and proves that they do: the numbers,
checksums and names of headers, the record buffer, whole archives, archives over several volumes, sparse files, deletion
in place, the renames and snapshots of incremental dumps, and the text forms of integers, times and file names.

Code that changes buffers and counters step by step is modelled as classes and methods with loops; each method is proved
against a function or predicate on values, and the laws are proved about these. `dafny verify dfyconfig.toml` checks
everything.

## Parts

- `Bytes`, `DecimalText`, `Timestamps`, `TextLaws`, `PathNames`, `PathComponents`: integers, times and file names of
  `src/misc.c`.
- `HeaderNumbers`, `HeaderNumberLaws`, `FieldSyntax`, `HeaderBlock`, `ChecksumLaws`, `UstarNames`: fields, checksum and
  name split of a header.
- `RecordReader`, `RecordWriter`: the record buffer, once for reading and once for writing.
- `ArchiveFormat`, `ArchiveReading`, `ArchiveRoundTrip`, `ArchiveIO`, `ReadingLaws`: members as bytes, what bytes mean, the
  programs, and the codes and offsets of headers written out.
- `Volumes`, `VolumeWriter`, `VolumeReader`: the counters, the volume switch, the continuation checks and the reader.
- `SparseFiles`, `SparseExtract`, `PaxSparseMap`, `PaxMapReading`, `OldGnuSparseMap`, `SparseArchive`: sparse files from
  the scan to the extracted bytes, with both encodings of the map.
- `Deletion`, `ArchiveUpdate`, `DeleteMembers`, `DeletionReading`, `DeletionLaws`: deletion in place, and reading after it.
- `Dumpdir`, `RenameReplay`, `RenameLaws`, `Renames`, `RenameListing`: rename commands, their validator and their replay.
- `Snapshot`, `SnapshotWriting`, `SnapshotLaws`: the snapshot file, format 2.

## Where the code does not do what one would expect

The models follow the code. For each of these the exact condition is proved, and a concrete case is given.

- `delete_archive_members` on an archive that just ends, without a zero block: reads that find nothing are counted in
  `records_read`, so the last records are written too far to the front, or the seek fails. The result is right exactly
  if a zero block ends the archive, or if the file ends inside or right after a long-name or long-link record with less than
  a block in a record of its own (`DeleteMembers.DeleteArchiveMembers`, `DeletionLaws.UnterminatedExample`).
- The first pass of deletion over a member that is cut off is a fatal error, unless a seek passes over all of its data:
  exactly if they would end with a record after the header's (`DeleteMembers.FirstPass`,
  `DeletionLaws.UnnoticedExample`).
- `_gnu_flush_write` while closing: the number of bytes to copy becomes negative exactly if a short write takes more
  blocks than the record has in use (`VolumeWriting.VolumeWriter.GnuFlushWrite`, `VolumeWriting.OverrunExample`).
- In the ustar format a link target of more than a hundred bytes is reported as not dumped; the link is dumped all the
  same, with the first hundred bytes of its target (`ArchiveRoundTrip.TargetKept`).
- The loop of `close_archive` ends if and only if some pass writes a whole record, empties it, overruns or fails
  (`VolumeWriting.VolumeWriter.CloseEndsIff`, `Close`, `CloseForever`). It does if every volume takes more than its
  headers, and never does if every volume takes exactly them (`MediumCloses`, `StuckForever`,
  `VolumeWriting.StuckExample`).
- The offset in a continuation header is exact if and only if the short write wrote nothing, or reached past the volume
  headers and up to the member's first data block (`Volumes.OffsetExactIff`, `Volumes.HeadersCutExample`,
  `Volumes.DataNotBegunExample`).
- `from_header` reads some octal fields beyond the range asked for as small numbers
  (`HeaderNumberLaws.OctalMisread`, `HeaderNumberLaws.ElevenSevens`; with the 64-bit `off_t` assumed here no caller
  passes such a range for its field), and the base-256 field for -2^64 as 0
  (`HeaderNumberLaws.Base256Misread`, `HeaderNumberLaws.MinusTwo64`).
- The cycle test of `store_rename` ends if and only if the `orig` pointers do not run into a cycle without the start
  (`Renames.CycleTestEndsIff`, `Renames.SharedOriginalExample`).

Further:

- Deletion skips the data that the size field of a directory announces, and reading does not; so a file behind such a
  directory is lost with it (`ReadingLaws.SizedDirectory`). Otherwise deleting and reading commute
  (`DeletionReading.DeleteAndRead`).
- When a member to be kept is cut off, deletion goes on copying what the buffer held before
  (`ArchiveUpdate.Updater.CopyData`); the model stops there.
- The negative octal branch of `to_chars` is unreachable (`HeaderNumbers.NegativeOctalUnreachable`).
- The comment on `read_obstack` says that the count includes the NUL; the code does not count it, and the model follows
  the code.

## Model

| member | source | states |
|---|---|---|
| `HeaderNumbers.ToOctal` | src/create.c:145-157 | stores exactly the octal digits of the value into the field and nothing else, working backwards in place |
| `HeaderNumbers.ToBase256` | src/create.c:187-201 | stores the two's complement base-256 digits of a signed value although the loop works on an unsigned one with sign propagation |
| `HeaderNumbers.ToChars` | src/create.c:270-325 | succeeds exactly for the values that have an octal text, or in GNU formats a base-256 text, and then changes only the field; otherwise nothing is changed |
| `HeaderNumbers.NegativeOctalUnreachable` | src/create.c:290-317 | the branch that writes negative values as machine-dependent octal can never be reached: base-256 always fits first |
| `HeaderNumbers.ScanOctal` | src/list.c:812-823 | the wrapping accumulator with its sticky flag finds the exact value and reports overflow exactly when it exceeds uintmax_t |
| `HeaderNumbers.ScanComplement` | src/list.c:832-847 | the second pass computes the exact two's complement magnitude and its overflow |
| `HeaderNumbers.ScanBase64` | src/list.c:883-915 | base-64 digits are summed exactly or an overflow is found |
| `HeaderNumbers.ScanBase256` | src/list.c:916-947 | the value of the base-256 digits as a signed number of any field size, refused exactly outside -2^64 .. 2^64-1, with -2^64 itself coming out as 0 |
| `HeaderNumbers.FromHeader` | src/list.c:771-990 | the wrapping loops compute exactly what the three encodings of the field define, for every byte content of any field size; where that is not the number denoted is stated by OctalMisread and Base256Misread |
| `FieldSyntax.OctalSyntax` | src/list.c:786-823 | octal digits behind an optional NUL and blanks, and before a NUL, a blank or the end of the field, denote their value if it is in the range |
| `FieldSyntax.OctalGarbage` | src/list.c:949-975 | digits with anything else behind them are refused |
| `FieldSyntax.BlankSyntax` | src/list.c:793-807 | a field of blanks, with or without a NUL before them, is refused |
| `FieldSyntax.NulSyntax` | src/list.c:949-979 | a NUL where the number should begin stands for zero |
| `FieldSyntax.OtherSyntax` | src/list.c:949-975 | any other first character is refused; with octal_only the signs and the base-256 bytes too |
| `FieldSyntax.Base64Syntax` | src/list.c:883-915 | a sign and digits of the base-64 alphabet, written out, denote their value if it is in the range |
| `FieldSyntax.BlankPadded` | src/list.c:793-823 | concrete case: blanks before and after 644 |
| `FieldSyntax.FieldForm` | src/create.c:270-325 | which notation is chosen for fields of eight and twelve bytes: octal digits and a NUL up to 2^21-1 and 2^33-1, then base 256 in the GNU formats, then refusal |
| `HeaderNumberLaws.FieldRoundTrip` | src/create.c:270-325 | every value that to_chars accepts, octal or base-256, negative or not, at any field size, is returned exactly by from_header when the type holds it |
| `HeaderNumberLaws.Base256RoundTrip` | src/create.c:187-201 | base-256 encoding of a signed value at any width decodes to that value |
| `HeaderNumberLaws.OctalFieldValue` | src/list.c:771-990 | octal digits and a NUL denote their value in any larger range, also with octal_only |
| `HeaderNumberLaws.FieldTextInjective` | src/create.c:270-325 | two values with the same field text are equal, even if one was written in a GNU format and the other was not |
| `HeaderNumberLaws.OldNegativeTimes` | src/list.c:825-863 | eleven octal digits holding the low 32 bits of a negative 32-bit value decode to that value for a 32-bit type |
| `HeaderNumberLaws.OctalMisread` | src/list.c:825-863 | an octal field beyond the range is silently read as a wrong number exactly if its first digit is 2 or more and its complement lies in the range but not on the negative side |
| `HeaderNumberLaws.ElevenSevens` | src/list.c:825-863 | concrete case: eleven sevens in a size field are read as 1 where off_t has 32 bits |
| `HeaderNumberLaws.Base256Misread` | src/list.c:916-947 | a base-256 field is read as what it denotes if the range holds it and refused if not, except that -2^64, and only it, is read as 0 |
| `HeaderNumberLaws.MinusTwo64` | src/list.c:916-947 | concrete case: a size field of four bytes 255 and eight zero bytes denotes -2^64 and is read as 0 |
| `HeaderBlock.TarChecksum` | src/list.c:369-404 | two running sums over all bytes and the correction for the checksum field give the status that the two blanked sums define |
| `ChecksumLaws.ChecksumMeaning` | src/list.c:369-404 | a block is a zero block if all bytes are zero, and else a header exactly if the field at 148 holds the sum of its bytes, taken as unsigned or as signed, with blanks for that field |
| `ChecksumLaws.SpelledAccepted` | src/list.c:369-404 | a field that spells a number in octal, with blanks around it, is accepted exactly if the number is one of the two sums |
| `HeaderBlock.SimpleFinishHeader` | src/create.c:952-978 | the header becomes the same header with its own blanked sum in six octal digits, NUL and blank |
| `HeaderBlock.FinishedAccepted` | src/create.c:952-978 | every finished header is accepted by tar_checksum, and its sum fits six octal digits |
| `HeaderBlock.SingleByteDetected` | src/list.c:369-404 | changing any single byte outside the checksum field of a finished header gives HEADER_FAILURE, although two different sums are accepted |
| `UstarNames.SplitLongName` | src/create.c:556-569 | the backward scan finds the last slash that leaves a prefix of at most 155 bytes |
| `UstarNames.WriteUstarLongName` | src/create.c:571-599 | a name is split exactly when some slash gives a prefix of 1..155 bytes and a rest of 1..100 bytes, and prefix, slash and rest are the name |
| `RecordReader.Reader.Read` | src/buffer.c:1806-1808 | the medium gives any positive part of what is asked for, nothing only at its end |
| `RecordReader.Reader.ShortRead` | src/buffer.c:955-1005 | the loop ends for every way of splitting reads; with read_full_records the record is full or the archive is exhausted |
| `RecordReader.Reader.FlushArchive` | src/buffer.c:1008-1046 | the record that follows replaces the used one at the same block ordinal; a block is available exactly if the archive holds one more whole block |
| `RecordReader.Reader.FindNextBlock` | src/buffer.c:612-627 | finds a block exactly when the archive holds one more whole block, however the reads are split |
| `RecordReader.Reader.SetNextBlockAfter` | src/buffer.c:632-646 | the block after the given byte is next, unless it lies before the current one |
| `RecordReader.Reader.ReadBlocks` | src/buffer.c:613-656 | the blocks handed out are exactly the stream cut into 512-byte pieces, a final partial block dropped |
| `RecordReader.Reader.TakeChunk` | src/extract.c:1444-1467 | a chunk is the next bytes of the archive, all that is left or whole blocks, and its blocks are marked as used; an unaligned record is fatal only without read_full_records |
| `RecordReader.Reader.ReadData` | src/extract.c:1444-1467 | the chunks together are the wanted bytes from the current block on, or the archive is too short; an unaligned record is fatal only without read_full_records |
| `RecordReader.Reader.SeekArchive` | src/buffer.c:1080-1121 | a seek moves by the reported number of blocks, never past the wanted size and to less than a record before its end, and keeps the reader consistent; the record-boundary error cannot happen with full records |
| `RecordReader.Reader.SkimFile` | src/list.c:1422-1450 | with or without seeking, the reader ends exactly ceil(size/512) blocks further, for every blocking factor and position in the record; an unaligned record is fatal only without read_full_records |
| `RecordWriter.Writer.FlushArchive` | src/buffer.c:1008-1046 | the whole record goes to the medium, and a full record changes nothing in the sequence of stored blocks |
| `RecordWriter.Writer.Fill` | src/create.c:1038-1056 | data copied into the buffer and zeroed to a block boundary extends the stored blocks by the padded data |
| `RecordWriter.Writer.WriteData` | src/create.c:1038-1056 | the data of a member is stored padded to a block boundary, over any number of records |
| `RecordWriter.Writer.WriteRegion` | src/sparse.c:407-457 | a data region is stored in as many blocks as it needs; the rest of its last block is unspecified unless the region was shorter than a block |
| `RecordWriter.Writer.WriteEot` | src/create.c:470-479 | two zero blocks are stored and the record is zero to its end, also when the two blocks fall into different records |
| `RecordWriter.Writer.Close` | src/buffer.c:1127-1132 | the flush loop ends after one pass and the media hold every stored block and the rest of the last record |
| `ArchiveIO.WriteHeader` | src/create.c:714-978 | the finished header block, field by field, or refusal exactly when the member is not acceptable |
| `ArchiveIO.WriteGnuLong` | src/create.c:516-554 | a long-name or long-link record of any length: a finished header and the padded text with its NUL |
| `ArchiveIO.DumpFile` | src/create.c:1427-1470 | an acceptable file, hard link or symbolic link appends exactly its member blocks; a refused one appends at most the long records that preceded the refusal |
| `ArchiveIO.WriteLongLink` | src/create.c:602-626 | a long-link record if the format has them and the target needs one; in the ustar format nothing, although the message says that the link is not dumped |
| `ArchiveIO.CreateArchive` | src/create.c:1019-1079 | the media hold the blocks of the accepted members in order and then zeros, at least two blocks, to the end of a record; refused members leave nothing behind |
| `ArchiveIO.ReadHeader` | src/list.c:427-631 | finds the next member header behind any number of long-name and long-link records, with its name, link name and size, or the status that stops the search |
| `ArchiveIO.ReadAnd` | src/list.c:198-333 | the listing that the bytes denote, member by member, and the reason for stopping, for every byte sequence without extended headers |
| `ArchiveIO.CreateAndRead` | src/list.c:198-333 | of every list of files and links those that are accepted, in the GNU formats all, come back with names, link targets, numbers and data, for all pairs of blocking factors and all read splittings |
| `ArchiveRoundTrip.GnuAccepts` | src/create.c:270-325 | in the GNU formats no file or link is refused, whatever its name, target and numbers |
| `ArchiveRoundTrip.RoundTrip` | src/create.c:470-479 | the written bytes of every list of accepted files and links, data that looks like headers included, read back to the same list and stop at the two zero blocks |
| `ArchiveRoundTrip.MemberReads` | src/list.c:427-631 | at a member's first block the reader finds the member's name, link target, size and data, whatever follows |
| `ArchiveRoundTrip.LongRecord` | src/list.c:463-520 | a long-name or long-link record of any length hands exactly its text to the header that follows |
| `ArchiveRoundTrip.TargetKept` | src/create.c:1449-1461 | a link keeps its target exactly in the GNU formats or up to a hundred bytes; otherwise it is stored with a part of it |
| `ReadingLaws.ReadByType` | src/list.c:550-572 | by literal type flags: which headers have data, that the entry has exactly these, and where reading goes on, or that it stops because they are cut off |
| `ReadingLaws.LongTaken` | src/list.c:463-520 | a record of type L gives the name and one of type K the link name of the next header, and the search goes on behind its blocks |
| `ReadingLaws.LongCut` | src/list.c:495-505 | a long record that is cut off ends the search |
| `ReadingLaws.ExtendedStops` | src/list.c:463-475 | extended headers of the three types stop the reader of this model |
| `ReadingLaws.GarbagePassed` | src/list.c:295-325 | a block that is not a header, or has no size, is passed over |
| `ReadingLaws.ZeroBlockEnds` | src/list.c:265-284 | a zero block ends the archive, with a second one or alone |
| `ReadingLaws.NameAt` | src/list.c:585-602 | where the name, the prefix and the link name of a header are, and when the prefix counts |
| `ReadingLaws.NumbersAt` | src/list.c:652-768 | which fields the numbers of an entry come from, and -1 for one that cannot be read |
| `ReadingLaws.HeaderCodes` | src/create.c:714-978 | type flag and magic of a written header |
| `ReadingLaws.HeaderNumbersAt` | src/create.c:714-978 | mode, owner, group, size and time are found at their offsets in a written header |
| `ReadingLaws.HeaderTexts` | src/create.c:714-978 | name, prefix and link name are found at their offsets, cut as the format says |
| `ReadingLaws.LongLayout` | src/create.c:516-554 | the blocks of a long record, byte by byte |
| `ReadingLaws.LongModeIs` | src/create.c:516-554 | the mode of a long record |
| `ReadingLaws.UstarAccepts` | src/create.c:555-599 | which names the ustar format takes |
| `ReadingLaws.PaddingIsZero` | src/create.c:1019-1079 | data are filled up with zeros to whole blocks |
| `Volumes.CountedUpdate` | src/buffer.c:882-902 | every write keeps sizetotal - sizeleft equal to 512 times the distance from the true position of the first data block to start |
| `Volumes.OffsetExactIff` | src/buffer.c:1735-1765 | for a record that starts with any number of volume headers, the offset stored at a volume switch is the number of bytes on earlier volumes exactly if the short write wrote nothing, or reached past the headers and up to the member's first data block |
| `Volumes.HeadersCutExample` | src/buffer.c:882-902 | concrete case: a volume that takes the label but not the continuation header gives offset 2560 for 3072 bytes, which the reader refuses |
| `Volumes.DataNotBegunExample` | src/buffer.c:882-902 | concrete case: a volume that ends before the member's first data block gives a negative offset, which the reader refuses |
| `Volumes.ReaderAccepts` | src/buffer.c:1525-1573 | the reader's size and sequence checks pass exactly if the offset is the number of bytes it has taken from the earlier volumes |
| `Volumes.FullWrite` | src/buffer.c:1888-1969 | a full write keeps the whole invariant: blocks conserved, volumes good, counters in step, and no member dropped before its last block is written |
| `Volumes.ShortWrite` | src/buffer.c:1888-1969 | a short write on a block boundary keeps it too, with the unwritten slots set aside for the next volume |
| `Volumes.ResetMap` | src/buffer.c:1941-1955 | when the headers of a new volume are written, the counters and the volume are right again: every member that goes on there has its exact continuation header |
| `VolumeWriting.VolumeWriter.FlushWrite` | src/buffer.c:866-904 | the medium takes any number of blocks of the record, and the counters are advanced unless that is inhibited |
| `VolumeWriting.VolumeWriter.GnuFlushWrite` | src/buffer.c:1888-1969 | after a flush nothing of the caller's is lost; used blocks, number of writes, map and outcome are what the function Flushed says, for every medium and blocking factor; the copy size is negative exactly if a short write passes the used part of the record; volumes stay good if each takes more than its headers and the next write reaches the tracked member's first data block |
| `VolumeWriting.VolumeWriter.SwitchVolume` | src/buffer.c:1935-1968 | label, continuation header, counter reset and the copied slots keep the invariant on the new volume; where the record stands afterwards and when an inner write fails, for records as short as the headers too |
| `VolumeWriting.VolumeWriter.CopyRest` | src/buffer.c:1954-1968 | slots that the old volume did not take are copied over one or two records, the rest of the last record is zero, and a record that is full must go out whole |
| `VolumeWriting.VolumeWriter.PutBlock` | src/buffer.c:612-646 | a block of the caller is appended to what has been filled, on this volume or a new one, always if every volume takes more than its headers |
| `VolumeWriting.VolumeWriter.BeginMember` | src/buffer.c:150-169 | a member is tracked from its next block on, after its header block was filled |
| `VolumeWriting.VolumeWriter.Close` | src/buffer.c:1127-1132 | on every medium on which the close loop ends, it overruns exactly if in some pass a short write takes more than the used part of the record; if it does not and no write fails, the volumes without headers are exactly the caller's blocks, and can be read if each took more than its headers |
| `VolumeWriting.VolumeWriter.CloseForever` | src/buffer.c:1127-1132 | on every other medium any number of passes of the close loop leaves something to write |
| `VolumeWriting.VolumeWriter.CloseEndsIff` | src/buffer.c:1127-1132 | the close loop ends if and only if some pass that it gets to writes a whole record, empties it, overruns or fails |
| `VolumeWriting.VolumeWriter.OverrunIff` | src/buffer.c:1932-1966 | what closing comes to is Overrun if and only if some pass that it gets to has a write that is short and takes more than the used part of the record |
| `VolumeWriting.VolumeWriter.MediumCloses` | src/buffer.c:1127-1132 | if every volume takes more than its headers, closing ends and no write fails |
| `VolumeWriting.VolumeWriter.StuckForever` | src/buffer.c:1127-1132 | if every volume takes exactly its headers, any number of passes leaves as much to write as before |
| `VolumeWriting.StuckExample` | src/buffer.c:1127-1132 | concrete run: labelled volumes that take one block each leave the same two blocks to write after any number of passes |
| `VolumeWriting.VolumeWriter.DumpMember` | src/buffer.c:1888-1969 | a whole run with one tracked member, on every medium on which it ends: its outcome is decided by the medium, the used part of the record and the number of blocks, and is Overrun exactly if closing overruns; if every volume takes more than its headers it is Ok when all writes are whole from the first one on that closing can make, whatever was cut before; then all blocks are stored in order, and if the first write reaches the member's data, every volume can be read |
| `VolumeWriting.VolumeWriter.MediumRuns` | src/buffer.c:1888-1969 | if every volume takes more than its headers, a run of any length ends without a failed write, and does not overrun if the writes from number (used blocks + blocks put - 1) / blocking factor on take whole records, or whole records or nothing |
| `VolumeWriting.ContinuationAccepted` | src/buffer.c:1525-1573 | on the media of such a run the reader that has taken all earlier blocks of a member accepts the continuation header of every volume, the last one included |
| `VolumeWriting.OverrunExample` | src/buffer.c:1932-1966 | concrete run: with two used blocks of four and a medium that takes three, the copy size is negative |
| `VolumeReading.VolumeReader.TryNewVolume` | src/buffer.c:1419-1577 | on any volumes: label and continuation header of the next volume are taken, and while a member is read the volume is accepted exactly if the last such header seen names the member, its size is what is left and its offset what was read |
| `VolumeReading.VolumeReader.ReadMember` | src/extract.c:1444-1467 | the reading loop with mv_size_left on any media: every volume it enters has announced the member with exactly what was left of it; on media that can be read it gives exactly the member's blocks |
| `VolumeReading.DumpAndRead` | src/extract.c:1444-1467 | writing a member over any number of volumes, with records cut anywhere, and reading it back with every check of the reader gives its data, unless closing overruns, which is decided exactly and excluded if the writes that closing can make are whole |
| `VolumeReading.CutRecordExample` | src/buffer.c:1888-1969 | concrete run: the second record of four blocks is cut in the middle, and a member of twenty blocks comes back from two volumes |
| `SparseFiles.ScanFileRaw` | src/sparse.c:209-267 | the map describes the whole file, with zeros between its extents; its extents are made of blocks with data only and do not touch; archive_file_size is what they hold |
| `SparseFiles.StoredIff` | src/sparse.c:209-261 | a block is stored exactly if it holds a byte that is not zero |
| `SparseFiles.DumpRegions` | src/sparse.c:407-457 | each region is stored from a block boundary on, one after the other |
| `SparseFiles.RegionsFillSize` | src/sparse.c:407-457 | the regions of a scanned map take exactly the blocks of archive_file_size bytes, so a reader that skips by size ends at the same block |
| `SparseExtract.Output.DumpZeros` | src/sparse.c:64-89 | a pipe gets exactly the missing zeros although each write may take a part only, and never goes backwards |
| `SparseExtract.ExtractRegion` | src/sparse.c:459-499 | after a region the output is the file up to its end, the hole before it included, on seekable files and pipes alike; it fails exactly if the archive ends inside the region |
| `SparseExtract.ExtractRegions` | src/sparse.c:558-580 | after all regions the output equals the file byte for byte, a trailing hole included, and exactly the blocks of the regions are consumed; it fails exactly if the archive ends inside them |
| `PaxSparseMap.FloorLog10` | src/sparse.c:1151-1157 | one less than the number of decimal digits, for every number |
| `PaxSparseMap.MapSize` | src/sparse.c:1167-1174 | the size computed beforehand is the number of padded bytes that the map takes when written |
| `PaxSparseMap.DumpStrNl` | src/sparse.c:1127-1147 | the string and a newline are appended at the write pointer across any block and record boundaries |
| `PaxSparseMap.PaxDumpMap` | src/sparse.c:1196-1205 | the decimal map is stored, zero-filled to a block boundary |
| `PaxMapReading.DecodeNum` | src/sparse.c:1227-1265 | the number of the line at the read pointer across block boundaries, malformed exactly without digits or with other characters, overflow exactly beyond the limit although the accumulator wraps |
| `PaxMapReading.PaxDecodeMap` | src/sparse.c:1267-1309 | the map that the text denotes, each extent inside the file, or the error; a good map uses up the block in which its text ends |
| `PaxMapReading.MapRoundTrip` | src/sparse.c:1159-1309 | for every map length the decoder recovers the map that was written, whatever follows it, and consumes exactly the blocks written |
| `PaxMapReading.LineSyntax` | src/sparse.c:1227-1265 | which lines of a map are numbers, malformed, too large or cut off |
| `PaxMapReading.ExtentAccepted` | src/sparse.c:1267-1309 | an extent is accepted exactly if both lines are numbers and it lies inside the file |
| `PaxSparseMap.MapExample` | src/sparse.c:1196-1205 | concrete case: the lines of one extent |
| `OldGnuSparseMap.StoreSparseInfo` | src/sparse.c:819-831 | as many extents as fit are stored in 24-byte entries, and nothing else of the block changes |
| `OldGnuSparseMap.OldgnuDumpHeader` | src/sparse.c:833-868 | type flag, real size, stored size and the map: the header block and every extension block the writer holds |
| `OldGnuSparseMap.SparseHeaderReads` | src/sparse.c:770-780 | the finished header passes the checksum, and the reader finds the sparse type flag, the real size and the stored size in it, whatever the map |
| `OldGnuSparseMap.OldgnuDumpMap` | src/sparse.c:847-866 | the header with up to four extents and as many extension blocks of twenty-one as the map needs |
| `OldGnuSparseMap.AddSparseEntry` | src/sparse.c:750-768 | an entry ends the map, is refused if it is malformed or outside the file, or adds its extent |
| `OldGnuSparseMap.GetSparseInfo` | src/sparse.c:782-817 | the map that header and extension blocks denote, or the error, and the reader stands behind the last extension block used |
| `OldGnuSparseMap.OldGnuRoundTrip` | src/sparse.c:750-868 | for every map length loading inverts storing, no entry is taken for the terminator, and exactly the extension blocks written are read |
| `OldGnuSparseMap.HeaderMapLayout` | src/sparse.c:833-868 | where type flag, sizes, four extents and the flag are in the header block |
| `OldGnuSparseMap.ExtensionLayout` | src/sparse.c:833-868 | where twenty-one extents and the flag are in an extension block |
| `OldGnuSparseMap.EntryAccepted` | src/sparse.c:750-768 | an entry ends the map, is refused, or is added, by what its two fields hold |
| `SparseArchive.PaxDumpFile` | src/sparse.c:504-534 | scan, map and regions of any file in PAX format 1.0 |
| `SparseArchive.PaxExtractFile` | src/sparse.c:558-580 | such a member is extracted to exactly the file, and exactly its blocks are consumed |
| `SparseArchive.OldGnuDumpFile` | src/sparse.c:504-534 | scan, header, extension blocks and regions of any file in the old GNU format |
| `SparseArchive.OldGnuExtractFile` | src/sparse.c:558-580 | with the real size that its header gives such a member is extracted to exactly the file, and exactly its blocks are consumed |
| `SparseArchive.PaxSparseRoundTrip` | src/sparse.c:504-580 | scan, dump, close, open, decode and extract give back every file, for all blocking factors, all read splittings, and both kinds of output |
| `SparseArchive.OldGnuSparseRoundTrip` | src/sparse.c:504-580 | the same for the old GNU format, where the size comes from the header too |
| `ArchiveUpdate.Updater.FlushRead` | src/buffer.c:1787-1814 | the next record of the original archive is read from the file although earlier records were overwritten; a read that finds nothing is counted too |
| `ArchiveUpdate.Updater.SeekArchive` | src/buffer.c:1080-1121 | after a seek from inside a member, even beyond the end of the file, records_read still counts the records that were passed; all of the data is passed over exactly if it ends with a later record |
| `ArchiveUpdate.Updater.MoveArchive` | src/delete.c:37-68 | the position moves by whole records from the next record boundary, or an error is reported and it stays |
| `ArchiveUpdate.Updater.WriteRecord` | src/delete.c:72-101 | the new record is written where the record counters say, and the position returns |
| `ArchiveUpdate.RecordWritten` | src/delete.c:72-101 | writing a record that has been read leaves every unread byte of the file as it was |
| `ArchiveUpdate.Updater.WriteFull` | src/delete.c:72-112 | a full new record only ever replaces a record that has been read, and no move fails |
| `ArchiveUpdate.Updater.WriteRecentBlocks` | src/delete.c:103-112 | saved blocks are appended to the output in order, over any number of records |
| `ArchiveUpdate.Updater.FlushFile` | src/delete.c:129-145 | a header and its data are passed over as far as the archive goes; its end is met only if nothing follows them |
| `ArchiveUpdate.Updater.CopyData` | src/delete.c:302-336 | exactly the data blocks of the member are appended, while reading and writing positions move independently; stale blocks are copied exactly if the archive ends before the data do |
| `ArchiveUpdate.Updater.WriteEnd` | src/delete.c:361-382 | the file ends as output, at least two zero blocks, to a record boundary, exactly if no read ever found the end of the file |
| `DeleteMembers.ReadHeader` | src/list.c:427-631 | the next member header with the blocks of the last long-name and long-link records before it, or the end, also inside such a record; then an empty read was counted exactly unless stray bytes make a last record |
| `Deletion.SameHeader` | src/list.c:427-631 | the header search of deletion and that of reading find the same status, name, size, header and rest on all bytes |
| `DeleteMembers.KeepMember` | src/delete.c:279-336 | long-name record, long-link record, header and data of a kept member are appended in this order |
| `DeleteMembers.FirstPass` | src/delete.c:162-225 | stops at the first member to be deleted or at an extended header before it, whether data is skipped by seeking or by blocks; a member that is cut off is a fatal error unless a seek passes over all of it |
| `DeleteMembers.CopyRest` | src/delete.c:247-359 | the output becomes exactly the kept blocks of the rest of the archive, wherever that ends |
| `DeleteMembers.DeleteArchiveMembers` | src/delete.c:147-388 | without a match the file is untouched; otherwise the file becomes the blocks before the first deleted member, the kept blocks, and zeros to a record boundary, exactly if no read came back empty; stated for every file, cut off or not |
| `DeletionReading.ReadKept` | src/delete.c:247-359 | reading the kept blocks of any archive, however it ends, gives the entries that are not doomed, in order, and then what follows them |
| `DeletionReading.ReadWanted` | src/delete.c:147-388 | the archive that deletion has to leave reads as the entries of the original that are not doomed |
| `DeletionReading.DeleteAndRead` | src/delete.c:147-388 | deleting and reading commute: on every file on which deletion comes to its end without an empty read, and in which no directory has a size |
| `ReadingLaws.SizedDirectory` | src/delete.c:129-145 | a directory with a size: reading takes the next block as a header, deletion as data, so the file behind it is lost |
| `ReadingLaws.SizedDirectoryExists` | src/list.c:1460-1476 | there is such a header |
| `DeletionLaws.KeptMembers` | src/delete.c:247-359 | of an archive of files and links the kept blocks are those of the surviving members, in order, with the long-name record first |
| `DeletionLaws.DeleteFiles` | src/delete.c:147-388 | reading the result of a deletion gives exactly the survivors with link targets and data; if nothing followed the last member the result is never the wanted archive |
| `DeletionLaws.UnterminatedExample` | src/delete.c:147-388 | concrete case: one empty file and no zero block after it |
| `DeletionLaws.UnnoticedExample` | src/list.c:1422-1450 | concrete case: a header that announces data, no data, and a seek that hides this |
| `Dumpdir.DumpdirOk` | src/incremen.c:1551-1635 | accepts exactly the terminated listings whose entries the command grammar allows, never looking outside the array |
| `Dumpdir.EntryInside` | src/incremen.c:1551-1635 | at every entry of a terminated listing, strlen and the step to the next entry stay inside the array |
| `Dumpdir.AcceptedIsSafe` | src/incremen.c:1551-1635 | in every accepted listing a T follows every R, the temporary directory is used only after an X, and no rename has two empty names |
| `Dumpdir.AcceptedIff` | src/incremen.c:1551-1635 | a listing is accepted if and only if every entry is as it should be: R and T in pairs, no second X, no empty name without a temporary directory |
| `RenameReplay.ProcessRenames` | src/incremen.c:1657-1715 | for every accepted listing the restore loop carries out exactly the listed commands until one fails |
| `RenameReplay.ReplayConserves` | src/incremen.c:1640-1720 | no listing whatever makes a replay lose a directory or make one up |
| `RenameLaws.ChainRestored` | src/incremen.c:947-951 | for every chain with distinct names and a free last target all renames succeed, none onto a name in use, and each name ends up with what was at its original |
| `RenameLaws.CycleRestored` | src/incremen.c:952-970 | for every cycle all renames succeed, the names are rotated, the temporary directory is gone and nothing else has changed |
| `Renames.FindCycle` | src/incremen.c:942-945 | the cycle test ends unless the orig pointers run into a cycle without the start, and tells a chain from a cycle |
| `Renames.CycleTestLoops` | src/incremen.c:942-945 | if the orig pointers run into a cycle that does not contain the start, the cycle test never ends |
| `Renames.CycleTestEndsIff` | src/incremen.c:942-945 | the loop condition of the cycle test fails after some number of rounds exactly if no walk from the start runs back into itself elsewhere |
| `Renames.InjectiveEnds` | src/incremen.c:942-945 | if no two directories come from the same one, the cycle test ends from every start |
| `Renames.SharedOriginalExample` | src/incremen.c:942-945 | concrete case: three directories, two of which come from the same one, on which the cycle test never ends |
| `Renames.CodeRename` | src/incremen.c:921-935 | the text of one rename |
| `Renames.StoreRename` | src/incremen.c:937-971 | the commands appended are those of the whole chain or cycle from the start |
| `Renames.CycleStub` | src/incremen.c:937-971 | the temporary directory of a cycle is made beside its first directory: for p/c in p, for a name without a slash in the current directory, for /c in the root |
| `Renames.CodeBytes` | src/incremen.c:921-935 | the bytes of X, R and T commands |
| `RenameListing.DumpdirSize` | src/incremen.c:239-251 | the size of a listing, its final NUL included |
| `RenameListing.ExtendedListing` | src/incremen.c:973-1006 | a plain listing with the commands of any number of chains and cycles is accepted, and reading it gives back these commands |
| `RenameListing.AppendIncrementalRenames` | src/incremen.c:973-1006 | the listing it builds is accepted by dumpdir_ok, and its commands are, in order, those of the walk from each flagged directory of the list |
| `RenameListing.StoreAndReplay` | src/incremen.c:937-971 | storing the renames of one start and replaying the listing puts at each directory's name what was at its original |
| `Snapshot.ReadNum` | src/incremen.c:1150-1206 | the number before the next NUL within the range of its type, end of file, or a fatal error; the buffer of 21 bytes is never exceeded |
| `Snapshot.ReadObstack` | src/incremen.c:1125-1137 | the bytes up to the next NUL or the end of the file |
| `Snapshot.ReadTimespec` | src/incremen.c:1213-1229 | seconds and nanoseconds in their ranges |
| `Snapshot.ReadIncrDb2` | src/incremen.c:1232-1289 | the records that the bytes denote, to the end of the file, or a fatal error, for every byte sequence |
| `SnapshotWriting.DumpdirCreate` | src/incremen.c:133-167 | pointers to exactly the Y, N and D entries of a listing, in their order |
| `SnapshotWriting.ElementsAre` | src/incremen.c:133-167 | the elements of a listing are exactly its entries with code Y, N or D, each once and in order |
| `SnapshotWriting.WriteDirectoryFileEntry` | src/incremen.c:1423-1463 | a directory that was found appends its record, another one nothing |
| `SnapshotWriting.DecIntLength` | src/incremen.c:1154-1169 | every value of a type of at most 64 bits fits the buffer of read_num |
| `SnapshotWriting.RecordParses` | src/incremen.c:1232-1289 | a written record is read back with flag, time, device, inode, name and listing, whatever follows it |
| `SnapshotWriting.SnapshotRoundTrip` | src/incremen.c:1423-1463 | reading a snapshot gives the time and every found directory with all its fields, for every valid choice of type ranges |
| `SnapshotWriting.ListingKept` | src/incremen.c:1423-1463 | the listing read back has exactly the Y, N and D entries of the one written; an absent listing comes back empty |
| `SnapshotWriting.EntriesKept` | src/incremen.c:1423-1463 | the entries read back are exactly those of the written listing with code Y, N or D, in order |
| `SnapshotLaws.NumberSyntax` | src/incremen.c:1150-1206 | which texts are numbers of a snapshot, by character, length and range, and what is fatal |
| `SnapshotLaws.SnapshotCut` | src/incremen.c:1232-1289 | a snapshot that is cut off anywhere is accepted if and only if it is cut behind a record, and then gives the records before the cut |
| `SnapshotLaws.RecordExample` | src/incremen.c:1423-1463 | concrete case: the bytes of one record |
| `SnapshotWriting.WriteAndRead` | src/incremen.c:1465-1491 | the writing loop and the reader together return every found directory |
| `DecimalText.ScanDigits` | src/misc.c:465-516 | each of the three digit loops finds the exact value and overflows exactly beyond its type |
| `DecimalText.Stoint` | src/misc.c:457-521 | the longest integer prefix, its exact value clamped to the range, and whether it was clamped |
| `TextLaws.IntSyntax` | src/misc.c:457-521 | digits, with a minus sign if the type is signed, denote their value, cut down to the range |
| `TextLaws.NoInt` | src/misc.c:457-521 | any other text is no integer |
| `TextLaws.IntForm` | src/misc.c:402-415 | integers are written with their sign and without leading zeros |
| `DecimalText.SysIntToStrIsDecimal` | src/misc.c:402-415 | prints the value that was converted to uintmax_t, negative ones included |
| `DecimalText.StointInvertsSysIntToStr` | src/misc.c:402-521 | stoint returns exactly what sysinttostr printed, for every type range and whatever non-digit follows |
| `Timestamps.DecodeTimespec` | src/misc.c:580-624 | the exact floor to nanoseconds of any signed decimal with any number of fraction digits, or out of range exactly when its second does not fit |
| `TextLaws.NumeralSyntax` | src/misc.c:580-624 | whole digits, a dot and a fraction of any length, with or without a sign, denote all digits together over a power of ten |
| `TextLaws.WholeNumeralSyntax` | src/misc.c:580-624 | without a fraction the numeral ends with the whole digits |
| `TextLaws.HalfSecondBefore` | src/misc.c:555-578 | concrete case: half a second before the epoch |
| `Timestamps.CodeNsFraction` | src/misc.c:527-553 | nine digits without trailing zeros, or nothing for zero |
| `Timestamps.CodeTimespec` | src/misc.c:555-578 | the decimal text of seconds plus nanoseconds, between -1 and 0 with a minus sign of its own |
| `Timestamps.DecodeInvertsCode` | src/misc.c:555-624 | decode_timespec returns every valid time stamp that code_timespec printed, the minimum second included |
| `PathNames.SlashLen` | src/misc.c:270-277 | the length of the run of slashes |
| `PathNames.DotSlashLen` | src/misc.c:284-291 | the length of the run of redundant dot components |
| `PathNames.NormalizeFilename` | src/misc.c:299-332 | the array is rewritten in place, with the read index never behind the write index, to the normal form of its string |
| `PathComponents.NormalIsCanonical` | src/misc.c:299-332 | the normal form is the root marker and the components other than a redundant dot joined by single slashes |
| `PathComponents.NormalKeepsComponents` | src/misc.c:299-332 | absoluteness and the sequence of components are kept |
| `PathComponents.NormalTidy` | src/misc.c:299-332 | no double slash, no redundant dot and no trailing slash are left |
| `PathComponents.NormalIdempotent` | src/misc.c:299-332 | normalising twice is normalising once |
| `PathComponents.NormalExamples` | src/misc.c:299-332 | concrete cases with doubled slashes, dots and a parent directory |

## Left out

- Extended headers of POSIX archives (src/xheader.c): reading stops at them, and PAX sparse members take their real size and name as given.
- ReadAnd: covers archives without POSIX extended headers and without sparse extension blocks, which the source consumes and the model takes for data or headers; owner and group names are not decoded, as with numeric owners.
- ToChars: does not model the substitution of user and group ids that do not fit; such a value is refused.
- WriteGnuLong: owner and group names of the long-name and long-link headers are left zero, as with numeric owners.
- WriteHeader: builds the header in an array of its own and copies it into the record, where the source builds it in the record; owner names and device numbers are left zero.
- DumpFile: reads a file that does not change while it is dumped; a file that shrinks is padded by an error path that is not modelled.
- CodeTimespec: takes the buffer as large enough, as its caller provides it.
- ScanBase64: base-64 numbers are decoded only; the source has no writer for them.
- ShortRead: the warning about the record size on devices is not modelled.
- BeginMember: one member is tracked at a time; several members in the record that is being re-buffered are not modelled.
- Close: requires that the loop ends; on other media it does not, as CloseForever shows.
- TryNewVolume: names in continuation headers are compared by identity, and a volume that is refused ends the run where the source asks for another one.
- GnuFlushWrite: a new volume always becomes available; prompts, volume scripts and volume labels with numbers are not modelled, and a short write ends on a block boundary.
- ScanFileRaw: reads a file that does not change; the scan with SEEK_HOLE and SEEK_DATA and the shortcut for files without blocks are not modelled.
- ExtractRegion: states the blocks consumed, not dumped_size, which grows by the whole space available; write errors are not modelled.
- AddSparseEntry: the check for a negative archive_file_size is left out, since read_header refuses such a size.
- OldgnuDumpHeader: takes the header as start_header left it.
- PaxSparseRoundTrip: takes the header block as given.
- DeleteArchiveMembers: follows a run up to a POSIX extended header, or up to the stale blocks that are copied when a kept member is cut off; sparse extension blocks, the option to ignore zero blocks, and deletion as a filter from standard input to standard output are not modelled; a regular file gives all the bytes it has to one read.
- Updater.FlushRead: folds short_read into the read, since on a regular file its further reads find nothing.
- StoreRename: names are those that safer_name_suffix leaves unchanged, and dir_name is taken for names without doubled slashes.
- ProcessRenames: names are not nested in one another, mkdtemp succeeds, and a rename onto any directory but the fresh temporary one counts as a failure.
- StoreAndReplay: one start of a chain or cycle; how the flag that marks starts is set is not modelled.
- ReadIncrDb2: the hash tables of note_directory are not modelled; formats 0 and 1 of the snapshot file are not read.
- WriteAndRead: the first line of the file, which names the program and the format, is not written, and the order of directories is the caller's.
- NormalizeFilename: the prefix of the current directory that normalize_filename adds is not part of it.
- Star sparse headers and PAX sparse formats 0.0 and 0.1 (src/sparse.c): they would repeat the two maps with other field positions.
- Devices and directories as members to be written: they are headers without data. How hard links are found is not modelled.
- Comparison, update, extraction to a file system, name matching, transformations and option handling: they rest on the operating system or hold no deep property.
- 64-bit off_t, intmax_t and uintmax_t are assumed; record and file sizes are unbounded unless a member says otherwise.
