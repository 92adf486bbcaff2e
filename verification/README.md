# A verified model of IcebergDB's storage core

IcebergDB is a small storage engine. This project models its core in Dafny and proves what each
part is for:

* **The block log.** The writer cuts records into physical records with 7-byte headers that never
  cross a 4096-byte block. The reader is a buffer, an end-of-file flag and an assembler. Its
  imperative form is proved equal to a function of the file alone, and four promises are proved
  about that function: round trip, crash safety, seeking, and containment of damage, with exactly
  what is reported. A log that a second writer continues after a crash is read back as both wrote
  it.
* **CRC32C**, the polynomial division of section 12.1 of RFC 3720. The slicing-by-4 method is
  proved equal to dividing bit by bit, with the values that the standard gives, and a change
  confined to four bytes is proved to change the checksum.
* **The skip list**, as a heap of nodes with a link per level, proved to be a finite map whatever
  the heights. Insertion is also modelled as atomic steps beside any number of searching threads,
  and every search is proved to end, with the right result.
* **The segment index**, three nested skip lists, proved to be one map that is never overwritten.
* **The table**: an append-only file of statements, a sparse index into it, the segment index and
  a cache, proved to answer as the plain list of statements would.
* **The tablet**, tables by name, proved to keep every statement in the table it names.
* **The arena, the random generator and the limiter** that the others rest on.

What mutates in the repository is a class here, with its fields and loops; the specification
functions and the lemmas about them stand beside it. A file is a sequence of bytes. A reader of
a log file sees all of it; a reader of a table's file sees a prefix, because writes are buffered.
The result of `operator new` is a parameter of the arena's methods. `FLAGS_table_timestamp` and
`FLAGS_log_index_sparse_threshold` are parameters of a table. Offsets and file lengths of the log
stay below the largest `off_t`.

## What the proofs brought to light

* **A reader with an initial offset can report corruption in an intact log.** It starts at the
  beginning of a block. The first physical record before the offset comes back as a bad record,
  which ends resynchronization, so the continuations of a record that began before the offset
  are reported as fragments without a start. The comment at
  `ibdb/src/log/log_reader.h:70-73` says that they are skipped silently. `LogSeek.SeekReports`
  says exactly when this happens and `LogExamples.SpuriousReport` gives a log. The records that
  come back are right all the same.
* **A reader that has returned nothing skips again on every call**, relative to the descriptor's
  position (`ibdb/src/log/log_reader.cpp:67-71`). `end_of_buffer_offset_` then lags behind the
  file. The contract of `LogReader.Reader.ReadRecord` says by how much in every case, and
  `LogExamples.FallsBehind` gives a file.
* **Damage can go unreported.** A physical record of length 0 and type 0 counts as unused space
  before its checksum is looked at (`ibdb/src/log/log_reader.cpp:247-253`), and the rest of its
  block goes with it. `LogSilence.DamageReports` says exactly which damage is silent: that to an
  empty physical record whose type byte is now 0, unless the first physical record behind its
  block continues a record. `LogExamples.SilentDamage` gives a log that loses everything.
* **Type bytes 6 and 7 act as the reader's own codes** for end of file and bad record
  (`ibdb/src/log/log_reader.h:75-84`). `LogParse.EndsEarly` says that a call returns false with
  bytes left exactly when the reader has come to a physical record of type 6 that is wholly
  buffered, passes the checksum, and starts at or after the initial offset with bytes behind it.
  `LogExamples.TypeSixEnds` gives a file of which nothing is read.
* **`Put` stores first and parses afterwards.** When the timestamp is no number it returns false,
  and when a column is missing it throws, but the statement is in the file
  (`ibdb/src/storage/table.h:196-218`). `Tables.Table.Put` states the resulting log and index in
  each case.
* **`Tablet::Get` reports success with an empty text** when the table has no answer
  (`ibdb/src/tablet/tablet.h:234-239`), and the offset in a tablet's manifest leaves out
  statements whose `Put` threw although they are stored. `Tablets.Tablet.Get` and
  `Tablets.Tablet.Put` state both.
* **`AllocateAligned` adds alignment to the size without checking for wrap-around**
  (`ibdb/src/base/arena.cpp:58-63`). `Arenas.Arena.AllocateAligned` is right exactly outside
  `Arenas.Overflows`; inside it the range that it returns lies in no block.
  `Arenas.OverflowIsReached` gives an arena and a size.
* **`Limiter.Acquire` can fail while units are free**, when another failed attempt has not yet put
  its unit back. `Limiters.NeverTooMany` says exactly when an attempt succeeds, and
  `Limiters.FailsWhileFree` gives a run.
* **Reading a range of an empty table ends the program**: with no index entry the file name is
  empty, and opening it fails an assertion (`ibdb/src/storage/table.h:282-327`,
  `ibdb/src/storage/disk.h:284-291`). `Tables.Table.GetBatchData` and
  `Tablets.Tablet.GetStatements` say that this is the only way for them to end it.

## Preconditions taken from the source

* A table's messages start below 2^32 and are shorter than 2^31 - 1 (`Disk.Fits`), because
  positions are `uint32_t` and sizes are read into an `int` to which one is added
  (`ibdb/src/storage/disk.h:97`, `:239-241`; `ibdb/src/storage/table.h:75`). A range that is read
  ends at the last statement or earlier, unless the whole file is shorter than 2^32. No other
  limit is put on statements: what is not a legal statement is modelled, with the exception that
  `at` throws.
* `Insert` is called with keys that are not in the list (`ibdb/src/base/skiplist.h:373-375`).
* The file of statements is empty when its table is created, and so is the log file of a writer
  that is not told a length.

## Model

| member | source | states |
|---|---|---|
| Coding.EncodeFixed32 | ibdb/src/base/coding.h:8-17 | writes the four little-endian bytes at the front of the buffer and leaves the rest alone |
| Coding.EncodeFixed64 | ibdb/src/base/coding.h:19-32 | the same for eight bytes |
| Coding.LowestFirst | ibdb/src/base/coding.h:8-32 | the bytes of two words: the lowest comes first |
| Coding.RoundTrip32 | ibdb/src/base/coding.h:8-46 | decoding what was encoded gives the word back, whatever follows it |
| Coding.RoundTrip64 | ibdb/src/base/coding.h:19-59 | the same for 64-bit words |
| Coding.DecodeInjective32 | ibdb/src/base/coding.h:34-46 | byte strings that decode to one word agree in their first four bytes |
| Coding.NumberOfWord32 | ibdb/src/base/coding.h:8-46 | a number below 2^32 survives being stored as a 32-bit word |
| Coding.NumberOfWord64 | ibdb/src/base/coding.h:19-59 | a number below 2^64 survives being stored as a 64-bit word |
| Crc32c.Extend | ibdb/src/base/crc32c.cpp:279-322 | for every start value, byte string and address, the slicing-by-4 loops compute the bit-by-bit division |
| Crc32c.FeedDivides | ibdb/src/base/crc32c.cpp:282-303 | advancing the register byte by byte is dividing bit by bit |
| Crc32c.CrcConcat | ibdb/src/base/crc32c.h:10-13 | extending by one string and then another is extending by their concatenation |
| Crc32c.TableIsShift | ibdb/src/base/crc32c.cpp:8-271 | entry i of table k is the effect of k + 1 zero bytes on register i |
| Crc32c.OneByte | ibdb/src/base/crc32c.cpp:284-287 | one lookup in table 0 advances the register by a byte |
| Crc32c.FourBytes | ibdb/src/base/crc32c.cpp:288-295 | the four lookups of STEP4 advance the register by four bytes |
| Crc32c.Step1Feeds | ibdb/src/base/crc32c.cpp:284-287 | STEP1 takes one byte into the register |
| Crc32c.Step4Feeds | ibdb/src/base/crc32c.cpp:288-295 | STEP4 takes four bytes into the register |
| Crc32c.FeedInjective | ibdb/src/base/crc32c.cpp:284-287 | equal input never brings two different registers together |
| Crc32c.WindowInjective | ibdb/src/base/crc32c.cpp:288-295 | different strings of up to four bytes never bring one register to the same value |
| Crc32c.BurstDetected | ibdb/src/base/crc32c.cpp:279-322 | strings of one length that differ only inside four consecutive bytes have different CRCs |
| Crc32c.MaskUnmask | ibdb/src/base/crc32c.h:27-36 | masking and unmasking undo each other, in both orders |
| Crc32cVectors.ShiftIsByteStep | ibdb/src/base/crc32c.cpp:8-73 | a byte step of the register, by the literals of table 0 at the powers of two |
| Crc32cVectors.OfAllClear | ibdb/src/test/base/crc32c_test.cpp:14-15 | the CRC of 32 zero bytes is 0x8a9136aa |
| Crc32cVectors.OfAllSet | ibdb/src/test/base/crc32c_test.cpp:17-18 | the CRC of 32 bytes 0xff is 0x62a8ab43 |
| Crc32cVectors.OfShort | ibdb/src/base/crc32c.cpp:279-322 | the CRCs of a byte and of two different bytes |
| Crc32cVectors.Masks | ibdb/src/base/crc32c.h:27-30 | three stored forms, with rotated bits and without |
| Crc32cTables.TableLinear | ibdb/src/base/crc32c.cpp:8-271 | each table is linear, so eight entries determine it |
| Crc32cTables.Literals0 | ibdb/src/base/crc32c.cpp:8-73 | the literals of table 0 at the powers of two |
| Crc32cTables.Literals1 | ibdb/src/base/crc32c.cpp:74-139 | the literals of table 1 at the powers of two |
| Crc32cTables.Literals2 | ibdb/src/base/crc32c.cpp:140-205 | the literals of table 2 at the powers of two |
| Crc32cTables.Literals3 | ibdb/src/base/crc32c.cpp:206-271 | the literals of table 3 at the powers of two |
| LogFormat.WritableFile.Append | ibdb/src/log/format.h:146-154 | the file grows by exactly the bytes appended |
| LogFormat.SequentialFile.Read | ibdb/src/log/format.h:251-266 | returns the next bytes, as many as there are, and moves past them |
| LogFormat.SequentialFile.Skip | ibdb/src/log/format.h:268-273 | moves the position, past the end of the file too |
| LogFormat.LayoutLinked | ibdb/src/log/log_writer.h:105-151 | physical records follow one another and none crosses a block |
| LogFormat.HeaderPlace | ibdb/src/log/log_writer.h:114-130 | fewer bytes than a header are left unused, and only at the end of a block |
| LogFormat.AppendStores | ibdb/src/log/log_writer.h:105-178 | every physical record of the layout is in the file, where the layout says |
| LogFormat.TrailersAreZero | ibdb/src/log/log_writer.h:115-130 | the bytes between physical records are zero |
| LogFormat.LogFileGrows | ibdb/src/log/log_writer.h:105-151 | adding a record to a log gives the log of the longer list |
| LogFormat.ExtendedGrows | ibdb/src/log/log_writer.h:105-151 | the same for a file that held anything before |
| LogWriter.IbdbWriter.constructor | ibdb/src/log/log_writer.h:91-94 | a writer for an empty file |
| LogWriter.IbdbWriter.WithLength | ibdb/src/log/log_writer.h:96-99 | a writer that continues a file of any length |
| LogWriter.IbdbWriter.InitTypeCrc | ibdb/src/log/log_writer.h:84-89 | every type's precomputed value is the CRC of its byte |
| LogWriter.IbdbWriter.AddRecord | ibdb/src/log/log_writer.h:105-151 | the new contents depend on the old contents and the record only, not on the writer that wrote them |
| LogWriter.IbdbWriter.SkipTrailer | ibdb/src/log/log_writer.h:115-130 | the rest of a block that holds no header is filled with zeros |
| LogWriter.IbdbWriter.EmitPhysicalRecord | ibdb/src/log/log_writer.h:153-178 | appends header and payload of one physical record |
| LogWriter.IbdbWriter.FormatHeader | ibdb/src/log/log_writer.h:157-166 | the header holds the masked CRC of type and payload, the length and the type |
| LogReader.Reader.constructor | ibdb/src/log/log_reader.cpp:25-37 | the state of a new reader |
| LogReader.Reader.SkipToInitialBlock | ibdb/src/log/log_reader.cpp:43-64 | starts at the block that can hold the first wanted record |
| LogReader.Reader.ReportDrop | ibdb/src/log/log_reader.cpp:194-199 | reports unless the bytes lie before the initial offset, in 64-bit arithmetic |
| LogReader.Reader.ReadBlock | ibdb/src/log/log_reader.cpp:203-217 | the buffer is the next block, and a short read sets the end-of-file flag |
| LogReader.Reader.FillBuffer | ibdb/src/log/log_reader.cpp:201-226 | ends with a buffered header or with the file exhausted |
| LogReader.Reader.ReadBuffered | ibdb/src/log/log_reader.cpp:228-281 | parses the buffered header as the specification does, with every way to reject it |
| LogReader.Reader.ReadPhysicalRecord | ibdb/src/log/log_reader.cpp:201-283 | finds the physical record that the file has next, and consumes unread bytes on every file |
| LogReader.Reader.Assemble | ibdb/src/log/log_reader.cpp:84-180 | one turn of the assembler is one step of the specification |
| LogReader.Reader.ReadRecord | ibdb/src/log/log_reader.cpp:66-184 | terminates on every file, equals the specification, counts the consumed bytes up to a stated drift, and returns false only at the end of the file or at a record of type 6 |
| LogReader.Reader.Scan | ibdb/src/log/log_reader.cpp:73-184 | the loop takes physical records up to the one that completes a record |
| LogReader.Reader.Turn | ibdb/src/log/log_reader.cpp:80-180 | one turn of the loop brings the call nearer to the result of the specification, or ends with it |
| LogParse.ReadRecordTakes | ibdb/src/log/log_reader.cpp:66-184 | one call assembles a prefix of the stream of physical records |
| LogParse.ReadAllTakes | ibdb/src/log/log_reader.cpp:66-184 | call after call assembles the whole stream |
| LogParse.EndsEarly | ibdb/src/log/log_reader.cpp:154-161 | a call that returns false leaves bytes unread exactly when it has come to a valid physical record of type 6 that is not the last thing in the file |
| LogChunks.FieldsOf | ibdb/src/log/log_reader.cpp:228-233 | the reader's view of a header is what the writer put into it |
| LogChunks.NextStored | ibdb/src/log/log_reader.cpp:201-283 | the reader finds the physical record that the writer put there, or passes over it below the initial offset |
| LogChunks.DropBegins | ibdb/src/log/log_reader.cpp:194-199 | dropped bytes begin at the header of the bad record, and are reported just when that is not before the initial offset |
| LogChunks.NextCutOff | ibdb/src/log/log_reader.cpp:219-245 | a physical record that the file does not hold wholly is the end of the file |
| LogAssembly.TakeRecord | ibdb/src/log/log_reader.cpp:80-184 | a record is delivered just when all its physical records arrive |
| LogAssembly.TakeRecords | ibdb/src/log/log_reader.cpp:80-184 | the same for a whole log, in order and without anything else |
| LogSeek.FromBlock | ibdb/src/log/log_writer.h:114-125 | the physical records from a block boundary on follow each other as if the file began there |
| LogSeek.SkipsNothing | ibdb/src/log/log_reader.cpp:43-64 | no header lies between the block where reading starts and the initial offset |
| LogSeek.SkipPlace | ibdb/src/log/log_reader.cpp:43-64 | where reading starts for an initial offset, as a number |
| LogSeek.ReadBack | ibdb/src/log/log_reader.cpp:43-283 | any prefix of a log read from any offset gives exactly the records wholly in the prefix that start at or after the offset |
| LogSeek.SeekReports | ibdb/src/log/log_reader.cpp:90-99 | a log cut off anywhere and read from any offset causes no report, except exactly when a record is torn by an offset that is not where reading starts |
| LogTheorems.PlacedAt | ibdb/src/log/log_writer.h:105-151 | a record starts after the records before it, past any block trailer |
| LogTheorems.RoundTrip | ibdb/src/log/log_writer.h:96-178 | every list of records comes back, with the offset of each, and nothing is reported |
| LogTheorems.CrashSafety | ibdb/src/log/log_reader.cpp:154-161 | a byte prefix gives exactly the records wholly inside it, and nothing is reported |
| LogTheorems.Seek | ibdb/src/log/log_reader.cpp:271-278 | an initial offset gives exactly the records that start at or after it, with their offsets |
| LogResume.Resumed | ibdb/src/log/log_reader.cpp:102-131 | a log cut between physical records and continued by a new writer: the whole old records and then the new ones, byte for byte and with their offsets, and one report just when a fragment with payload was abandoned |
| LogResume.AbandonedIsPrefix | ibdb/src/log/log_reader.cpp:108-126 | the fragment that is reported is a prefix of the first record that is not wholly there |
| LogResume.IntactPrefix | ibdb/src/log/log_reader.cpp:80-184 | physical records that all arrive leave the payload of the open record in the assembler, and no report |
| LogDamage.ChecksumFails | ibdb/src/log/log_reader.cpp:255-259 | four altered bytes of a checksum, or of type and payload, fail the check |
| LogDamage.NextDamaged | ibdb/src/log/log_reader.cpp:234-269 | a damaged physical record costs the rest of its block, which is told as a bad length or as a checksum mismatch unless the record now looks like unused space |
| LogDamage.DamageContained | ibdb/src/log/log_reader.cpp:66-283 | damage to checksum, length, type or payload costs exactly the records with a physical record at or after the damaged one in its block; all others come back unaltered |
| LogSilence.DamageTold | ibdb/src/log/log_reader.cpp:66-283 | exactly the reports, with reasons and byte counts, that damage to one physical record causes |
| LogSilence.OrphansTold | ibdb/src/log/log_reader.cpp:133-146 | each continuation of a record whose start is missing is reported with its size, and nothing else |
| LogSilence.DamageReports | ibdb/src/log/log_reader.cpp:66-283 | damage causes no report exactly when the damaged physical record is empty and has type 0 now, and the first physical record behind its block, if any, does not continue a record |
| LogSilence.EmptyLayout | ibdb/src/log/log_writer.h:105-151 | a physical record without payload is a whole record or the first part of one |
| LogSilence.UpToDamage | ibdb/src/log/log_reader.cpp:80-184 | what arrives before the damage causes no report, and leaves a record open, with its payload so far, exactly when the damaged one would continue it |
| LogExamples.SpuriousReport | ibdb/src/log/log_reader.cpp:273-278 | an intact log for which a reader with an initial offset reports corruption |
| LogExamples.SilentDamage | ibdb/src/log/log_reader.cpp:247-253 | a log of which one altered byte loses every record while a checksumming reader reports nothing |
| LogExamples.TypeSixEnds | ibdb/src/log/log_reader.h:75-84 | a file that begins with a valid record of type 6: reading ends behind it, whatever follows |
| LogExamples.ForeignType | ibdb/src/log/log_reader.cpp:163-180 | a physical record of any other type is reported with its payload, and one of type 7 is passed over silently |
| LogExamples.SignedTypes | ibdb/src/log/log_reader.cpp:232 | type bytes from 128 on are read as numbers close to 2^32 |
| LogExamples.HeaderBytes | ibdb/src/log/log_writer.h:157-166 | the seven bytes of two headers |
| LogExamples.LengthBytes | ibdb/src/log/log_writer.h:157-166 | the length and type bytes of a fragment that fills a block |
| LogExamples.FallsBehind | ibdb/src/log/log_reader.cpp:67-71 | two calls after which the count of consumed bytes lags by a block |
| LogSession.WriteAll | ibdb/src/log/log_writer.h:91-151 | a writer that is recreated before any of the records leaves the log of all of them |
| LogSession.ReadAll | ibdb/src/log/log_reader.cpp:66-184 | calling ReadRecord until it returns false gives what the theorems are about, for every file and initial offset |
| LogSession.WriteAndRead | ibdb/src/log/log_writer.h:96-178 | reading gives back what was written, however often the writer was replaced |
| LogSession.WriteMore | ibdb/src/log/log_writer.h:96-151 | a new writer adds records to a file of any contents |
| LogSession.CrashAndGoOn | ibdb/src/log/log_reader.cpp:66-184 | reading after a crash and further writing, with the imperative reader and writer |
| Rng.Random.constructor | ibdb/src/base/random.h:20-25 | the seed is never one of the two that repeat |
| Rng.Random.Next | ibdb/src/base/random.h:26-46 | shifting, masking and one subtraction give the true remainder, without overflow |
| Rng.ClosedForm | ibdb/src/base/random.h:29-46 | after n calls the state is seed * 16807^n modulo 2^31 - 1, and never 0 |
| Rng.StepInRange | ibdb/src/base/random.h:32-34 | the state stays between 1 and 2^31 - 2 |
| Rng.StepInjective | ibdb/src/base/random.h:32-34 | no two states have the same successor |
| SkipLinks.LinkOneLevel | ibdb/src/base/skiplist.h:387-390 | linking one level keeps every other level and the lower ones linked |
| SkipLinks.FinishLinking | ibdb/src/base/skiplist.h:387-390 | once all its levels are linked, every level is the list with the new node |
| SkipLinks.LevelIsChain | ibdb/src/base/skiplist.h:385-390 | the links of level i run through exactly the nodes taller than i |
| SkipLinks.LevelsNest | ibdb/src/base/skiplist.h:385-390 | a higher level is a subsequence of every lower one |
| SkipLinks.UnlinkOneLevel | ibdb/src/base/skiplist.h:462-465 | unlinking one level keeps every other level |
| SkipLinks.FinishUnlinking | ibdb/src/base/skiplist.h:462-465 | once all its levels are unlinked, every level is the list without the node |
| SkipLinks.SearchStep | ibdb/src/base/skiplist.h:268-281 | a link either leads to a node below the key or passes over none that is |
| SkipLists.KeyAtSplit | ibdb/src/base/skiplist.h:405-409 | a key is in the list just when the first node not below it holds it |
| SkipLists.TableInserted | ibdb/src/base/skiplist.h:370-392 | the list with the new node is the map with the new entry |
| SkipLists.TableRemoved | ibdb/src/base/skiplist.h:453-467 | the list without the node is the map without its key |
| SkipLists.SkipList.constructor | ibdb/src/base/skiplist.h:352-365 | a new list is the empty map |
| SkipLists.SkipList.RandomHeight | ibdb/src/base/skiplist.h:324-334 | one level more for every draw in a row that is a multiple of 4, at most 12 |
| SkipLists.HeightIs | ibdb/src/base/skiplist.h:324-334 | the height is the number of the first draw that is no multiple of 4, or 12 |
| SkipLists.SkipList.FindGreaterOrEqual | ibdb/src/base/skiplist.h:262-283 | the first node not below the key, and its predecessor at every level in use |
| SkipLists.SkipList.FindEqual | ibdb/src/base/skiplist.h:395-415 | the node with the key, with the value that the map has; null if there is none |
| SkipLists.SkipList.Contains | ibdb/src/base/skiplist.h:417-425 | whether the map has the key |
| SkipLists.SkipList.Insert | ibdb/src/base/skiplist.h:368-392 | the map gains the entry, for every height drawn |
| SkipLists.SkipList.RaiseHeight | ibdb/src/base/skiplist.h:379-384 | above the tallest node the head precedes everything |
| SkipLists.SkipList.LinkLevel | ibdb/src/base/skiplist.h:387-390 | the two stores that link one level |
| SkipLists.SkipList.Remove | ibdb/src/base/skiplist.h:452-467 | the map loses the key, and the result says whether it had it |
| SkipLists.SkipList.UnlinkLevel | ibdb/src/base/skiplist.h:462-465 | the two stores that unlink one level |
| SkipConcurrent.WriterKeeps | ibdb/src/base/skiplist.h:370-392 | every atomic step of the inserting thread keeps the levels linked |
| SkipConcurrent.LoadKeeps | ibdb/src/base/skiplist.h:397-415 | every load by a searching thread keeps it on a node below its key |
| SkipConcurrent.StepKeepsInv | ibdb/src/base/skiplist.h:368-415 | every step of any thread keeps the invariant |
| SkipConcurrent.RunKeepsInv | ibdb/src/base/skiplist.h:368-415 | every state of every run meets the invariant |
| SkipConcurrent.SearchesAreCorrect | ibdb/src/base/skiplist.h:368-415 | no search reads an unset link, misses a key inserted before it began, or returns one that was not inserted |
| SkipProgress.LoadProgresses | ibdb/src/base/skiplist.h:400-414 | every load goes down a level, on to a later node, or returns |
| SkipProgress.RunProgresses | ibdb/src/base/skiplist.h:368-415 | over a run, no other thread sets a search back, and each load of its own brings it on |
| SkipProgress.SearchesEnd | ibdb/src/base/skiplist.h:397-415 | a search that has made more loads than its level and the nodes now in the list together has returned, with the right result |
| SkipProgress.InsertionGoesOn | ibdb/src/base/skiplist.h:379-390 | an insertion that has begun can always make its next step |
| SkipProgress.InsertionAdvances | ibdb/src/base/skiplist.h:379-390 | every step of an insertion leaves one step less |
| Slices.SliceOrder | ibdb/src/base/slice.h:67-79 | Slice::compare is a total order, and zero means equal bytes |
| Slices.FirstDifference | ibdb/src/base/slice.h:67-79 | the first different byte decides, and otherwise the length |
| Slices.TsOrder | ibdb/src/storage/segment.h:56-64 | the timestamp comparator is a total order |
| Segments.Segment.constructor | ibdb/src/storage/segment.h:104-116 | a new index is the empty map |
| Segments.Segment.BuildKeyIndex | ibdb/src/storage/segment.h:187-200 | a new key gets no timestamps; an existing key is left alone and reported |
| Segments.Segment.Contains | ibdb/src/storage/segment.h:123-125 | whether the map has the key |
| Segments.Segment.Put | ibdb/src/storage/segment.h:225-257 | records the offset below an existing key unless the timestamp has the value already |
| Segments.Segment.HaveTime | ibdb/src/storage/segment.h:234-240 | a new timestamp gets an index of its own |
| Segments.Segment.Get | ibdb/src/storage/segment.h:259-281 | finds the recorded offset, and nothing for any missing part |
| Segments.Segment.Remove | ibdb/src/storage/segment.h:151-158 | the key goes with everything below it |
| Segments.NeverOverwritten | ibdb/src/storage/segment.h:241-245 | over every run of operations, a recorded offset stays until its key is removed |
| Segments.Perform | ibdb/src/storage/segment.h:151-257 | any list of operations on the index leaves it at the map that the same operations on the map leave |
| Disk.LogFile.Append | ibdb/src/storage/disk.h:58-80 | appends offset, size and message, and moves the 32-bit position |
| Disk.LogFile.Sync | ibdb/src/storage/disk.h:82-84 | everything written becomes visible |
| Disk.LogFile.GetMessageOffset | ibdb/src/storage/disk.h:215-226 | the offset at a position, if eight bytes are visible there |
| Disk.LogFile.GetMessageSize | ibdb/src/storage/disk.h:255-268 | the size at a position, if it is visible |
| Disk.LogFile.GetMessage | ibdb/src/storage/disk.h:228-253 | the message at a position if it is wholly visible, and no message for a size that the signed variable cannot hold |
| Disk.MessageStored | ibdb/src/storage/disk.h:58-80 | the bytes between two message starts are the message |
| Disk.MessageDecodes | ibdb/src/storage/disk.h:58-80 | offset, size and bytes of a message decode to what was encoded |
| Disk.MessageBytes | ibdb/src/storage/disk.h:58-80 | the bytes of one message |
| Disk.ReadsMessage | ibdb/src/storage/disk.h:215-268 | reading at a message's start finds the message, as far as the visible part goes |
| Statements.JoinTokens | ibdb/src/base/utils.h:54-62 | the pieces hold no delimiter and join to the string that was split |
| Statements.TokensJoin | ibdb/src/base/utils.h:54-62 | splitting gives back the pieces that were joined |
| Statements.ParsesBack | ibdb/src/storage/table.h:213-218 | the decimal text of every 64-bit number parses to it, also behind a plus, and behind a minus to its negation modulo 2^64 |
| Statements.CStrKeeps | ibdb/src/storage/table.h:273 | rebuilding a string from a C pointer keeps it just when it holds no zero byte |
| Statements.ColumnsHold | ibdb/src/storage/table.h:219-226 | indexing the columns of a statement adds exactly its entries, up to an exception |
| Statements.StatementHolds | ibdb/src/storage/table.h:200-226 | a statement adds exactly the entries it carries, and changes none |
| Statements.FirstWriteWins | ibdb/src/storage/table.h:191-228 | the index of any list of statements maps every entry of an indexed key to the first statement that carries it |
| Tables.ReadColumns | ibdb/src/storage/table.h:192-218 | keys, values and timestamp of a statement, or the way that reading them fails |
| Tables.PutColumns | ibdb/src/storage/table.h:219-226 | the loop over the columns is the specification's, and an exception is thrown just when an indexed column has no value |
| Tables.SparseGrows | ibdb/src/storage/table.h:155-166 | there is an index entry for every multiple of the threshold and no other |
| Tables.NothingWraps | ibdb/src/storage/disk.h:78-97 | below the limits no 32-bit or 64-bit variable wraps around |
| Tables.Table.constructor | ibdb/src/storage/table.h:90-130 | a new table has the keys of its schema and no statements |
| Tables.Table.PutDisk | ibdb/src/storage/table.h:133-171 | file, position, sparse index and count are those of the longer list, and every thousandth statement is visible |
| Tables.Table.Put | ibdb/src/storage/table.h:191-228 | statements and index grow together, and the result tells success, a bad timestamp and an exception apart |
| Tables.Table.FindOffsetPosition | ibdb/src/storage/table.h:282-312 | the last index entry that is not behind the offset, with the file's name exactly if the table has a statement |
| Tables.Table.FindMessage | ibdb/src/storage/table.h:315-370 | finds the exact message just when it is wholly visible, visits at most as many messages as the threshold, and fails no assertion but the one that the file opens |
| Tables.Table.GetMessage | ibdb/src/storage/table.h:256-276 | the cache never changes an answer |
| Tables.Table.Get | ibdb/src/storage/table.h:239-277 | the answer for the index and the visible part of the file, whatever is cached |
| Tables.Table.GetBatchData | ibdb/src/storage/table.h:374-393 | the texts of the statements in the range, up to the first that cannot be read; a non-empty range of an empty table aborts |
| Tables.Table.Sync | ibdb/src/storage/table.h:395-401 | every statement becomes visible |
| TableTheorems.GetIsEarliest | ibdb/src/storage/table.h:239-277 | a get statement gets the first statement with its key, value and timestamp, and nothing else |
| TableTheorems.SyncedIsReadable | ibdb/src/storage/table.h:395-401 | after Sync every statement can be read |
| TableTheorems.Replay | ibdb/src/storage/table.h:374-393 | a batch of all statements gives them back just when none holds a zero byte |
| TableTheorems.PutColumnsParsed | ibdb/src/storage/table.h:189-218 | a put statement in the documented form has the columns that were written, and its timestamp stands in the first column of that name |
| TableTheorems.PutParsed | ibdb/src/storage/table.h:192-218 | the same for any values: which column is the timestamp, and when there is none or it is no number |
| TableTheorems.PutCarries | ibdb/src/storage/table.h:203-226 | such a statement carries exactly its columns that have a value, under its timestamp |
| TableTheorems.PutOutcomes | ibdb/src/storage/table.h:191-228 | when Put succeeds, returns false, and throws |
| TableTheorems.StoredIsIndexed | ibdb/src/storage/table.h:219-228 | Put succeeds just when the index then has an entry for every indexed column |
| TableTheorems.NotANumber | ibdb/src/storage/table.h:213-218 | the texts that are no timestamp |
| TableTheorems.SomeNumbers | ibdb/src/storage/table.h:213-218 | the numbers of two texts |
| TableTheorems.RangeIsKept | ibdb/src/storage/table.h:374-393 | a batch of a range gives back its statements just when none holds a zero byte |
| TableTheorems.Indexed | ibdb/src/storage/table.h:101-109 | exactly the key fields of the schema are indexed |
| TableSession.PutAll | ibdb/src/storage/table.h:191-228 | a run of puts and a Sync: the log is extended by the statements and wholly visible |
| TableSession.PutUnsynced | ibdb/src/storage/table.h:147-152 | without a Sync, at most the last 999 statements are out of a reader's sight |
| TableSession.Copy | ibdb/src/storage/table.h:374-393 | a new table filled from a batch of all statements of another answers every get statement as the other does |
| Tablets.ReadSchema | ibdb/src/tablet/tablet.h:102-116 | the columns of a create statement, or the exception that a missing part throws |
| Tablets.Tablet.constructor | ibdb/src/tablet/tablet.h:39 | a tablet without tables |
| Tablets.Tablet.Create | ibdb/src/tablet/tablet.h:93-123 | makes an empty table for a new name, and nothing otherwise |
| Tablets.Tablet.Put | ibdb/src/tablet/tablet.h:159-186 | the named table gains the statement, no other table changes, and the manifest counts it unless an exception is thrown |
| Tablets.Tablet.Get | ibdb/src/tablet/tablet.h:219-240 | the text of the first statement that carries the entry, if the key is indexed and the statement visible, and otherwise an empty text; no table changes |
| Tablets.ResultAnswers | ibdb/src/tablet/tablet.h:219-240 | the same for every list of statements |
| Tablets.Tablet.GetStatements | ibdb/src/tablet/tablet.h:245-256 | as much of a range of the named table's statements as can be read; a non-empty range of an empty table aborts |
| Tablets.Tablet.Untouched | ibdb/src/tablet/tablet.h:67-70 | writes to one table's objects leave every other table as it was |
| TabletSession.FieldParsed | ibdb/src/tablet/tablet.h:102-116 | name and key flag of a column in the documented form |
| TabletSession.CreateOutcomes | ibdb/src/tablet/tablet.h:93-123 | when a create statement makes a table, fails, and throws |
| TabletSession.PutResults | ibdb/src/tablet/tablet.h:159-186 | when a put statement succeeds, fails, and throws; a timestamp that is no number counts as success |
| TabletSession.PutAndGet | ibdb/src/test/tablet/tablet_test.cpp:51-104 | the first statement of a table is the answer for each of its indexed columns |
| Arenas.Arena.AllocateNewBlock | ibdb/src/base/arena.cpp:25-35 | a new block, counted with its size and one pointer |
| Arenas.Arena.AllocateFallBack | ibdb/src/base/arena.cpp:37-50 | a large request gets its own block and leaves the current one; a small one replaces the current block by a new standard block, and at most 1030 bytes of the old one are wasted |
| Arenas.Arena.Allocate | ibdb/src/base/arena.h:36-45 | the range is apart from every range given out before and inside a block |
| Arenas.Arena.AllocateAligned | ibdb/src/base/arena.cpp:53-69 | the same, the address is a multiple of 8, and only the alignment is lost when the request fits; unless the size wraps around: then the range is in no block, and the ranges given out before stay apart |
| Arenas.Arena.MemoryUsage | ibdb/src/base/arena.h:31-33 | the sizes of all blocks plus 8 for each |
| Arenas.TakeFree | ibdb/src/base/arena.cpp:60-63 | cutting a range off the free part keeps all ranges apart |
| Arenas.NewBlock | ibdb/src/base/arena.cpp:25-50 | a new block is apart from everything given out |
| Arenas.OverflowLeavesBlocks | ibdb/src/base/arena.cpp:56-63 | when the size wraps around, the returned range is in no block |
| Arenas.OverflowIsReached | ibdb/src/base/arena.cpp:56-63 | an arena after one request, and a size that wraps around there |
| Arenas.TwoBlocks | ibdb/src/base/arena.cpp:25-50 | the blocks, the rest and the memory count after two requests around the limit of 1024 bytes |
| Limiters.StepKeepsInv | ibdb/src/log/format.h:215-230 | every atomic step keeps counter, resources held and failed attempts in balance |
| Limiters.StepEffects | ibdb/src/log/format.h:215-230 | what each step does to the counter, to what is held and to the failed attempts |
| Limiters.NeverTooMany | ibdb/src/log/format.h:215-230 | under every interleaving the threads hold at most the maximum, and an attempt succeeds just when held resources and failed attempts are below it |
| Limiters.FailsWhileFree | ibdb/src/log/format.h:215-230 | a run after which an attempt fails although nothing is held |

## Left out

- The 1024 table literals of CRC32C are not copied: the tables are given by their recurrence, and the literals at the powers of two, which determine the rest, are proved.
- Input and output errors, short reads, `fsync` failures and the `Status` texts: files never fail.
- LogReader.Reader.ReadRecord: for a reader with an initial offset that a record of type 6 stopped before it returned a record, what further calls return is not stated, because the buffer no longer matches the offsets that the reader counts; termination and the drift are.
- LogReader.Reader.ReportDrop: the reporter is a list of reasons and byte counts; nothing is proved about the byte counts when they exceed the bytes read.
- LogDamage.DamageContained: a damaged length counts when it runs past the end of a whole block; any other is a matter of which bytes the stored checksum then covers.
- LogResume.Resumed: the first writer dies between two physical records; what a reader makes of one that was cut through and written over depends on the new bytes.
- LogFormat.SequentialFile.Read: one call returns everything there is, so retries after an interrupted system call are not modelled.
- SkipLists.SkipList.Remove: sequential only; it unlinks from the lowest level up and clears the node's links, so a search beside it is not covered.
- SkipConcurrent.SearchesAreCorrect: each load and store is one atomic step; weaker memory orders are not modelled, and the search for the insertion point is part of the first step.
- `SkipList::FindLast`, `FindLessThan`, `Iterator`, the unused `tail_` node and the placement of nodes in the arena.
- Tables.Table.PutDisk: called alone, outside `Put`, it adds a statement that is not indexed; its contract says so by promising the state of the disk only.
- Tables.Table.FindOffsetPosition: there is only ever the file `00000000.log`; the loop over files is kept, with that as an invariant.
- The handles that `log_reader_map_` keeps open, the index file that is never written, manifests, protobuf, logging and the recovery constructors of tables and tablets.
- The responses of a tablet's calls beyond success, failure and text, and the mutex around them.
- What nothing modelled calls: `Random::Uniform`, `OneIn` and `Skewed`, `LRUCacheMap::Remove`, the other members of `Slice`, and the read methods of `RandomAccessFile`.
- Segment's unused counters and height parameter, and the memory that it never frees.
- ZooKeeper, brpc, the node service and the clients.
