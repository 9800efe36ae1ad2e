# vs-source DVD titles, modelled in Dafny

This project models how vs-source turns a DVD's IFO tables into titles. It covers:

- **Decoding the IFO tables.** VIDEO_TS.IFO gives the title table. Each VTS_xx_0.IFO gives the program chains, cell playback and position records, the chapter table, the cell address table and the VOBU address map. Reading goes through a sector-pointer cursor.
- **Resolving a title (`IsoFileCore.get_title`).**
  - Locate the title's program chain.
  - Walk its cells, keeping only the cells of the requested angle, and flag the cells that start chapters.
  - Find where the cell changes in the per-frame cell tags.
  - Compute the chapter frame list, patching its end to the last frame.
  - Name the audio streams.
- **The split engine.** `Title.split`, `Title.split_range` and `SplitHelper` check the split points, slice the video between chapter marks, and rebase each piece's chapter list.
- **Sector and frame-range bookkeeping.**
  - A title's cells map to the sectors of the cell address table.
  - The per-frame cell tags of a D2V index map to runs of frame numbers (`_d2v_vobid_frameset`).
  - Those runs give the frame ranges a title takes.
- **The pure-Python `dump_ac3` demultiplexer.** It reads the VOB files sector by sector and keeps the sectors of the title's cells. It then parses MPEG-2 pack headers and PES packets and writes out the AC-3 payload of the chosen private-stream-1 substream.
- **The legacy `parsedvd` IsoFile.**
  - Chapter frame lists from cell playback times.
  - Per-title clips cut from the disc clip, with the menu at the front.
  - The joined clip and chapter list.
  - `get_title`'s chapter selection.

A video clip is modelled as its sequence of frames (`seq<F>`). Python's list indexing, with negative indices, is modelled by `PyOps.PyAt`, which returns `None` for an `IndexError`. Slicing, which clamps, is `PyOps.PySlice`. A Python exception or failed `assert` becomes the `Failure` case of a `Result`.

The modules follow the program's structure:

- `Wrappers`, `PyOps`, `Bytes` and `Sector` are shared foundations. `Sector` is the `SectorReadHelper` cursor.
- `IfoRecords` and `Ifo` model `ifo.py`.
- `Resolve` models `get_title`.
- `Split` models the split engine.
- `Sectors` models the sector and frame-range helpers.
- `Demux` models `dump_ac3`.
- `Legacy` models `parsedvd/IsoFile.py`.

Where the code does something step by step, it is a method with loop invariants, proved equal to a specification function. The properties are then proved about that function. This applies to:

- the cursor reads and table loops;
- the angle walk;
- the chapter loop;
- the frameset builder;
- the demultiplexer loop;
- the legacy `split_titles`.

The legacy object whose lists are shared and mutated is a class (`Legacy.IsoFile`). Its chapter lists are objects (`Legacy.ChapterList`).

Where the design notes and the code disagree, the model follows the code. The notes say the pieces of a split put back together give the whole title. In the code, each piece runs from its first chapter mark up to, but not including, its last one. Because the last chapter mark is the title's last frame, that frame belongs to no piece. `Split.SplitPiecesContiguous` proves what the code does: the pieces put together are the frames from the first mark up to the last mark, excluding the last mark.

## Model

| member | source | states |
|---|---|---|
| Bytes.BEOfToBE | vssource/formats/dvd/parsedvd/ifo.py:24 | a value that fits in `w` bytes, written big-endian and read back as an unsigned field, is unchanged |
| Bytes.ToBEOfBE | vssource/formats/dvd/parsedvd/ifo.py:24 | any run of bytes, read as an unsigned big-endian field and written back in as many bytes, is unchanged |
| Sector.SectorReader.Seek | vssource/formats/dvd/parsedvd/ifo.py:15 | the cursor moves to the given absolute offset |
| Sector.SectorReader.Tell | vssource/formats/dvd/parsedvd/ifo.py:60 | returns the cursor's offset without moving it |
| Sector.FieldAt | vssource/formats/dvd/parsedvd/ifo.py:24 | a big-endian field of `w` bytes exists exactly when it fits in the file; its value re-encodes to those very bytes |
| Sector.SectorReader.UnpackByte | vssource/formats/dvd/parsedvd/ifo.py:24 | reads the field at the cursor as `FieldAt` does and advances the cursor by its width, or fails as truncated |
| Sector.SectorReader.UnpackBytes | vssource/formats/dvd/parsedvd/ifo.py:212 | takes exactly the next `n` bytes and advances by `n`, failing exactly when fewer remain |
| Sector.ChunkAt | vssource/formats/dvd/parsedvd/ifo.py:163 | chunk `i` of a repeated read is the `i`-th consecutive slice of `size` bytes |
| Sector.ChunksAt | vssource/formats/dvd/parsedvd/ifo.py:163 | a repeated read succeeds exactly when all `count` chunks fit, and yields `count` of them |
| Sector.SectorReader.UnpackChunks | vssource/formats/dvd/parsedvd/ifo.py:163 | the loop reading `count` chunks equals `ChunksAt` and advances by `count * size` |
| Sector.SectorReader.ReadChunks | vssource/formats/dvd/parsedvd/ifo.py:95-97 | seeking to an offset and reading `count` records there equals `ChunksAt` at that offset |
| Sector.SectorPtr | vssource/formats/dvd/parsedvd/ifo.py:19 | a sector pointer is the 4-byte big-endian word times 2048, so always sector aligned; it exists exactly when the word fits |
| Sector.SectorReader.GotoSectorPtr | vssource/formats/dvd/parsedvd/ifo.py:19 | moves the cursor to `SectorPtr` of the pointer word |
| Sector.ReadAt | vssource/formats/dvd/parsedvd/ifo.py:212 | a file read gives at most `n` bytes: exactly the next `n` when they exist, nothing past the end |
| Sector.SectorReader.Read | vssource/formats/dvd/parsedvd/ifo.py:212 | reads as `ReadAt` does and advances by the number of bytes read |
| IfoRecords.BlockMode | vssource/formats/dvd/parsedvd/ifo.py:116 | block mode is the top two bits of the flags byte, below 4 |
| IfoRecords.BlockType | vssource/formats/dvd/parsedvd/ifo.py:117 | block type is bits 5-4 of the flags byte, below 4 |
| IfoRecords.Bit | vssource/formats/dvd/parsedvd/ifo.py:113-115 | a flag holds exactly when its bit is set |
| IfoRecords.PlaybackFlagsRoundTrip | vssource/formats/dvd/parsedvd/ifo.py:113-117 | the flags byte built from the five cell flags decodes back to each of them |
| IfoRecords.GetTimespan | vssource/formats/dvd/parsedvd/ifo.py:233-242 | a playback time decodes exactly when the frame byte's top bits name a rate of `VTS_FRAMERATE` (PAL 0x01, NTSC 0x03), and keeps the four raw fields; otherwise a `ValueError` |
| IfoRecords.DecodeAudioControl | vssource/formats/dvd/parsedvd/ifo.py:77-82 | a stream is available exactly when bit 7 is set; its number is the low three bits |
| IfoRecords.AudioControlRoundTrip | vssource/formats/dvd/parsedvd/ifo.py:77-82 | encoding an audio control and decoding it gives it back |
| IfoRecords.TitleEntryRoundTrip | vssource/formats/dvd/parsedvd/ifo.py:24-32 | a title-table entry encodes to 12 bytes in the 1,1,2,2,1,1,4 layout, and decoding gives it back |
| IfoRecords.CellPositionRoundTrip | vssource/formats/dvd/parsedvd/ifo.py:101-102 | a cell position encodes to 4 bytes, and decoding gives back its VOB id and cell number |
| IfoRecords.CellAddressRoundTrip | vssource/formats/dvd/parsedvd/ifo.py:186-192 | a cell address entry encodes to 12 bytes, and decoding gives back VOB id, cell id and both sectors |
| IfoRecords.DecodeCellPlayback | vssource/formats/dvd/parsedvd/ifo.py:106-124 | a cell playback record decodes exactly when its playback time's frame rate is known |
| IfoRecords.CellPlaybackRoundTrip | vssource/formats/dvd/parsedvd/ifo.py:106-124 | a cell playback record encodes to 24 bytes, and decoding gives back all its flags, time and sectors |
| IfoRecords.LangType | vssource/formats/dvd/parsedvd/ifo.py:214 | the language type is bits 3-2 of the first byte |
| IfoRecords.AudioFormat | vssource/formats/dvd/parsedvd/ifo.py:215 | the audio format is the top three bits of the first byte |
| IfoRecords.DecodeAudioAttr | vssource/formats/dvd/parsedvd/ifo.py:211-227 | the language is the two characters at bytes 2-3 when a language type is set, else "xx"; a record too short for what is read fails |
| IfoRecords.AudioAttrRoundTrip | vssource/formats/dvd/parsedvd/ifo.py:211-227 | an audio attribute record encodes to 8 bytes, and decoding gives back format and language |
| IfoRecords.DecodeVideoAttr | vssource/formats/dvd/parsedvd/ifo.py:199-204 | MPEG version, video format and picture size are the named bit fields of the two bytes |
| Ifo.TableHeader | vssource/formats/dvd/parsedvd/ifo.py:61 | a table header (count, reserved, end) exists exactly when its 8 bytes fit |
| Ifo.ReadTableHeader | vssource/formats/dvd/parsedvd/ifo.py:61 | reading the 8-byte header equals `TableHeader` and leaves the cursor just past it |
| Ifo.CollectRecords | vssource/formats/dvd/parsedvd/ifo.py:65-72 | a counted record loop succeeds exactly when every record reads, and then yields one value per record, in order, after those already read |
| Ifo.CollectKeeps | vssource/formats/dvd/parsedvd/ifo.py:65-138 | a property every successfully read record has holds of every value the loop collects |
| Ifo.LoadIfo0 | vssource/formats/dvd/parsedvd/ifo.py:11-43 | loading VIDEO_TS.IFO equals its specification: it reads the 2-byte title-set count `num_vts` at 0x3E, failing on a truncated file, then the title table behind sector pointer 0xC4 |
| Ifo.ReadVtsiMat | vssource/formats/dvd/parsedvd/ifo.py:196-231 | reading the VTS attributes equals their specification: video attributes at 0x200, the audio count at 0x202 and that many 8-byte records |
| Ifo.ReadAudioAttr | vssource/formats/dvd/parsedvd/ifo.py:212-227 | one `read(8)` decodes audio record `k` and moves the cursor 8 bytes on, clamped at the end of the file as `read` is |
| Ifo.ReadAudioAttrs | vssource/formats/dvd/parsedvd/ifo.py:211-227 | the `num_audio` loop equals `Collect` over the audio records at 0x0204, failing with the first record that does not decode |
| Ifo.DecodePgcHeader | vssource/formats/dvd/parsedvd/ifo.py:73-93 | a program chain header carries exactly eight audio controls |
| Ifo.DecodePlaybacks | vssource/formats/dvd/parsedvd/ifo.py:106-124 | the cell playback records decode one to one, failing exactly when one of them fails |
| Ifo.PgcBody | vssource/formats/dvd/parsedvd/ifo.py:95-124 | a decoded program chain has as many position as playback records, as many as its cell count, and a program map of its program count |
| Ifo.PgcAt | vssource/formats/dvd/parsedvd/ifo.py:71-138 | a program chain read at its base offset is well formed |
| Ifo.ReadPgcBody | vssource/formats/dvd/parsedvd/ifo.py:95-124 | the seeks and reads of the program map, cell positions and cell playbacks equal `PgcBody` |
| Ifo.VtsPgc | vssource/formats/dvd/parsedvd/ifo.py:71-138 | reading one program chain equals `PgcAt` |
| Ifo.PgcEntry | vssource/formats/dvd/parsedvd/ifo.py:66-72 | the chain named by search-table entry `i` is well formed |
| Ifo.PgcPointer | vssource/formats/dvd/parsedvd/ifo.py:66 | search pointer `i` reads exactly when its 8 bytes fit, and its offset is the big-endian word in its second half |
| Ifo.ReadPgcPointer | vssource/formats/dvd/parsedvd/ifo.py:66 | reading the category and offset equals `PgcPointer` and advances the cursor to the next search pointer |
| Ifo.ReadPgcEntry | vssource/formats/dvd/parsedvd/ifo.py:66-126 | reading entry `i` equals `PgcEntry` and restores the cursor just past the entry |
| Ifo.PgcitSpec | vssource/formats/dvd/parsedvd/ifo.py:58-140 | every chain of the program chain table is well formed |
| Ifo.PgcsWellFormed | vssource/formats/dvd/parsedvd/ifo.py:65-138 | every program chain of a successful table walk is well formed |
| Ifo.VtsPgci | vssource/formats/dvd/parsedvd/ifo.py:58-140 | reading the program chain table equals `PgcitSpec` |
| Ifo.ReadPgcs | vssource/formats/dvd/parsedvd/ifo.py:65-138 | the loop over the search table reads entry after entry and equals the generic record loop `Collect` over `PgcEntry`, stopping at the first entry that fails |
| Ifo.VobuAdmap | vssource/formats/dvd/parsedvd/ifo.py:142-151 | reading the VOBU address map equals its specification: `(end + 1 - 4) // 4` 4-byte words |
| Ifo.VtsCAdt | vssource/formats/dvd/parsedvd/ifo.py:178-194 | reading the cell address table equals its specification: `(end + 1 - 6) // 12` entries |
| Ifo.PttTitles | vssource/formats/dvd/parsedvd/ifo.py:169-174 | the chapter table has one title per offset pair |
| Ifo.VtsPttSrpt | vssource/formats/dvd/parsedvd/ifo.py:153-176 | reading the chapter table equals its specification: corrected offsets, pairs of chapter pointers, and slices between consecutive offsets |
| Ifo.IfoXSpec | vssource/formats/dvd/parsedvd/ifo.py:46-56 | a decoded VTS IFO has an empty title table, its attributes, and well-formed chains |
| Ifo.LoadIfoX | vssource/formats/dvd/parsedvd/ifo.py:46-56 | loading a VTS IFO runs the five table readers in order and equals `IfoXSpec` |
| Resolve.TargetPrograms | vssource/formats/dvd/IsoFileCore.py:790 | a program is targeted exactly when its 1-based position is one of the title's program numbers |
| Resolve.Locate | vssource/formats/dvd/IsoFileCore.py:759-790 | fails for a title number outside the table, and for a multi-angle title without an angle; otherwise the entry, title set, chapter list and program chain are the ones indexed, all chapters share one chain, and their count is the entry's |
| Resolve.StartAfterIsLastBlockStart | vssource/formats/dvd/IsoFileCore.py:800-821 | the angle block start seen before cell `k` is the last cell before `k` that starts a block or stands alone |
| Resolve.TakenCellsExactly | vssource/formats/dvd/IsoFileCore.py:800-821 | the taken cells are, in increasing order, exactly the cells outside angle blocks and those of the requested angle |
| Resolve.ChapterFlagOf | vssource/formats/dvd/IsoFileCore.py:820 | a taken cell is flagged as a chapter exactly when its block start is a targeted program |
| Resolve.WalkStep | vssource/formats/dvd/IsoFileCore.py:800-821 | one more cell extends the taken list exactly when that cell is taken |
| Resolve.VisitCell | vssource/formats/dvd/IsoFileCore.py:804-816 | one loop step updates the current angle and block start as the specification does and decides whether the cell is taken |
| Resolve.WalkFailsGrows | vssource/formats/dvd/IsoFileCore.py:800-821 | once the angle walk has hit a cell it cannot classify, every longer walk fails too |
| Resolve.CellKeys | vssource/formats/dvd/IsoFileCore.py:816 | the taken cells map one to one to the (VOB id, cell id) keys of their position records |
| Resolve.ChapterFlags | vssource/formats/dvd/IsoFileCore.py:820 | the taken cells map one to one to whether each starts one of the target programs |
| Resolve.TakeOneMore | vssource/formats/dvd/IsoFileCore.py:814-820 | taking one more cell appends its key and its chapter flag and changes nothing before |
| Resolve.WalkOutcome | vssource/formats/dvd/IsoFileCore.py:795-822 | the walk ends in IndexError when the position records outlast the playback records, in TypeError at the first unclassifiable cell, and otherwise with the keys and flags of exactly the taken cells |
| Resolve.AngleWalk | vssource/formats/dvd/IsoFileCore.py:795-822 | the cell loop equals `WalkSpec`: taken cells and chapter flags, as many of each |
| Resolve.CellChangesExactly | vssource/formats/dvd/IsoFileCore.py:920-925 | the change points are, in increasing order, exactly the frames whose cell tag differs from the previous frame's |
| Resolve.Changes | vssource/formats/dvd/IsoFileCore.py:920-926 | the loop gives the change points followed by the last frame |
| Resolve.NextChapterIsFirst | vssource/formats/dvd/IsoFileCore.py:944-947 | the inner search finds the first chapter cell after `i`, or none |
| Resolve.NextChapter | vssource/formats/dvd/IsoFileCore.py:944-947 | the next chapter cell found lies strictly after the current one and inside the flag list |
| Resolve.ChapterMarksCount | vssource/formats/dvd/IsoFileCore.py:935-948 | there is one mark per chapter cell, and the mark of the `m`-th chapter cell is its own chapter mark |
| Resolve.OutputChapters | vssource/formats/dvd/IsoFileCore.py:929-948 | the chapter loop equals `ChapterMarks` |
| Resolve.FinishChapters | vssource/formats/dvd/IsoFileCore.py:981-986 | the list gets a leading 0 and its last entry replaced by the last frame; the patched end chapter is recorded exactly when that entry differed |
| Resolve.FinishedMarks | vssource/formats/dvd/IsoFileCore.py:929-986 | the finished chapter list has one entry per chapter cell plus one, starts at 0 when there is a chapter, ends at the last frame, holds each chapter cell's mark in order, and reports a patch exactly when the last mark was not the last frame |
| Resolve.AudioNameShape | vssource/formats/dvd/IsoFileCore.py:990-1002 | an available stream is never named "none"; it is named "ac3(...)" exactly when its format is 0 |
| Resolve.AudioNamesExactly | vssource/formats/dvd/IsoFileCore.py:988-1004 | naming fails exactly when an available stream has no attribute record; otherwise one name per control, "none" exactly for unavailable streams |
| Resolve.GetTitle | vssource/formats/dvd/IsoFileCore.py:744-1007 | resolving a title equals `TitleSpec`: located chain, angle walk, cell changes, chapters and audio names |
| Resolve.TitleChapters | vssource/formats/dvd/IsoFileCore.py:920-986 | one change point per taken cell; one chapter per flagged cell plus the start; the list ends at the last frame; each inner chapter is its cell's mark; the end is patched exactly when it differed |
| Resolve.MarkBefore | vssource/formats/dvd/IsoFileCore.py:944-948 | chapter marks of later chapter cells are never earlier |
| Resolve.MarksOrdered | vssource/formats/dvd/IsoFileCore.py:929-948 | the chapter marks never go down and lie among the change points |
| Resolve.FinishOrdered | vssource/formats/dvd/IsoFileCore.py:981-986 | the finished chapter list never goes down and lies between 0 and the last frame |
| Resolve.ChangesOrdered | vssource/formats/dvd/IsoFileCore.py:920-926 | the change points with the last frame never go down and lie within the node |
| Resolve.TitleChaptersOrdered | vssource/formats/dvd/IsoFileCore.py:920-986 | a title's chapter list is ordered and lies within its video |
| Split.CheckSplits | vssource/formats/dvd/IsoFileCore.py:626-635 | the split check passes exactly when the splits increase strictly above the floor and stay within the chapter count, giving one output more than splits; else an assertion error |
| Split.SanitizeSplitsAsWritten | vssource/formats/dvd/IsoFileCore.py:626-635 | the check as written starts its floor at -1, so it accepts any strictly increasing splits from 0 up to the chapter count |
| Split.SanitizeSplits | vssource/formats/dvd/IsoFileCore.py:626-635 | the check with the floor at 0 accepts exactly the splits the chapter splitter can serve |
| Split.BoundsOrdered | vssource/formats/dvd/IsoFileCore.py:637-645 | for accepted splits the cut bounds run from 0 to the last chapter index and never go down |
| Split.ChapterPieces | vssource/formats/dvd/IsoFileCore.py:509-528 | there is one chapter piece per output |
| Split.RebaseSnoc | vssource/formats/dvd/IsoFileCore.py:516 | each rebased mark is the mark minus the base, and rebasing one more mark extends the rebased list by that mark |
| Split.PieceAt | vssource/formats/dvd/IsoFileCore.py:509-528 | piece `k`'s chapters are the marks from bound `k` to bound `k + 1`, both included, rebased to the first |
| Split.CountInSorted | vssource/formats/dvd/IsoFileCore.py:518 | in sorted splits, those up to `i` come first |
| Split.CountInAll | vssource/formats/dvd/IsoFileCore.py:527 | accepted splits are all met by the end of the chapter list |
| Split.SplitStep | vssource/formats/dvd/IsoFileCore.py:515-520 | one loop step appends the rebased mark and starts a new piece exactly at a split |
| Split.SplitMarks | vssource/formats/dvd/IsoFileCore.py:509-527 | the split loop emits one finished piece per split point met, and for accepted split points ends in the state that `ChapterPieces` describes |
| Split.SplitChapters | vssource/formats/dvd/IsoFileCore.py:509-528 | no chapters is an `IndexError`; the length assertion holds exactly when every split is met; for accepted splits the result is `ChapterPieces` |
| Split.CutSplit | vssource/formats/dvd/IsoFileCore.py:637-654 | the cut succeeds exactly when every pair of bounds indexes the chapter list, and gives one cut per pair, in order |
| Split.CutPiece | vssource/formats/dvd/IsoFileCore.py:637-654 | for accepted split points every cut succeeds and each piece is the cut clip paired with its rebased chapter list |
| Split.BoundMarksOrdered | vssource/formats/dvd/IsoFileCore.py:637-645 | the cut positions (first chapter, the split chapters, last chapter) are ordered, within the clip, and start and end at the first and last chapter |
| Split.PiecesAreSlices | vssource/formats/dvd/IsoFileCore.py:115-151 | the pieces' videos are exactly the slices of the clip between consecutive cut positions |
| Split.PieceBetween | vssource/formats/dvd/IsoFileCore.py:509-528 | piece `k` is the clip between the chapters at its two bounds, with the chapters between them rebased to start at 0 |
| Split.SplitSpec | vssource/formats/dvd/IsoFileCore.py:115-151 | a split succeeds exactly when the title has chapters and every split lies strictly increasing in `1..len(chapters)`, giving one piece more than splits; splits the check as written refuses fail its assertion, a title without chapters fails its first cut with `IndexError`, and a split at 0 fails the assertion of `split_chapters` |
| Split.SplitTitleAt | vssource/formats/dvd/IsoFileCore.py:115-151 | `Title.split` without audio, running the split check as written, the cuts and `split_chapters` in order, equals `SplitSpec` |
| Split.CutsAsWritten | vssource/formats/dvd/IsoFileCore.py:637-654 | on a title with chapters every cut asked for by splits the check as written accepts exists, a split at 0 reading mark -1 as the last mark |
| Split.SplitPieceAt | vssource/formats/dvd/IsoFileCore.py:637-654 | piece `k` holds the frames between its two bounds' marks; its chapters start at 0 and end at its length, which added to its base is the next piece's start |
| Split.SplitPiecesContiguous | vssource/formats/dvd/IsoFileCore.py:115-151 | the pieces put together are the title from its first mark up to its last mark, without the last frame |
| Split.RangeVia | vssource/formats/dvd/IsoFileCore.py:158-179 | a range split is the split at `[t+1]`, `[f]` or `[f, t+1]`, taking its first or second piece |
| Split.RangePiece | vssource/formats/dvd/IsoFileCore.py:158-179 | a successful `split_range(f, t)` is the piece of the split at `f - 1` and `t` that starts at chapter `f - 1` and ends at chapter `t` (`t = -1` meaning the last) |
| Split.SplitRangeSucceeds | vssource/formats/dvd/IsoFileCore.py:158-179 | a range split succeeds exactly when the chapters `f..t` form a valid range, `t = -1` meaning the last |
| Split.SplitRangeFrames | vssource/formats/dvd/IsoFileCore.py:158-179 | a range split holds the frames from mark `f-1` to mark `t`, with those marks rebased as chapters |
| Split.SplitAtZeroSlipsThrough | vssource/formats/dvd/IsoFileCore.py:626-635 | split 0 passes the check as written, yet the chapter splitter never meets it, so its length assertion fails |
| Split.ZeroSplitMissed | vssource/formats/dvd/IsoFileCore.py:509-527 | every split list the check as written accepts and the corrected one refuses starts with 0, and `split_chapters` then closes fewer pieces than there are splits, so its assertion fails |
| Split.CountInDropZero | vssource/formats/dvd/IsoFileCore.py:515-521 | split point 0 is never met by the `(i + 1) in splits` test; only the later points count |
| Sectors.SectorRangesExactly | vssource/formats/dvd/IsoFileCore.py:1134-1139 | the ranges of a cell are exactly those of the table entries with its VOB id and cell id |
| Sectors.RangeSectorsExactly | vssource/formats/dvd/IsoFileCore.py:1128-1130 | the sectors of a range are `range(lo, hi + 1)`, none when `hi < lo`: a sector is listed exactly when it is inside one of the ranges, ends included |
| Sectors.CellSectorsExactly | vssource/formats/dvd/IsoFileCore.py:1128-1139 | a sector is in one cell's ranges exactly when a matching cell address entry encloses it |
| Sectors.AddRanges | vssource/formats/dvd/IsoFileCore.py:1128-1130 | the loop over ranges appends every sector of every range, in order |
| Sectors.SectorsExactly | vssource/formats/dvd/IsoFileCore.py:1126-1131 | a sector is listed exactly when some taken cell has a cell address entry (same VOB id and cell id) whose first and last sectors enclose it |
| Sectors.SectorsFromVobids | vssource/formats/dvd/IsoFileCore.py:1126-1139 | the nested loops equal `SectorsOf` |
| Sectors.RunsOfFirst | vssource/formats/dvd/IsoFileCore.py:1036-1040 | the first frame of a cell tag opens the run `[i, i]` |
| Sectors.RunsOfExtend | vssource/formats/dvd/IsoFileCore.py:1038-1040 | a frame right after the tag's last run extends that run |
| Sectors.RunsOfAppend | vssource/formats/dvd/IsoFileCore.py:1041-1042 | a frame after a gap opens a new run |
| Sectors.RunsOfOther | vssource/formats/dvd/IsoFileCore.py:1035-1042 | a frame of another tag leaves a tag's runs describing it |
| Sectors.RecordIndex | vssource/formats/dvd/IsoFileCore.py:1036-1042 | one loop step keeps the runs of the frame's tag exact: ordered, separated by gaps, covering exactly that tag's frames |
| Sectors.FramesetAt | vssource/formats/dvd/IsoFileCore.py:1036-1042 | after `i` tags, a key already in the frameset has the runs of its earlier tags, and a key not in it has not occurred before |
| Sectors.StoreIndex | vssource/formats/dvd/IsoFileCore.py:1035-1042 | recording tag `i` keeps the frameset equal to the runs of the first `i + 1` tags |
| Sectors.FramesetStep | vssource/formats/dvd/IsoFileCore.py:1035-1042 | one loop step keeps every tag's runs exact |
| Sectors.VobidFrameset | vssource/formats/dvd/IsoFileCore.py:1030-1044 | the frameset's keys are exactly the tags seen, and each key's runs are ordered, separated, and cover exactly its frames |
| Sectors.TitleFrameRanges | vssource/formats/dvd/IsoFileCore.py:844-850 | the frame ranges equal `FrameRangesSpec`: an error for an index with only the zero tag, else the runs of the taken cells in order |
| Sectors.TakenRunsPrefixFails | vssource/formats/dvd/IsoFileCore.py:849-850 | a taken cell missing from the frameset is a `KeyError` |
| Sectors.TakenRunsMissing | vssource/formats/dvd/IsoFileCore.py:849-850 | if any taken cell is missing, collecting the ranges fails |
| Sectors.TakenRunsCover | vssource/formats/dvd/IsoFileCore.py:842-850 | collecting succeeds exactly when every taken cell was indexed, and then a frame is covered exactly when its tag is one of the taken cells |
| Sectors.CoveredConcat | vssource/formats/dvd/IsoFileCore.py:850 | a frame is covered by concatenated runs exactly when one part covers it |
| Demux.ParseStep | vssource/formats/dvd/IsoFileCore.py:445-475 | a parsing step that consumes takes at least one and at most all buffered bytes |
| Demux.ParseStepShape | vssource/formats/dvd/IsoFileCore.py:445-475 | fewer than 4 bytes wait; a bad start code or unknown stream id is an assertion error; a pack header consumes 14 bytes; a PES packet consumes 6 plus its length, waiting until it is complete; only stream 0xBD emits data |
| Demux.ParseStepExtend | vssource/formats/dvd/IsoFileCore.py:445-475 | a step that does not wait is unchanged by bytes appended to the buffer |
| Demux.DrainBuffer | vssource/formats/dvd/IsoFileCore.py:442-475 | the inner loop equals `Drain`: it parses packets until the buffer is incomplete, collecting the chosen audio |
| Demux.PesFields | vssource/formats/dvd/IsoFileCore.py:462-467 | a serialised PES packet shows its start code, its id, its length and its body where the parser reads them |
| Demux.SubstreamAudio | vssource/formats/dvd/IsoFileCore.py:466-474 | the payload picked from a private-stream-1 body is the audio the packet carries for the chosen substream |
| Demux.ReadSubstream | vssource/formats/dvd/IsoFileCore.py:466-474 | reading the private-stream-1 payload equals `SubstreamPayload`: the audio after the 4-byte substream header when the substream id is `0x80 + audio_i`, nothing otherwise |
| Demux.ParseSerialized | vssource/formats/dvd/IsoFileCore.py:445-475 | parsing a serialised packet consumes exactly it and emits its audio |
| Demux.DrainPacket | vssource/formats/dvd/IsoFileCore.py:445-475 | the parse loop consumes a serialized packet whole, emits its audio, and continues with what follows |
| Demux.DrainSerialized | vssource/formats/dvd/IsoFileCore.py:445-475 | draining a stream of well-formed packets emits exactly their audio and keeps the incomplete tail |
| Demux.DrainStops | vssource/formats/dvd/IsoFileCore.py:445-465 | after draining, the next step would wait for more bytes |
| Demux.DrainAppend | vssource/formats/dvd/IsoFileCore.py:418-475 | draining more bytes equals draining what was there, then draining the rest with the leftover |
| Demux.ReadsPartial | vssource/formats/dvd/IsoFileCore.py:422-430 | a partial sector read happens exactly when some file's size is not a multiple of 2048 |
| Demux.ReadsFromStep | vssource/formats/dvd/IsoFileCore.py:420-430 | reading a whole sector continues in the same file, an empty read moves to the next file, and a short read ends the reads with the assertion failure |
| Demux.SectorSelected | vssource/formats/dvd/IsoFileCore.py:432-436 | the range search is true exactly when the sector lies in some range, ends included |
| Demux.InRangesConcat | vssource/formats/dvd/IsoFileCore.py:410-412 | a sector is in concatenated ranges exactly when it is in one part |
| Demux.InRangesOfCell | vssource/formats/dvd/IsoFileCore.py:410-412 | a sector is in a cell's ranges exactly when some matching table entry contains it |
| Demux.AllRangesExactly | vssource/formats/dvd/IsoFileCore.py:410-412 | a sector is selected exactly when a table entry of a taken cell contains it |
| Demux.AllRangesSelect | vssource/formats/dvd/IsoFileCore.py:410-436 | `dump_ac3` selects exactly the sectors `get_sectors_from_vobids` lists |
| Demux.CollectRanges | vssource/formats/dvd/IsoFileCore.py:410-412 | the loop over the taken cells collects the sector ranges of each, in order |
| Demux.DumpAc3 | vssource/formats/dvd/IsoFileCore.py:388-475 | the demultiplexer equals `DumpAc3Spec`: a non-AC-3 stream is refused, then the selected sectors are fed through the parser |
| Demux.FeedIsDrain | vssource/formats/dvd/IsoFileCore.py:420-475 | with whole sectors only, the output is the drain of the selected sectors' bytes |
| Demux.DumpAc3Stream | vssource/formats/dvd/IsoFileCore.py:388-475 | when the selected sectors hold well-formed packets, the output is exactly their audio for the chosen substream |
| Demux.DumpAc3ShortFile | vssource/formats/dvd/IsoFileCore.py:427-428 | a file whose size is not a multiple of 2048 makes the demultiplexer fail its assertion |
| Demux.FeedFailsAtPartial | vssource/formats/dvd/IsoFileCore.py:427-428 | a partial read anywhere in the input fails the feed |
| Legacy.CellCounts | parsedvd/IsoFile.py:103-115 | a chain yields `[0]` and one frame count per cell exactly when it has cells, all at one known rate; differing rates are the VFR `ValueError` |
| Legacy.AccumulateSteps | parsedvd/IsoFile.py:117-119 | running sums have one entry per value, start at the first value and add one value per step |
| Legacy.AccumulateNondecreasing | parsedvd/IsoFile.py:117-119 | running sums of non-negative steps never go down |
| Legacy.PgcChaptersShape | parsedvd/IsoFile.py:103-119 | a chain's chapter list has one entry per cell plus one, starts at 0, never goes down, and each step is one cell's frames |
| Legacy.ChapterLists | parsedvd/IsoFile.py:101-119 | one chapter list per chain, each one longer than its chain |
| Legacy.ChapterListsPrefixFails | parsedvd/IsoFile.py:103-108 | the chapter loop fails with the error of the first program chain whose cells do not share one frame rate |
| Legacy.CollectProgramChains | parsedvd/IsoFile.py:90-99 | the loop equals `ProgramChains`: every IFO's chains, dropping the first of each when there are several IFOs |
| Legacy.CollectChapterLists | parsedvd/IsoFile.py:101-119 | the loop equals `ChapterLists`, failing at the first bad chain |
| Legacy.DurationsShape | parsedvd/IsoFile.py:64 | the title starts, one per title plus the end, begin at 0, never go down, and each is the previous one plus that title's length |
| Legacy.DurationBounds | parsedvd/IsoFile.py:64 | the title start offsets are non-negative and non-decreasing, bounded by the last |
| Legacy.SplitClipsBetween | parsedvd/IsoFile.py:67-70 | title clip `i` is the clip after the menu cut between the `i`-th and `i + 1`-th offsets |
| Legacy.CutsConcat | parsedvd/IsoFile.py:64-70 | the clips cut between consecutive ordered offsets concatenate back to the body between the first and last offset |
| Legacy.TitleClipAt | parsedvd/IsoFile.py:66-70 | title `i`'s clip is the disc clip after the menu from title `i`'s start to title `i + 1`'s |
| Legacy.SplitClipsCounts | parsedvd/IsoFile.py:59-76 | clips and chapter lists stay equal in number; with a menu, the menu clip and `[0, menu]` are appended |
| Legacy.SplitClipsConcat | parsedvd/IsoFile.py:64-70 | the titles' clips together are the disc clip from the end of the menu to the end of the last title |
| Legacy.ShiftedShape | parsedvd/IsoFile.py:145-147 | shifted marks are at most as many as the marks, lie above the base, never go down, and end at base plus the list's last mark, or vanish when all marks are 0 |
| Legacy.JoinedNondecreasing | parsedvd/IsoFile.py:139-149 | the joined chapter list never goes down |
| Legacy.JoinedEnd | parsedvd/IsoFile.py:139-149 | the joined chapter list is at least as long as the first title's and ends at the sum of the titles' lengths |
| Legacy.JoinedTwoTitles | parsedvd/IsoFile.py:139-149 | two 100-frame titles join to `[0, 100, 200]`, which is not the first title's `[0, 100]` |
| Legacy.IsoFile.GenJoinedChaptersAsWritten | parsedvd/IsoFile.py:139-151 | as written, the joined list is `split_chapters[0]` itself, which afterwards holds the joined list; the other titles' lists, the clips and the joined clip are unchanged |
| Legacy.IsoFile.ExtendFirst | parsedvd/IsoFile.py:141-147 | the loop extends the first list object in place until it holds the join of every title's list; it changes no other object |
| Legacy.ChapterList.Extend | parsedvd/IsoFile.py:145-147 | appends the non-zero entries of the next list, each shifted by the current last entry |
| Legacy.IsoFile.GenJoinedChapters | parsedvd/IsoFile.py:139-151 | the corrected generator builds a new joined list and leaves every title's list as it was |
| Legacy.GenJoinedClip | parsedvd/IsoFile.py:129-137 | the joined clip is the title clips one after the other |
| Legacy.IsoFile.SplitTitles | parsedvd/IsoFile.py:78-151 | `split_titles`, with the corrected joined-list generator, succeeds exactly when `TitlesSpec` does, and sets the chapter lists, clips, joined clip and joined list from it; when a chain's chapter list fails, it fails with that error before assigning anything |
| Legacy.NewChapterLists | parsedvd/IsoFile.py:127 | each title gets its own fresh chapter list object holding its chapters, no two shared; the file's chapter lists, read element by element, are then exactly the titles' lists |
| Legacy.IsoFile.InstallTitles | parsedvd/IsoFile.py:127-151 | the fields are set to the new lists and clips, and the joined list is built by the corrected generator; joining fails exactly when there is no title |
| Legacy.TitlesSucceed | parsedvd/IsoFile.py:78-151 | `split_titles` succeeds exactly when every chain's chapter list exists and there is a chain or a menu; then lists and clips match in number and no list is empty |
| Legacy.ChapterSelect | parsedvd/IsoFile.py:223-237 | chapter `c` is the frames between marks `c` and `c + 1`; one past the last picks the last again; negatives count from the end; beyond the list fails |
| Legacy.SpanSelect | parsedvd/IsoFile.py:238-253 | the span `(s, e)` is the frames from mark `s` to mark `e + 1`; `(None, None)` is the first to the last mark |
| Legacy.MarksSlice | parsedvd/IsoFile.py:238-253 | a contiguous run of valid chapter marks is itself valid |
| Legacy.ChapterClipsConcat | parsedvd/IsoFile.py:238-253 | the clips of chapters `s` to `e` concatenate to the clip between mark `s` and mark `e + 1` |
| Legacy.SpanIsChapters | parsedvd/IsoFile.py:238-253 | a span is its chapters' clips put together |
| Legacy.SelectAll | parsedvd/IsoFile.py:254-255 | a list argument gives one result per element, each that element's own selection (the whole clip for `None`, a nested list for a nested list), and fails with the first element that fails |
| Legacy.AllSucceed | parsedvd/IsoFile.py:255 | a list comprehension evaluated in order yields every value when all elements succeed, and otherwise the error of the first element that fails |
| Legacy.IsoFile.GetTitle | parsedvd/IsoFile.py:205-257 | a title index outside the split lists is an `IndexError` |
| Legacy.GetTitleIndex | parsedvd/IsoFile.py:214-216 | title `i` with no selection is its own clip; negative indices count from the last title; beyond the list fails |

## Left out

- `num_vts`, the title-set count at 0x3E of VIDEO_TS.IFO, is read only so that a truncated file fails; its value is not kept, since nothing in the modelled core reads it.
- Floating-point timing (`absolutetime`, timecodes, `AssumeFPS`), the rff modes and `apply_rff_video`/`apply_rff_array` are left out. `Resolve.GetTitle` takes the video and its per-frame cell tags after rff as inputs.
- The dvdsrc paths (`pydvdsrc`, `RawAc3`, `FullM2V`) are foreign calls; they are not part of this model.
- The D2V index, the indexer and mounting are outside the model. The per-frame cell tags of `_d2v_collect_all_frameflags` are an input of `Sectors.VobidFrameset`.
- `cut_array_on_ranges`/`cut_node_on_ranges` are not part of this model. `Sectors.TitleFrameRanges` stops at the frame ranges they are given.
- Reading the files is modelled as their contents. Opening, closing and writing them are left out, and so is the partial output file that `dump_ac3` leaves behind when it fails.
- `neo_dump_ac3`, `split_ac3`, `split_audio`, `_cut_fz_a` and the audio argument of `Title.split` work on audio nodes and float times; they are left out.
- `Split.SplitTitleAt`: returns the tuple of pieces even when there is only one. Python returns that single piece unwrapped, which changes no frames.
- The `print` diagnostics are left out.
- The dvdnav chapter cross-check is left out: `double_check_dvdnav` runs an external tool and compares its chapter times with `absolutetime`. It can raise where the model does not: a non-zero exit of the tool (`CalledProcessError`), a line of its output that is not a number (`ValueError`), or a chapter frame past the end of `absolutetime` (`IndexError`, IsoFileCore.py line 957). Only a missing tool is caught.
- `Legacy.IsoFile.SplitTitles`: runs the corrected joined-list generator `Legacy.IsoFile.GenJoinedChapters`, so `split_chapters[0]` keeps the first title's own list. The program, by `Legacy.IsoFile.GenJoinedChaptersAsWritten`, leaves the joined list in `split_chapters[0]` whenever there are two or more lists (two titles, or one title and the menu). A later `get_title(0, ...)` then cuts with the joined marks, which the model's `Legacy.IsoFile.GetTitle` does not do. See the Findings table.
- VapourSynth refuses an empty or out-of-range clip slice. The model returns Python's clamped slice instead.
- `pack_stuffing_length` is ignored by the code and by the model alike: a pack header always consumes 14 bytes.
- `isinstance` checks and `__repr__` are left out.
- The legacy `safe_index` trimming in `parsedvd/IsoFile.py` (lines 153-201) is left out, and so is its warning.
- The legacy frame-rate table `vts_ifo.FRAMERATE` belongs to pyparsedvd, which is not part of this model. It is the `framerate` parameter, mapping a code to the numerator of its rate.
- The legacy `get_title` calls `source()` and `split_titles()` lazily. `Legacy.IsoFile.GetTitle` assumes `split_titles` has already run.
- `Legacy.IsoFile.GetTitle`: its contract states only the index errors. The selection itself is stated by `Legacy.ChapterSelect`, `Legacy.SpanSelect` and `Legacy.GetTitleIndex`.
- `Sector.SectorReader` models the `SectorReadHelper` cursor, whose own source is not part of this model. Its behaviour follows the calls in `ifo.py`.

## Findings

| source | as written | input that shows it | evidently intended | confidence | as-written member | corrected member |
|---|---|---|---|---|---|---|
| vssource/formats/dvd/IsoFileCore.py:626-635 | `_sanitize_splits` starts `lasta` at -1, so split point 0 passes | splits `[0]` on a title with chapters: the check passes, and `split_video` then asks for the empty last cut `vnode[ch[-1]:ch[-1]]`, which VapourSynth refuses. The model clamps slices, so it gets past the cuts, and `split_chapters` then never meets split 0 and its length assertion fails. `Split.ZeroSplitMissed` shows this for every list with a 0. A title without chapters fails with IndexError first | split points start at 1, so a floor of 0; `Split.SplitSpec` succeeds exactly on what this corrected check accepts | not executed | Split.SanitizeSplitsAsWritten | Split.SanitizeSplits |
| parsedvd/IsoFile.py:139-149 | `__gen_joined_chapts` takes `split_chapters[0]` itself and extends it in place | two titles of 100 frames: `split_chapters[0]` becomes `[0, 100, 200]`, so `get_title(0, 1)` cuts frames 100-200 from a 100-frame clip | the joined list is a copy; the first title keeps `[0, 100]` | not executed | Legacy.IsoFile.GenJoinedChaptersAsWritten | Legacy.IsoFile.GenJoinedChapters |
