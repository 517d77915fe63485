# Nest video recovery: a verified model of `VideoExtractor.extract`

The Nest video recovery tool reads the rows of `frame_raw_data_table` from a
Nest application's SQLite store and rebuilds video from them. This project
models the part of `VideoExtractor` that turns rows into files and names:

- **Per-frame mode** (`FrameMode`). The rows are folded into one byte buffer
  per recording chunk:
  - a row whose `gop_start_rowid` is -1 starts a buffer with PPS + SPS + frame bytes;
  - any other row appends its frame bytes;
  - `chunk_complete == 1` seals the buffer under a running counter;
  - a non-empty buffer left at the end is sealed under the current counter.

  The frame times of each chunk are kept in a second dictionary. A second
  GOP start before the chunk completes replaces the open buffer and its
  time list, so the earlier bytes and times are lost.
- **Whole-row mode** (`WholeRowMode`, `Extractor`). A row with a non-empty
  column 4 closes the open segment and opens a new one, seeded with columns
  5 + 4 + 6. Any other row appends column 6 and records column 0 as a time,
  unless that time is already recorded for the segment. The class
  `Extractor.VideoExtractor` runs this loop in place on its fields:
  - `rawvideos`, the written segment names;
  - `videotimes`, an insertion-ordered dictionary from file name to times;
  - `written`, the file writes, in order.
- **Timeline**. One document per key of `videotimes`, with its start time,
  end time and `.mp4` file name. The manifest `video_list.txt` has one line
  per document.
- **Converted names** (`Save`). `save()` names its converted files and builds
  the `|`-joined concatenation list from these names. Both use
  `video.split('.')[0]`, which cuts the whole path at its first '.'.
  - `Mp4NameAsWritten` and `ConcatList` model that expression, and the
    members named `AsWritten` or `ConcatList` state what it gives.
  - `Mp4Name` and `IntendedConcatList` model the evidently intended name,
    which replaces only the file's extension.
  - The two agree exactly when the output directory contains no '.'
    (`AsWrittenAgreesWithoutDots`, `AsWrittenDiffersWithDots`). The last
    section below lists the difference.

Each loop is a `method`, proved equal to a specification function (`Run`,
`ScanRows`, `Timeline`, `Manifest`). Its properties are then proved as
lemmas about that function:
- reassembly completeness, no byte dropped or duplicated: in whole-row
  mode for every input that does not raise; in per-frame mode for
  well-formed streams (a GOP start exactly at each chunk start);
- exactly where each mode raises;
- consecutive keys;
- the tail flush;
- the times recorded per segment;
- which rows make up each chunk and each segment;
- one timeline document per segment;
- recovery of the concatenation list by splitting it.

Python exceptions are modelled as error results:
- In per-frame mode, `None + frame_bytes` raises a TypeError. It becomes
  `Err(NoOpenBuffer(i))`. The KeyError case `NoTimestampList` is proved
  never to occur.
- In whole-row mode, `"" + row[6]` raises a TypeError on a leading
  continuation row. `ExtractVideos` then returns `None` with the fields
  unchanged.

## Model

| member | source | states |
|---|---|---|
| FrameMode.Step | tools/nest_video_recovery.py:56-73 | one loop body: a GOP start (gop_start_rowid == -1) makes the buffer PPS+SPS+frame and the counter's list [frame_time], discarding any open buffer; any other row appends its frame bytes and time, and fails when no buffer is open or the counter has no list; chunk_complete == 1 stores the buffer under the counter, clears it and increments the counter |
| FrameMode.StepFailure | tools/nest_video_recovery.py:65-66 | the TypeError of `None + frame_bytes` when no buffer is open, otherwise the KeyError of the missing list |
| FrameMode.Run | tools/nest_video_recovery.py:47-73 | the loop over all rows from no buffer, counter 0 and empty dictionaries; the error names the first row that raises |
| FrameMode.Flush | tools/nest_video_recovery.py:75-76 | `if videobuf:` a non-empty leftover buffer is stored under the current counter |
| FrameMode.Reassembly | tools/nest_video_recovery.py:47-76 | the two dictionaries the loop and the tail flush leave, or the loop's error |
| FrameMode.Reassemble | tools/nest_video_recovery.py:49-76 | returns exactly the per-frame dictionaries after the loop and the tail flush, or the error of the first row that raises |
| FrameMode.ReassembleRow | tools/nest_video_recovery.py:56-73 | one loop body agrees with the step function; it raises exactly for a continuation row with no open buffer; an open buffer always has its time list |
| FrameMode.ReassemblyStopsAtFailure | tools/nest_video_recovery.py:55-66 | once a prefix of the rows raises, the whole reassembly fails with that same error |
| FrameMode.GopStartReseeds | tools/nest_video_recovery.py:58-73 | a GOP-start row never raises; it replaces the buffer by PPS+SPS+frame and the counter's list by [frame_time]; on chunk_complete it seals under count and increments count |
| FrameMode.ContinuationAppends | tools/nest_video_recovery.py:64-73 | a continuation raises exactly when no buffer is open (or the list is missing); otherwise it appends frame bytes and the time verbatim, so the list grows by exactly one |
| FrameMode.RunReachable | tools/nest_video_recovery.py:55-73 | after any successful prefix: sealed keys are 0..count-1, count is the number of completed chunks, an open buffer has its list, and a buffer is open exactly when the last row did not complete its chunk |
| FrameMode.RunFailsAtFirstOrphan | tools/nest_video_recovery.py:58-66 | the loop succeeds iff no row is a continuation at a chunk start; otherwise it raises the TypeError at the first such row, and the KeyError never occurs |
| FrameMode.SealedKeysConsecutive | tools/nest_video_recovery.py:68-76 | the stored keys are exactly 0..n-1, with n the number of completed chunks, plus n when a non-empty buffer is open at the end; a run ending on a completed chunk adds no tail key |
| FrameMode.TailFlushKeepsBuffer | tools/nest_video_recovery.py:75-76 | a non-empty buffer open at the end is stored under the final counter |
| FrameMode.ReassemblyComplete | tools/nest_video_recovery.py:55-76 | for a well-formed stream the loop never raises, and the sealed buffers in key order are exactly the input's bytes in input order |
| FrameMode.ChunksFlatten | tools/nest_video_recovery.py:55-73 | the chunks a run is cut into (a new one at the first row and after each chunk_complete row) concatenate back to the rows, in order |
| FrameMode.ChunksShape | tools/nest_video_recovery.py:68-73 | every chunk is non-empty; chunk_complete == 1 occurs only on a chunk's last row, and on the last row of every chunk but the final one |
| FrameMode.RunHoldsChunks | tools/nest_video_recovery.py:55-73 | for a well-formed stream, after every prefix the state holds chunk k's bytes and frame times under key k, sealed or in the open buffer |
| FrameMode.ChunkContents | tools/nest_video_recovery.py:55-76 | for a well-formed stream the buffer stored under key k is exactly chunk k's bytes, every chunk with bytes is stored, and the list under k is exactly chunk k's frame times in row order |
| FrameMode.SecondGopStartDiscardsFirst | tools/nest_video_recovery.py:58-63 | two GOP starts with no completed chunk between them: the second overwrites the first under key 0 |
| FrameMode.ContinuationAfterCompletedChunkFails | tools/nest_video_recovery.py:65-73 | a continuation right after a completed chunk raises the TypeError at that row |
| WholeRowMode.AddTime | tools/nest_video_recovery.py:121-122 | `if row[0] not in times: times.append(row[0])` |
| WholeRowMode.Step | tools/nest_video_recovery.py:104-122 | one loop body: a row with non-empty row[4] closes the open segment (if any) and opens one with bytes row[5]+row[4]+row[6] and times [row[0]]; any other row appends row[6] and records row[0], and fails when no segment is open |
| WholeRowMode.ScanRows | tools/nest_video_recovery.py:99-122 | the loop over all rows from no open segment; none when some row raises |
| WholeRowMode.Tail | tools/nest_video_recovery.py:124-127 | `if videobuf:` the open segment is written only when its buffer is non-empty |
| WholeRowMode.Segments | tools/nest_video_recovery.py:99-127 | the segments written, in order: the closed ones, then the tail when it is written |
| WholeRowMode.AddTimeKeepsDistinct | tools/nest_video_recovery.py:121-122 | recording a time keeps the list duplicate-free and in first-seen order, and adds exactly that time |
| WholeRowMode.StepShape | tools/nest_video_recovery.py:104-122 | an opening row closes the open segment and opens one with row[5]+row[4]+row[6] and [row[0]]; a continuation raises iff nothing is open, and otherwise leaves the closed segments alone, appends row[6] verbatim and records row[0] unless already present |
| WholeRowMode.StepKeepsInvariant | tools/nest_video_recovery.py:103-122 | one row preserves the scan invariant: closed plus open bytes equal the input stream, and each segment begins with its opening row |
| WholeRowMode.ScanRowsInvariant | tools/nest_video_recovery.py:103-122 | every successful prefix satisfies the scan invariant |
| WholeRowMode.FailsOnlyOnLeadingContinuation | tools/nest_video_recovery.py:118-119 | the whole-row loop raises iff the first row is a continuation |
| WholeRowMode.SegmentsComplete | tools/nest_video_recovery.py:103-127 | the written segments concatenate to the input's bytes in order; there is one segment per opening row, starting with its seed bytes and its row[0]; every segment is non-empty with distinct times |
| WholeRowMode.ScanRowsGathers | tools/nest_video_recovery.py:103-122 | after every successful prefix, the i-th opened segment is built from the i-th group of rows |
| WholeRowMode.SegmentsAreGroups | tools/nest_video_recovery.py:103-127 | segment i's bytes are exactly group i's bytes in row order, and its time list is exactly group i's row[0] values in first-seen order, each once (an independently defined dedup) |
| WholeRowMode.GroupsFlatten | tools/nest_video_recovery.py:103-122 | the groups (a new one at each opening row) concatenate back to the rows, in order |
| WholeRowMode.GroupsShape | tools/nest_video_recovery.py:104-117 | every group is non-empty, has no opening row after its first, and every group but the first starts with an opening row |
| WholeRowMode.TailAlwaysWritten | tools/nest_video_recovery.py:124-127 | for non-empty input the open segment at the end is always written |
| WholeRowMode.SegmentTimesAscend | tools/nest_video_recovery.py:115-122 | when row times never decrease, every segment's times ascend, so its start is at most its end |
| Extractor.Record | tools/nest_video_recovery.py:114-122 | the dictionary after segments 0, 1, ... were recorded in turn: each assigns its file name its list of times |
| Extractor.TimelineFilename | tools/nest_video_recovery.py:138 | `os.path.basename(name).replace('tmp', 'mp4')` |
| Extractor.Entry | tools/nest_video_recovery.py:135-144 | the document of one key: its list's first and last time and its timeline file name |
| Extractor.Timeline | tools/nest_video_recovery.py:133-144 | one document per key of the dictionary, in key order |
| Extractor.LineBody | tools/nest_video_recovery.py:149 | one manifest line without its newline: "{filename}: {start} - {end}", with the rendering of a time as a parameter |
| Extractor.Manifest | tools/nest_video_recovery.py:147-149 | the text of video_list.txt: each document's line followed by a newline, in order |
| Extractor.TimeTable.Put | tools/nest_video_recovery.py:115 | dict assignment keeps insertion order: a new key is appended, an existing key keeps its place |
| Extractor.PutTwice | tools/nest_video_recovery.py:121-122 | assigning twice to one key equals assigning the second value |
| Extractor.VideoExtractor.constructor | tools/nest_video_recovery.py:24-28 | a new extractor has no segment names, an empty dictionary and no writes |
| Extractor.VideoExtractor.ExtractVideos | tools/nest_video_recovery.py:99-129 | fails with no field changed iff the fold fails; otherwise it returns the segment count, appends the segment names and (name, bytes) writes in order, and records each segment's times under its name |
| Extractor.VideoExtractor.BuildTimeline | tools/nest_video_recovery.py:133-144 | returns the timeline of the dictionary: one document per key, in key order |
| Extractor.TimelineAt | tools/nest_video_recovery.py:135-144 | document i has the first and last time of key i and its basename with "tmp" replaced by "mp4" |
| Extractor.ManifestText | tools/nest_video_recovery.py:147-149 | the text written is the manifest of the documents |
| Extractor.ManifestLines | tools/nest_video_recovery.py:147-149 | split at newlines, the manifest gives back each document's line in order, then an empty remainder |
| Extractor.RecordFresh | tools/nest_video_recovery.py:114-115 | on a fresh dictionary the keys are 0.tmp, 1.tmp, ... in order, each holding its own segment's times |
| Extractor.TimelineOfRecord | tools/nest_video_recovery.py:135-144 | after one run on a fresh dictionary, document i comes from segment i and is named "i.mp4" |
| Extractor.TimelineOfFreshRun | tools/nest_video_recovery.py:103-144 | one run on a fresh extractor gives one document per segment, in order; document i starts at the i-th opening row's row[0], ends at its last recorded time and is named "i.mp4" |
| Extractor.TimelineNameOfSegment | tools/nest_video_recovery.py:138 | the timeline name of segment file k.tmp is "k.mp4" |
| Extractor.FirstRowFails | tools/nest_video_recovery.py:118-119 | a continuation with no open segment can only be the first row, and then the whole fold fails |
| Paths.NatStr | tools/nest_video_recovery.py:114 | the decimal text of a non-negative counter, as f"{count}" writes it |
| Paths.PathJoin | tools/nest_video_recovery.py:114 | POSIX `os.path.join(a, b)` of two components: b when b is absolute, else a and b with one '/' between them unless a is empty or ends in '/' |
| Paths.TmpName | tools/nest_video_recovery.py:114 | the segment file name `os.path.join(output, f"{count}.tmp")` |
| Paths.Basename | tools/nest_video_recovery.py:138 | POSIX `os.path.basename`: everything after the last '/' |
| Paths.ReplaceAll | tools/nest_video_recovery.py:138 | `str.replace(pat, rep)`: every non-overlapping occurrence of pat, from the left, replaced by rep |
| Paths.BeforeFirst | tools/nest_video_recovery.py:161 | `s.split(c)[0]`: the text before the first c, or all of s |
| Paths.JoinWith | tools/nest_video_recovery.py:172 | `sep.join(parts)` for a one-character separator |
| Paths.NatStrInjective | tools/nest_video_recovery.py:114 | different counters give different decimal names |
| Paths.TmpNameInjective | tools/nest_video_recovery.py:114 | the segment file names of one run never coincide |
| Paths.BasenameOfJoin | tools/nest_video_recovery.py:138 | the basename of os.path.join(dir, name) is name when name has no '/' |
| Paths.ReplaceTmpInCounterName | tools/nest_video_recovery.py:138 | replacing "tmp" by "mp4" in "k.tmp" changes only the extension |
| Paths.BeforeFirstOmitsSeparator | tools/nest_video_recovery.py:161 | `s.split(c)[0]` never contains c |
| Paths.BeforeFirstIsPrefix | tools/nest_video_recovery.py:161 | `s.split(c)[0]` is a prefix of `s` |
| Paths.BeforeFirstIsFirstPiece | tools/nest_video_recovery.py:161 | `s.split(c)[0]` is the first piece of `s.split(c)` |
| Paths.SplitJoinRoundTrip | tools/nest_video_recovery.py:172 | splitting a '\|'-joined list gives the parts back when no part contains '\|' |
| Save.Mp4NameAsWritten | tools/nest_video_recovery.py:161 | the converted name as written: `video.split('.')[0] + ".mp4"`, cutting the whole path at its first '.' |
| Save.Mp4NamesAsWritten | tools/nest_video_recovery.py:172 | the as-written names of the segment files, in the order they were written |
| Save.ConcatList | tools/nest_video_recovery.py:172 | the merge list as written: the as-written names joined by '\|' |
| Save.Mp4Name | tools/nest_video_recovery.py:161 | intended naming: the path with the extension of its last component replaced by ".mp4" |
| Save.Mp4Names | tools/nest_video_recovery.py:172 | intended naming: the intended names of the segment files, in order |
| Save.IntendedConcatList | tools/nest_video_recovery.py:172 | intended naming: the intended names joined by '\|' |
| Save.AsWrittenAgreesWithoutDots | tools/nest_video_recovery.py:161 | with an output directory free of '.', the name as written equals the intended one |
| Save.AsWrittenDiffersWithDots | tools/nest_video_recovery.py:161 | with a '.' in the output directory, the name as written differs from the intended one (it is shorter) |
| Save.AsWrittenOfSegment | tools/nest_video_recovery.py:161 | as written, with an output directory free of '.', segment k.tmp converts to k.mp4 in the same directory |
| Save.AsWrittenIgnoresSegment | tools/nest_video_recovery.py:161 | as written, with a '.' in the output directory, the name is the directory up to its first '.' plus ".mp4", for every segment |
| Save.DottedOutputCollides | tools/nest_video_recovery.py:161 | as written, with a '.' in the output directory, two segments get the same name, though their intended names differ |
| Save.DotSlashOutCollides | tools/nest_video_recovery.py:161 | output "./out": as written, segments 0 and 1 both convert to ".mp4" |
| Save.DotSlashOutMissesTimeline | tools/nest_video_recovery.py:138-161 | output "./out": as written, the converted file's name is not the "0.mp4" the timeline gives segment 0 |
| Save.DotSlashOutMergeList | tools/nest_video_recovery.py:172 | output "./out": the merge list of two segments, as written, is ".mp4\|.mp4" |
| Save.TimelineNameIsConvertedBasename | tools/nest_video_recovery.py:138-161 | as written, with an output directory free of '.', the timeline's file name for a segment is the basename of the file it converts to |
| Save.ConcatListOfRun | tools/nest_video_recovery.py:172 | as written, with an output directory free of '.' and '\|', the merge list of one run, split at '\|', is 0.mp4, 1.mp4, ... in the output directory |
| Save.ConcatListRepeatsOnDottedOutput | tools/nest_video_recovery.py:172 | as written, with a '.' in the output directory, the merge list of an n-segment run, split at '\|', names one file n times |
| Save.Mp4NameOfSegment | tools/nest_video_recovery.py:161 | intended naming: segment k.tmp converts to k.mp4 in the same directory, whatever the directory is called |
| Save.Mp4NamesDistinct | tools/nest_video_recovery.py:161 | intended naming: different segments convert to different files |
| Save.TimelineNameIsIntendedBasename | tools/nest_video_recovery.py:138-161 | intended naming: the timeline's file name for a segment is the basename of the file it converts to, for every output directory |
| Save.IntendedConcatListOfRun | tools/nest_video_recovery.py:172 | intended naming: the merge list of one run, split at '\|', is 0.mp4, 1.mp4, ... in the output directory, when the directory has no '\|' |

## Left out

- Database access (`sqlite3`, lines 43-46 and 94-97): the rows are parameters. SQL NULL columns are not modelled; every BLOB column is a byte sequence and an empty one is falsy.
- Per-frame image extraction (lines 78-91): writing `.h264` files, the ffmpeg calls and `os.remove` are I/O on external programs. Reassembly stops at the two dictionaries that step consumes.
- `_gen_filename` and `to_datetime` (lines 34-36, 137): times are kept as the stored integers, and the manifest takes the rendering of a time as a parameter.
- The ffmpeg conversion and concatenation calls and the removals in `save` (lines 161-178): only the file names and the concatenation list they are given are modelled. What ffmpeg does when a target file already exists is not modelled.
- `Extractor.ManifestText`: returns the text of `video_list.txt` rather than writing a file.
- Elasticsearch upload (lines 152-154), logging, `main`, argument parsing and `__del__`: I/O and process plumbing.
- The output directory check and `mkdir` in `__init__` (lines 31-32): file-system I/O.
- The `frame` argument of `extract` (line 42): the two modes are modelled as separate operations, with no dispatcher.
- `self.save(merge)` at line 131 passes one argument to a two-parameter `save` and would raise before the timeline is built, so `save` is never reached from `extract`. The model treats the timeline as following the conversion, as the code evidently intends. The model has no `extract` member that joins the two steps.
- Per-frame mode: the `sps_bytes`/`pps_bytes` locals (lines 47-48, 60-61, 70-71) are read only at line 62, right after lines 60-61 copy them from the same row. The model uses the row's fields directly. The `None` resets at lines 70-71 are never read.
- `FrameMode.ReassembleRow`: has no branch for the KeyError of line 66. Its precondition, kept by the loop, shows that branch is unreachable. The step function `Step` still models the error.
- Python's dict iteration order is modelled only for `videotimes`, as an explicit key sequence. The integer keys of `frames_by_video` are modelled as a map.

## Findings

| source | as written | input that shows it | evidently intended | confidence | as-written member | corrected member |
|---|---|---|---|---|---|---|
| tools/nest_video_recovery.py:161 | `video.split('.')[0] + ".mp4"` keeps everything before the first '.' of the whole path | output directory "./out": segments "./out/0.tmp" and "./out/1.tmp" both convert to ".mp4", so all conversions target one file, and that file is not the "0.mp4" the timeline names | replace the extension of the file name only: "./out/0.mp4", "./out/1.mp4" | not executed | Save.DotSlashOutCollides | Save.Mp4NamesDistinct |
| tools/nest_video_recovery.py:172 | the merge list joins `video.split('.')[0] + ".mp4"` for each segment | output directory "./out" with two segments: the list is ".mp4\|.mp4", one file named twice | the list of the converted files, "./out/0.mp4\|./out/1.mp4" | not executed | Save.DotSlashOutMergeList | Save.IntendedConcatListOfRun |
