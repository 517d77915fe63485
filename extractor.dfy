/** The VideoExtractor object of the whole-row path: it runs the segmenting
    loop in place on its fields (the list of written segment files, the
    dictionary of per-file time lists) and derives the timeline documents and
    the manifest from that dictionary. */
module Extractor {
  import opened Common
  import opened Paths
  import W = WholeRowMode

  /** A Python dict from file name to a list of times: its keys keep their
      first insertion order, and assigning to a present key keeps its place. */
  datatype TimeTable = TimeTable(keys: seq<string>, lists: map<string, seq<int>>)
  {
    ghost predicate Valid()
    {
      NoDuplicates(keys) && (forall k :: k in lists <==> k in keys)
    }

    /** `d[k] = v`. */
    function Put(k: string, v: seq<int>): (t: TimeTable)
      requires Valid()
      ensures t.Valid()
      ensures t.lists == lists[k := v]
      ensures k in lists ==> t.keys == keys
      ensures k !in lists ==> t.keys == keys + [k]
    {
      TimeTable(if k in lists then keys else keys + [k], lists[k := v])
    }
  }

  const EmptyTable: TimeTable := TimeTable([], map[])

  /** Assigning twice to one key is assigning the second value. */
  lemma PutTwice(t: TimeTable, k: string, v: seq<int>, v': seq<int>)
    requires t.Valid()
    ensures t.Put(k, v).Put(k, v') == t.Put(k, v')
  {
  }

  /** The dictionary after segments 0 .. |segs|-1 of one run were recorded
      under their names, one after the other. */
  function Record(t: TimeTable, output: string, segs: seq<W.Segment>): TimeTable
    requires t.Valid()
    ensures Record(t, output, segs).Valid()
  {
    if segs == [] then t
    else Record(t, output, segs[..|segs| - 1]).Put(TmpName(output, |segs| - 1), segs[|segs| - 1].times)
  }

  lemma RecordSnoc(t: TimeTable, output: string, segs: seq<W.Segment>, seg: W.Segment)
    requires t.Valid()
    ensures Record(t, output, segs + [seg]) == Record(t, output, segs).Put(TmpName(output, |segs|), seg.times)
  {
    assert (segs + [seg])[..|segs|] == segs;
  }

  /** The segment file names of one run: 0.tmp, 1.tmp, ... under output. */
  function Names(output: string, n: nat): seq<string>
  {
    seq(n, i requires 0 <= i < n => TmpName(output, i))
  }

  /** The (file name, contents) pairs one run writes. */
  function Files(output: string, segs: seq<W.Segment>): seq<(string, Bytes)>
  {
    seq(|segs|, i requires 0 <= i < |segs| => (TmpName(output, i), segs[i].bytes))
  }

  /** One timeline document: `{'start_time', 'end_time', 'filename'}`. The
      times are kept as the stored integers. */
  datatype Document = Document(startTime: int, endTime: int, filename: string)

  /** os.path.basename(name).replace('tmp', 'mp4'). */
  function TimelineFilename(name: string): string
  {
    ReplaceAll(Basename(name), "tmp", "mp4")
  }

  /** Every list in the dictionary is non-empty, as the loop leaves it. */
  predicate NonEmptyLists(t: TimeTable)
  {
    forall k :: k in t.lists ==> |t.lists[k]| > 0
  }

  function Entry(t: TimeTable, name: string): Document
    requires name in t.lists && |t.lists[name]| > 0
  {
    var times := t.lists[name];
    Document(times[0], times[|times| - 1], TimelineFilename(name))
  }

  /** The documents, one per key, in key order. */
  function Timeline(t: TimeTable): seq<Document>
    requires t.Valid() && NonEmptyLists(t)
  {
    seq(|t.keys|, i requires 0 <= i < |t.keys| => Entry(t, t.keys[i]))
  }

  /** One manifest line without its newline: "{filename}: {start} - {end}".
      How a time is rendered is left to render. */
  function LineBody(d: Document, render: int -> string): string
  {
    d.filename + ": " + render(d.startTime) + " - " + render(d.endTime)
  }

  /** The text of video_list.txt: each document's line followed by "\n". */
  function Manifest(docs: seq<Document>, render: int -> string): string
  {
    if docs == [] then "" else LineBody(docs[0], render) + "\n" + Manifest(docs[1..], render)
  }

  lemma {:induction false} ManifestSnoc(docs: seq<Document>, d: Document, render: int -> string)
    ensures Manifest(docs + [d], render) == Manifest(docs, render) + LineBody(d, render) + "\n"
    decreases |docs|
  {
    if docs == [] {
      assert [d][1..] == [];
    } else {
      assert (docs + [d])[1..] == docs[1..] + [d];
      ManifestSnoc(docs[1..], d, render);
    }
  }

  class VideoExtractor {
    const database: string
    const output: string
    /** Names of the segment files written, in order (self.rawvideos). */
    var rawvideos: seq<string>
    /** Time list per segment file (self.videotimes). */
    var videotimes: TimeTable
    /** Every file write of a segment, in order: (name, contents). */
    var written: seq<(string, Bytes)>

    ghost predicate Valid()
      reads this
    {
      videotimes.Valid() && NonEmptyLists(videotimes)
    }

    constructor (database: string, output: string)
      ensures Valid()
      ensures this.database == database && this.output == output
      ensures rawvideos == [] && videotimes == EmptyTable && written == []
    {
      this.database := database;
      this.output := output;
      rawvideos := [];
      videotimes := EmptyTable;
      written := [];
    }

    /** The whole-row loop of extract with its tail flush. Returns the
        counter it logs, or None when the first row is a continuation, where
        Python raises before anything is changed. */
    method ExtractVideos(rows: seq<W.WholeRow>) returns (count: Option<nat>)
      requires Valid()
      modifies this
      ensures Valid()
      ensures count.None? <==> W.Segments(rows).None?
      ensures count.None? ==>
        rawvideos == old(rawvideos) && videotimes == old(videotimes) && written == old(written)
      ensures count.Some? ==>
        var segs := W.Segments(rows).value;
        && count.value == |segs|
        && rawvideos == old(rawvideos) + Names(output, |segs|)
        && written == old(written) + Files(output, segs)
        && videotimes == Record(old(videotimes), output, segs)
    {
      var videobuf: Bytes := [];
      var videoname: string := "";
      var n: nat := 0;
      var i := 0;
      ghost var raw0, written0, vt0 := rawvideos, written, videotimes;
      ghost var s: W.Scan := W.Scan([], None);
      assert rows[..0] == [];
      assert W.ScanRows(rows[..0]) == Some(s);
      while i < |rows|
        invariant 0 <= i <= |rows|
        invariant W.ScanRows(rows[..i]) == Some(s)
        invariant Mirrors(output, s, videobuf, videoname, n,
                          rawvideos, written, videotimes, raw0, written0, vt0)
      {
        var row := rows[i];
        W.ScanRowsNext(rows, i);
        ghost var next := W.Step(s, row);
        assert W.ScanRows(rows[..i + 1]) == next;
        if |row.col4| > 0 {
          OpenMirrors(output, s, row, videobuf, videoname, n, rawvideos, written, videotimes,
                      raw0, written0, vt0);
          if videoname != "" {
            written := written + [(videoname, videobuf)];
            rawvideos := rawvideos + [videoname];
          }
          videobuf := row.col5 + row.col4 + row.col6;
          videoname := TmpName(output, n);
          videotimes := videotimes.Put(videoname, [row.col0]);
          n := n + 1;
        } else {
          if videoname == "" {
            // `"" + row[6]`: str plus bytes raises TypeError on the first row
            FirstRowFails(rows, i);
            count := None;
            return;
          }
          ContinueMirrors(output, s, row, videobuf, videoname, n, rawvideos, written, videotimes,
                          raw0, written0, vt0);
          videobuf := videobuf + row.col6;
          var times := videotimes.lists[videoname];
          if row.col0 !in times {
            videotimes := videotimes.Put(videoname, times + [row.col0]);
          }
        }
        s := next.value;
        i := i + 1;
      }
      assert rows[..i] == rows;
      FlushMirrors(output, rows, videobuf, videoname, n, rawvideos, written, videotimes,
                   raw0, written0, vt0);
      if |videobuf| > 0 {
        written := written + [(videoname, videobuf)];
        rawvideos := rawvideos + [videoname];
      }
      count := Some(n);
    }

    /** The documents loop of extract: one document per key of videotimes,
        in key order, from the first and last recorded time. */
    method BuildTimeline() returns (documents: seq<Document>)
      requires Valid()
      ensures documents == Timeline(videotimes)
    {
      documents := [];
      var i := 0;
      while i < |videotimes.keys|
        invariant 0 <= i <= |videotimes.keys|
        invariant documents == Timeline(videotimes)[..i]
      {
        var filename := videotimes.keys[i];
        var runtime := videotimes.lists[filename];
        var start, end := runtime[0], runtime[|runtime| - 1];
        filename := TimelineFilename(filename);
        documents := documents + [Document(start, end, filename)];
        i := i + 1;
      }
    }
  }

  /** The write loop for video_list.txt; the text it writes. */
  method ManifestText(documents: seq<Document>, render: int -> string) returns (text: string)
    ensures text == Manifest(documents, render)
  {
    text := "";
    var i := 0;
    while i < |documents|
      invariant 0 <= i <= |documents|
      invariant text == Manifest(documents[..i], render)
    {
      var document := documents[i];
      text := text + LineBody(document, render) + "\n";
      ManifestSnoc(documents[..i], document, render);
      assert documents[..i + 1] == documents[..i] + [document];
      i := i + 1;
    }
    assert documents[..i] == documents;
  }

  /** The manifest has exactly one line per document, in order: split at
      newlines it gives back each document's line, and an empty remainder
      after the final newline. */
  lemma {:induction false} ManifestLines(docs: seq<Document>, render: int -> string)
    requires forall i :: 0 <= i < |docs| ==> '\n' !in LineBody(docs[i], render)
    ensures SplitOn(Manifest(docs, render), '\n') ==
      seq(|docs|, i requires 0 <= i < |docs| => LineBody(docs[i], render)) + [""]
    decreases |docs|
  {
    if docs != [] {
      ManifestLines(docs[1..], render);
      SplitOnHead(LineBody(docs[0], render), '\n', Manifest(docs[1..], render));
    }
  }

  /** A fresh extractor's dictionary after one run: its keys are the run's
      segment names 0.tmp, 1.tmp, ... in order, each holding its own
      segment's times. */
  lemma {:induction false} RecordFresh(output: string, segs: seq<W.Segment>)
    ensures var t := Record(EmptyTable, output, segs);
      && t.keys == Names(output, |segs|)
      && forall i :: 0 <= i < |segs| ==> TmpName(output, i) in t.lists && t.lists[TmpName(output, i)] == segs[i].times
    decreases |segs|
  {
    if segs != [] {
      var n := |segs| - 1;
      var init := segs[..n];
      RecordFresh(output, init);
      var t := Record(EmptyTable, output, init);
      var name := TmpName(output, n);
      EarlierNamesDiffer(output, n);
      assert name !in t.lists by {
        assert name !in t.keys;
      }
      var t' := Record(EmptyTable, output, segs);
      assert t' == t.Put(name, segs[n].times);
      FilesSnoc(output, init, segs[n]);
      assert t'.keys == Names(output, |segs|);
      forall i | 0 <= i < |segs| ensures TmpName(output, i) in t'.lists && t'.lists[TmpName(output, i)] == segs[i].times {
        var k := TmpName(output, i);
        if i < n {
          assert k != name;
          assert k in t.lists && t.lists[k] == init[i].times;
          assert t'.lists[k] == t.lists[k];
          assert init[i] == segs[i];
        } else {
          assert i == n;
        }
      }
    }
  }

  lemma EarlierNamesDiffer(output: string, n: nat)
    ensures forall i :: 0 <= i < n ==> TmpName(output, i) != TmpName(output, n)
    ensures TmpName(output, n) !in Names(output, n)
  {
    forall i | 0 <= i < n ensures TmpName(output, i) != TmpName(output, n) {
      if TmpName(output, i) == TmpName(output, n) {
        TmpNameInjective(output, i, n);
      }
    }
  }

  /** The timeline of a fresh extractor's dictionary after one run:
      document i comes from segment i, named "i.mp4". */
  lemma TimelineOfRecord(output: string, segs: seq<W.Segment>)
    requires forall i :: 0 <= i < |segs| ==> |segs[i].times| > 0
    ensures var t := Record(EmptyTable, output, segs);
      && NonEmptyLists(t)
      && |Timeline(t)| == |segs|
      && forall i :: 0 <= i < |segs| ==>
           Timeline(t)[i] == Document(segs[i].times[0], segs[i].times[|segs[i].times| - 1], NatStr(i) + ".mp4")
  {
    RecordFresh(output, segs);
    FreshListsNonEmpty(output, segs);
    forall i | 0 <= i < |segs|
      ensures Timeline(Record(EmptyTable, output, segs))[i]
        == Document(segs[i].times[0], segs[i].times[|segs[i].times| - 1], NatStr(i) + ".mp4")
    {
      var t := Record(EmptyTable, output, segs);
      RecordAt(output, segs, i);
      TimelineAt(t, i);
      TimelineNameOfSegment(output, i);
    }
  }

  /** Document i of a timeline comes from key i: its first and last time
      and its renamed basename. */
  lemma TimelineAt(t: TimeTable, i: nat)
    requires t.Valid() && NonEmptyLists(t) && i < |t.keys|
    ensures t.keys[i] in t.lists
    ensures var times := t.lists[t.keys[i]];
      Timeline(t)[i] == Document(times[0], times[|times| - 1], TimelineFilename(t.keys[i]))
  {
  }

  lemma RecordAt(output: string, segs: seq<W.Segment>, i: nat)
    requires i < |segs|
    ensures var t := Record(EmptyTable, output, segs);
      && |t.keys| == |segs|
      && t.keys[i] == TmpName(output, i)
      && TmpName(output, i) in t.lists
      && t.lists[TmpName(output, i)] == segs[i].times
  {
    RecordFresh(output, segs);
  }

  /** The timeline of one run on a fresh extractor: exactly one document per
      written segment, in segment order; document i is named "i.mp4", starts
      at the row[0] of the i-th opening row and ends at the last time recorded
      for that segment. */
  lemma TimelineOfFreshRun(output: string, rows: seq<W.WholeRow>)
    requires W.Segments(rows).Some?
    ensures var segs := W.Segments(rows).value;
      var t := Record(EmptyTable, output, segs);
      && NonEmptyLists(t)
      && |Timeline(t)| == |segs| == |W.OpeningRows(rows)|
      && (forall i :: 0 <= i < |segs| ==> |segs[i].times| > 0)
      && forall i :: 0 <= i < |segs| ==>
           Timeline(t)[i] == Document(W.OpeningRows(rows)[i].col0, segs[i].times[|segs[i].times| - 1], NatStr(i) + ".mp4")
  {
    var segs := W.Segments(rows).value;
    W.SegmentsComplete(rows);
    assert forall i :: 0 <= i < |segs| ==> W.WellBuilt(segs[i]);
    TimelineOfRecord(output, segs);
  }

  lemma FreshListsNonEmpty(output: string, segs: seq<W.Segment>)
    requires forall i :: 0 <= i < |segs| ==> |segs[i].times| > 0
    ensures NonEmptyLists(Record(EmptyTable, output, segs))
  {
    RecordFresh(output, segs);
    var t := Record(EmptyTable, output, segs);
    forall k | k in t.lists ensures |t.lists[k]| > 0 {
      var i :| 0 <= i < |t.keys| && t.keys[i] == k;
      assert k == TmpName(output, i);
    }
  }

  lemma TimelineNameOfSegment(output: string, i: nat)
    ensures TimelineFilename(TmpName(output, i)) == NatStr(i) + ".mp4"
  {
    var name := NatStr(i) + ".tmp";
    assert '/' !in name by {
      assert forall j :: 0 <= j < |NatStr(i)| ==> name[j] == NatStr(i)[j];
    }
    BasenameOfJoin(output, name);
    ReplaceTmpInCounterName(NatStr(i));
  }

  /** The loop's variables and the object's fields agree with the fold s:
      the open buffer and name, the counter, and the fields as they were
      before the run extended by the segments the fold has closed. */
  ghost predicate Mirrors(output: string, s: W.Scan, buf: Bytes, name: string, n: nat,
                          raw: seq<string>, written: seq<(string, Bytes)>, vt: TimeTable,
                          raw0: seq<string>, written0: seq<(string, Bytes)>, vt0: TimeTable)
  {
    && vt0.Valid()
    && buf == W.OpenBytes(s)
    && name == (if s.open.Some? then TmpName(output, |s.closed|) else "")
    && n == |W.Opened(s)|
    && raw == raw0 + Names(output, |s.closed|)
    && written == written0 + Files(output, s.closed)
    && vt == Record(vt0, output, W.Opened(s))
    && NonEmptyLists(vt)
  }

  /** Writing the open segment extends the written names and files by it. */
  lemma WriteExtends(output: string, closed: seq<W.Segment>, seg: W.Segment,
                     raw: seq<string>, written: seq<(string, Bytes)>,
                     raw0: seq<string>, written0: seq<(string, Bytes)>)
    requires raw == raw0 + Names(output, |closed|)
    requires written == written0 + Files(output, closed)
    ensures raw + [TmpName(output, |closed|)] == raw0 + Names(output, |closed + [seg]|)
    ensures written + [(TmpName(output, |closed|), seg.bytes)] == written0 + Files(output, closed + [seg])
  {
    FilesSnoc(output, closed, seg);
  }

  lemma PutKeepsNonEmpty(t: TimeTable, k: string, v: seq<int>)
    requires t.Valid() && NonEmptyLists(t) && |v| > 0
    ensures NonEmptyLists(t.Put(k, v))
  {
    var t' := t.Put(k, v);
    forall k' | k' in t'.lists ensures |t'.lists[k']| > 0 {
      if k' != k {
        assert t'.lists[k'] == t.lists[k'];
      }
    }
  }

  lemma OpenMirrors(output: string, s: W.Scan, row: W.WholeRow, buf: Bytes, name: string, n: nat,
                    raw: seq<string>, written: seq<(string, Bytes)>, vt: TimeTable,
                    raw0: seq<string>, written0: seq<(string, Bytes)>, vt0: TimeTable)
    requires Mirrors(output, s, buf, name, n, raw, written, vt, raw0, written0, vt0)
    requires W.Opens(row)
    ensures vt.Valid()
    ensures Mirrors(output, W.Step(s, row).value, row.col5 + row.col4 + row.col6, TmpName(output, n), n + 1,
                    if name != "" then raw + [name] else raw,
                    if name != "" then written + [(name, buf)] else written,
                    vt.Put(TmpName(output, n), [row.col0]), raw0, written0, vt0)
  {
    var seg := W.Segment(W.Seed(row), [row.col0]);
    var t := W.Step(s, row).value;
    assert t == W.Scan(W.Opened(s), Some(seg));
    var raw' := if name != "" then raw + [name] else raw;
    var written' := if name != "" then written + [(name, buf)] else written;
    if s.open.Some? {
      assert name == TmpName(output, |s.closed|) && name != "";
      WriteExtends(output, s.closed, s.open.value, raw, written, raw0, written0);
      assert W.Opened(s) == s.closed + [s.open.value];
    } else {
      assert name == "" && W.Opened(s) == s.closed;
    }
    assert raw' == raw0 + Names(output, |t.closed|);
    assert written' == written0 + Files(output, t.closed);
    RecordSnoc(vt0, output, W.Opened(s), seg);
    assert W.Opened(t) == W.Opened(s) + [seg];
    PutKeepsNonEmpty(vt, TmpName(output, n), [row.col0]);
  }

  lemma ContinueMirrors(output: string, s: W.Scan, row: W.WholeRow, buf: Bytes, name: string, n: nat,
                        raw: seq<string>, written: seq<(string, Bytes)>, vt: TimeTable,
                        raw0: seq<string>, written0: seq<(string, Bytes)>, vt0: TimeTable)
    requires Mirrors(output, s, buf, name, n, raw, written, vt, raw0, written0, vt0)
    requires !W.Opens(row) && name != ""
    ensures vt.Valid() && name in vt.lists
    ensures W.Step(s, row).Some?
    ensures Mirrors(output, W.Step(s, row).value, buf + row.col6, name, n, raw, written,
                    if row.col0 in vt.lists[name] then vt else vt.Put(name, vt.lists[name] + [row.col0]),
                    raw0, written0, vt0)
  {
    var seg := s.open.value;
    var seg' := W.Segment(seg.bytes + row.col6, W.AddTime(seg.times, row.col0));
    assert W.Opened(s) == s.closed + [seg];
    RecordSnoc(vt0, output, s.closed, seg);
    RecordSnoc(vt0, output, s.closed, seg');
    PutTwice(Record(vt0, output, s.closed), name, seg.times, seg'.times);
  }

  /** After the loop, writing the non-empty tail buffer completes the run. */
  lemma FlushMirrors(output: string, rows: seq<W.WholeRow>, buf: Bytes, name: string, n: nat,
                     raw: seq<string>, written: seq<(string, Bytes)>, vt: TimeTable,
                     raw0: seq<string>, written0: seq<(string, Bytes)>, vt0: TimeTable)
    requires W.ScanRows(rows).Some?
    requires Mirrors(output, W.ScanRows(rows).value, buf, name, n, raw, written, vt, raw0, written0, vt0)
    ensures W.Segments(rows).Some?
    ensures var segs := W.Segments(rows).value;
      && vt.Valid() && NonEmptyLists(vt)
      && n == |segs|
      && (if |buf| > 0 then raw + [name] else raw) == raw0 + Names(output, |segs|)
      && (if |buf| > 0 then written + [(name, buf)] else written) == written0 + Files(output, segs)
      && vt == Record(vt0, output, segs)
  {
    var s := W.ScanRows(rows).value;
    var segs := W.Segments(rows).value;
    assert segs == s.closed + W.Tail(s);
    if rows != [] {
      W.TailAlwaysWritten(rows);
      assert segs == s.closed + [s.open.value] == W.Opened(s);
      assert |buf| > 0;
      WriteExtends(output, s.closed, s.open.value, raw, written, raw0, written0);
    } else {
      assert s == W.Scan([], None);
      assert segs == [] == W.Opened(s);
    }
  }

  /** A continuation with no name yet can only be the first row. */
  lemma FirstRowFails(rows: seq<W.WholeRow>, i: nat)
    requires i < |rows| && !W.Opens(rows[i])
    requires W.ScanRows(rows[..i]).Some?
    requires W.ScanRows(rows[..i]).value.open.None?
    ensures i == 0 && W.Segments(rows).None?
  {
    W.ScanRowsInvariant(rows[..i]);
    W.FailsOnlyOnLeadingContinuation(rows);
  }

  lemma FilesSnoc(output: string, segs: seq<W.Segment>, seg: W.Segment)
    ensures Files(output, segs + [seg]) == Files(output, segs) + [(TmpName(output, |segs|), seg.bytes)]
    ensures Names(output, |segs| + 1) == Names(output, |segs|) + [TmpName(output, |segs|)]
  {
  }
}
