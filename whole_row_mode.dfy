/** Whole-row mode of VideoExtractor.extract, as a function of the rows: the
    rows of "SELECT * FROM frame_raw_data_table" are cut into video segments.
    A row whose column 4 is non-empty closes the open segment (if any) and
    opens a new one with columns 5, 4 and 6; any other row appends column 6 and
    records column 0 in the segment's time list unless it is already there.
    The segment open when the rows run out is emitted when its buffer is
    non-empty. The class VideoExtractor runs this fold in place on its fields;
    this module states what it computes and proves what the result satisfies. */
module WholeRowMode {
  import opened Common

  /** The positional fields of one row that the loop reads: row[0], row[4],
      row[5] and row[6]. Their meaning in the store is not named by the
      source; row[0] is treated as a time stamp because it is recorded as one. */
  datatype WholeRow = WholeRow(col0: int, col4: Bytes, col5: Bytes, col6: Bytes)

  /** `if row[4]:` a non-empty value is truthy (a NULL column reads as empty). */
  predicate Opens(row: WholeRow) { |row.col4| > 0 }

  /** The bytes an opening row starts its segment with: row[5] + row[4] + row[6]. */
  function Seed(row: WholeRow): Bytes { row.col5 + row.col4 + row.col6 }

  /** The bytes a row adds to the segment it belongs to. */
  function Contribution(row: WholeRow): Bytes
  {
    if Opens(row) then Seed(row) else row.col6
  }

  /** The input's bytes in input order. */
  function Stream(rows: seq<WholeRow>): Bytes
  {
    if rows == [] then [] else Stream(rows[..|rows| - 1]) + Contribution(rows[|rows| - 1])
  }

  /** The buffer of one segment and the list of times recorded for it. */
  datatype Segment = Segment(bytes: Bytes, times: seq<int>)

  /** The loop's progress: the segments already written, and the open one. */
  datatype Scan = Scan(closed: seq<Segment>, open: Option<Segment>)

  /** `if row[0] not in times: times.append(row[0])`. */
  function AddTime(times: seq<int>, t: int): seq<int>
  {
    if t in times then times else times + [t]
  }

  /** One iteration of the loop body; None when it raises, which is when a
      continuation row arrives with no segment open. */
  function Step(s: Scan, row: WholeRow): Option<Scan>
  {
    if Opens(row) then
      Some(Scan(s.closed + OptionToSeq(s.open), Some(Segment(Seed(row), [row.col0]))))
    else if s.open.None? then None
    else
      var seg := s.open.value;
      Some(Scan(s.closed, Some(Segment(seg.bytes + row.col6, AddTime(seg.times, row.col0)))))
  }

  function ScanRows(rows: seq<WholeRow>): Option<Scan>
  {
    if rows == [] then Some(Scan([], None))
    else
      match ScanRows(rows[..|rows| - 1])
      case None => None
      case Some(s) => Step(s, rows[|rows| - 1])
  }

  lemma ScanRowsNext(rows: seq<WholeRow>, i: nat)
    requires i < |rows| && ScanRows(rows[..i]).Some?
    ensures ScanRows(rows[..i + 1]) == Step(ScanRows(rows[..i]).value, rows[i])
  {
    assert rows[..i + 1][..i] == rows[..i];
  }

  /** `if videobuf:` the open segment is written only when its buffer is non-empty. */
  function Tail(s: Scan): seq<Segment>
  {
    if s.open.Some? && |s.open.value.bytes| > 0 then [s.open.value] else []
  }

  /** The segments written, in order, or None when the loop raises. */
  function Segments(rows: seq<WholeRow>): Option<seq<Segment>>
  {
    match ScanRows(rows)
    case None => None
    case Some(s) => Some(s.closed + Tail(s))
  }

  /** Every segment opened so far, the open one last. */
  function Opened(s: Scan): seq<Segment>
  {
    s.closed + OptionToSeq(s.open)
  }

  function SegmentBytes(segs: seq<Segment>): seq<Bytes>
  {
    seq(|segs|, i requires 0 <= i < |segs| => segs[i].bytes)
  }

  function OpenBytes(s: Scan): Bytes
  {
    if s.open.Some? then s.open.value.bytes else []
  }

  /** The opening rows, in input order. */
  function OpeningRows(rows: seq<WholeRow>): seq<WholeRow>
  {
    if rows == [] then []
    else OpeningRows(rows[..|rows| - 1]) + (if Opens(rows[|rows| - 1]) then [rows[|rows| - 1]] else [])
  }

  /** A segment as the loop builds it: some bytes, and a non-empty list of
      distinct times. */
  predicate WellBuilt(seg: Segment)
  {
    |seg.bytes| > 0 && |seg.times| > 0 && NoDuplicates(seg.times)
  }

  // ---------------------------------------------------------------------
  // One row at a time

  /** Recording a time keeps the list free of duplicates, keeps what was
      there in its first-seen order, and adds exactly the new time. */
  lemma AddTimeKeepsDistinct(times: seq<int>, t: int)
    requires NoDuplicates(times)
    ensures var r := AddTime(times, t);
      && NoDuplicates(r)
      && r[..|times|] == times
      && (forall x :: x in r <==> x in times || x == t)
      && (t in times <==> r == times)
  {
  }

  /** An opening row closes the open segment (if any) and opens one holding
      exactly row[5] + row[4] + row[6] with the time list [row[0]]. A
      continuation appends row[6] verbatim, and raises when nothing is open. */
  lemma StepShape(s: Scan, row: WholeRow)
    ensures Opens(row) ==> Step(s, row) == Some(Scan(Opened(s), Some(Segment(row.col5 + row.col4 + row.col6, [row.col0]))))
    ensures !Opens(row) ==> (Step(s, row).None? <==> s.open.None?)
    ensures !Opens(row) && s.open.Some? ==>
      && Step(s, row).value.closed == s.closed
      && Step(s, row).value.open.value.bytes == s.open.value.bytes + row.col6
      && Step(s, row).value.open.value.times == AddTime(s.open.value.times, row.col0)
  {
  }

  // ---------------------------------------------------------------------
  // What every successful prefix satisfies

  /** seg is the segment that opening row r began: well built, its first
      time is r's row[0], and its bytes start with r's seed. */
  predicate Begins(seg: Segment, r: WholeRow)
  {
    WellBuilt(seg) && seg.times[0] == r.col0 && Seed(r) <= seg.bytes
  }

  predicate BeginsAll(segs: seq<Segment>, openers: seq<WholeRow>)
  {
    |segs| == |openers| && forall i :: 0 <= i < |segs| ==> Begins(segs[i], openers[i])
  }

  lemma BeginsAllSnoc(segs: seq<Segment>, openers: seq<WholeRow>, seg: Segment, r: WholeRow)
    requires BeginsAll(segs, openers) && Begins(seg, r)
    ensures BeginsAll(segs + [seg], openers + [r])
  {
    forall i | 0 <= i < |segs| + 1 ensures Begins((segs + [seg])[i], (openers + [r])[i]) {
      if i < |segs| {
        assert (segs + [seg])[i] == segs[i] && (openers + [r])[i] == openers[i];
      }
    }
  }

  lemma BeginsAllInit(segs: seq<Segment>, openers: seq<WholeRow>)
    requires BeginsAll(segs, openers) && |segs| > 0
    ensures BeginsAll(segs[..|segs| - 1], openers[..|segs| - 1])
    ensures Begins(segs[|segs| - 1], openers[|segs| - 1])
  {
  }

  ghost predicate ScanInvariant(s: Scan, rows: seq<WholeRow>)
  {
    && (s.open.None? <==> rows == [])
    && BeginsAll(Opened(s), OpeningRows(rows))
    && Flatten(SegmentBytes(s.closed)) + OpenBytes(s) == Stream(rows)
  }

  lemma StreamOnContinue(s: Scan, row: WholeRow, done: Bytes)
    requires Flatten(SegmentBytes(s.closed)) + OpenBytes(s) == done
    requires !Opens(row) && s.open.Some?
    ensures var t := Step(s, row).value;
      Flatten(SegmentBytes(t.closed)) + OpenBytes(t) == done + row.col6
  {
    var t := Step(s, row).value;
    assert t.closed == s.closed && OpenBytes(t) == OpenBytes(s) + row.col6;
  }

  lemma StreamOnOpen(s: Scan, row: WholeRow, done: Bytes)
    requires Flatten(SegmentBytes(s.closed)) + OpenBytes(s) == done
    requires Opens(row)
    ensures var t := Step(s, row).value;
      Flatten(SegmentBytes(t.closed)) + OpenBytes(t) == done + Seed(row)
  {
    var t := Step(s, row).value;
    assert OpenBytes(t) == Seed(row);
    if s.open.Some? {
      assert t.closed == s.closed + [s.open.value];
      assert SegmentBytes(t.closed) == SegmentBytes(s.closed) + [s.open.value.bytes];
      FlattenSnoc(SegmentBytes(s.closed), s.open.value.bytes);
    } else {
      assert t.closed == s.closed;
    }
  }

  lemma StepKeepsStream(s: Scan, init: seq<WholeRow>, row: WholeRow)
    requires Flatten(SegmentBytes(s.closed)) + OpenBytes(s) == Stream(init)
    requires Step(s, row).Some?
    ensures var t := Step(s, row).value;
      Flatten(SegmentBytes(t.closed)) + OpenBytes(t) == Stream(init + [row])
  {
    StreamSnoc(init, row);
    if Opens(row) {
      StreamOnOpen(s, row, Stream(init));
    } else {
      StreamOnContinue(s, row, Stream(init));
    }
  }

  lemma BeginsOnOpen(s: Scan, init: seq<WholeRow>, row: WholeRow)
    requires BeginsAll(Opened(s), OpeningRows(init)) && Opens(row)
    ensures BeginsAll(Opened(Step(s, row).value), OpeningRows(init + [row]))
  {
    var rows := init + [row];
    assert rows[..|rows| - 1] == init;
    var t := Step(s, row).value;
    assert OpeningRows(rows) == OpeningRows(init) + [row];
    assert Opened(t) == Opened(s) + [t.open.value];
    BeginsAllSnoc(Opened(s), OpeningRows(init), t.open.value, row);
  }

  lemma BeginsOnContinue(s: Scan, init: seq<WholeRow>, row: WholeRow)
    requires BeginsAll(Opened(s), OpeningRows(init)) && !Opens(row) && s.open.Some?
    ensures BeginsAll(Opened(Step(s, row).value), OpeningRows(init + [row]))
  {
    var rows := init + [row];
    assert rows[..|rows| - 1] == init;
    var openers := OpeningRows(init);
    assert OpeningRows(rows) == openers;
    var seg := s.open.value;
    var seg' := Segment(seg.bytes + row.col6, AddTime(seg.times, row.col0));
    assert Step(s, row).value == Scan(s.closed, Some(seg'));
    var n := |s.closed|;
    assert Opened(s) == s.closed + [seg];
    assert Opened(Step(s, row).value) == s.closed + [seg'];
    BeginsAllInit(Opened(s), openers);
    assert Opened(s)[..n] == s.closed;
    AddTimeKeepsDistinct(seg.times, row.col0);
    assert seg'.times[0] == seg.times[0];
    assert seg.bytes <= seg'.bytes;
    assert openers == openers[..n] + [openers[n]];
    BeginsAllSnoc(s.closed, openers[..n], seg', openers[n]);
  }

  lemma StepKeepsBegins(s: Scan, init: seq<WholeRow>, row: WholeRow)
    requires BeginsAll(Opened(s), OpeningRows(init))
    requires Step(s, row).Some?
    ensures BeginsAll(Opened(Step(s, row).value), OpeningRows(init + [row]))
  {
    if Opens(row) {
      BeginsOnOpen(s, init, row);
    } else {
      BeginsOnContinue(s, init, row);
    }
  }

  lemma StepKeepsInvariant(s: Scan, init: seq<WholeRow>, row: WholeRow)
    requires ScanInvariant(s, init)
    requires Step(s, row).Some?
    ensures ScanInvariant(Step(s, row).value, init + [row])
  {
    StepKeepsStream(s, init, row);
    StepKeepsBegins(s, init, row);
  }

  lemma {:induction false} ScanRowsInvariant(rows: seq<WholeRow>)
    requires ScanRows(rows).Some?
    ensures ScanInvariant(ScanRows(rows).value, rows)
    decreases |rows|
  {
    if rows == [] {
      assert OpeningRows(rows) == [];
    } else {
      var init := rows[..|rows| - 1];
      ScanRowsInvariant(init);
      assert init + [rows[|rows| - 1]] == rows;
      StepKeepsInvariant(ScanRows(init).value, init, rows[|rows| - 1]);
    }
  }

  // ---------------------------------------------------------------------
  // Properties of the whole fold

  /** The rows are refused exactly when the first one is a continuation: the
      only moment no segment is open. */
  lemma {:induction false} FailsOnlyOnLeadingContinuation(rows: seq<WholeRow>)
    ensures Segments(rows).None? <==> (|rows| > 0 && !Opens(rows[0]))
    decreases |rows|
  {
    if |rows| > 0 {
      var init := rows[..|rows| - 1];
      FailsOnlyOnLeadingContinuation(init);
      if |rows| > 1 {
        assert init[0] == rows[0];
        if ScanRows(init).Some? {
          ScanRowsInvariant(init);
        }
      }
    }
  }

  /** Completeness: the written segments, concatenated in order, are the
      input's bytes in input order (row[5]+row[4]+row[6] for opening rows,
      row[6] for the others); there is one segment per opening row, the
      i-th beginning with the i-th opening row's seed bytes and recording its
      row[0] first; and every list of times is free of duplicates. */
  lemma SegmentsComplete(rows: seq<WholeRow>)
    requires Segments(rows).Some?
    ensures var segs := Segments(rows).value;
      && Flatten(SegmentBytes(segs)) == Stream(rows)
      && |segs| == |OpeningRows(rows)|
      && (forall i :: 0 <= i < |segs| ==> WellBuilt(segs[i]))
      && (forall i :: 0 <= i < |segs| ==>
            segs[i].times[0] == OpeningRows(rows)[i].col0 && Seed(OpeningRows(rows)[i]) <= segs[i].bytes)
  {
    var s := ScanRows(rows).value;
    ScanRowsInvariant(rows);
    var segs := Segments(rows).value;
    assert segs == Opened(s) by {
      if s.open.Some? {
        assert WellBuilt(Opened(s)[|Opened(s)| - 1]);
      }
    }
    if s.open.Some? {
      assert SegmentBytes(segs) == SegmentBytes(s.closed) + [s.open.value.bytes];
      FlattenSnoc(SegmentBytes(s.closed), s.open.value.bytes);
    } else {
      assert SegmentBytes(segs) == SegmentBytes(s.closed);
    }
  }

  /** The tail segment is always written once something was opened: its
      buffer starts with a non-empty row[4]. */
  lemma TailAlwaysWritten(rows: seq<WholeRow>)
    requires ScanRows(rows).Some? && rows != []
    ensures Tail(ScanRows(rows).value) == [ScanRows(rows).value.open.value]
  {
    ScanRowsInvariant(rows);
    var s := ScanRows(rows).value;
    assert WellBuilt(Opened(s)[|Opened(s)| - 1]);
  }

  // ---------------------------------------------------------------------
  // Which rows make up which segment

  /** The rows cut into the groups the loop gathers into one segment each:
      an opening row starts a new group, any other row joins the last one. */
  function Groups(rows: seq<WholeRow>): seq<seq<WholeRow>>
  {
    if rows == [] then []
    else
      var g := Groups(rows[..|rows| - 1]);
      var row := rows[|rows| - 1];
      if Opens(row) || g == [] then g + [[row]]
      else g[..|g| - 1] + [g[|g| - 1] + [row]]
  }

  /** The row[0] values of some rows. */
  function Times(g: seq<WholeRow>): set<int>
  {
    set i | 0 <= i < |g| :: g[i].col0
  }

  /** The row[0] values of some rows, in row order. */
  function RowTimes(g: seq<WholeRow>): seq<int>
  {
    seq(|g|, i requires 0 <= i < |g| => g[i].col0)
  }

  /** The values of xs in first-seen order: xs[i] is kept exactly when it
      does not occur before position i. */
  function Dedup(xs: seq<int>): seq<int>
  {
    if xs == [] then []
    else
      var init := xs[..|xs| - 1];
      Dedup(init) + (if xs[|xs| - 1] in init then [] else [xs[|xs| - 1]])
  }

  lemma {:induction false} DedupMembers(xs: seq<int>)
    ensures forall x :: x in Dedup(xs) <==> x in xs
    decreases |xs|
  {
    if xs != [] {
      var init := xs[..|xs| - 1];
      DedupMembers(init);
      assert xs == init + [xs[|xs| - 1]];
    }
  }

  /** seg is what the loop builds from group g: g's bytes in row order, and
      g's row[0] values in first-seen order, each once. */
  ghost predicate Gathers(seg: Segment, g: seq<WholeRow>)
  {
    && seg.bytes == Stream(g)
    && seg.times == Dedup(RowTimes(g))
    && forall x :: x in seg.times <==> x in Times(g)
  }

  ghost predicate GathersAll(segs: seq<Segment>, groups: seq<seq<WholeRow>>)
  {
    |segs| == |groups| && forall i :: 0 <= i < |segs| ==> Gathers(segs[i], groups[i])
  }

  lemma StreamSnoc(rows: seq<WholeRow>, row: WholeRow)
    ensures Stream(rows + [row]) == Stream(rows) + Contribution(row)
  {
    assert (rows + [row])[..|rows|] == rows;
  }

  lemma TimesSnoc(g: seq<WholeRow>, row: WholeRow)
    ensures Times(g + [row]) == Times(g) + {row.col0}
  {
    var h := g + [row];
    forall x | x in Times(h) ensures x in Times(g) + {row.col0} {
      var i :| 0 <= i < |h| && h[i].col0 == x;
      if i < |g| {
        assert h[i] == g[i];
      }
    }
    forall x | x in Times(g) ensures x in Times(h) {
      var i :| 0 <= i < |g| && g[i].col0 == x;
      assert h[i] == g[i];
    }
    assert h[|g|] == row;
  }

  lemma GathersAllSnoc(segs: seq<Segment>, groups: seq<seq<WholeRow>>, seg: Segment, g: seq<WholeRow>)
    requires GathersAll(segs, groups) && Gathers(seg, g)
    ensures GathersAll(segs + [seg], groups + [g])
  {
    forall i | 0 <= i < |segs| + 1 ensures Gathers((segs + [seg])[i], (groups + [g])[i]) {
      if i < |segs| {
        assert (segs + [seg])[i] == segs[i] && (groups + [g])[i] == groups[i];
      }
    }
  }

  lemma GathersOpening(row: WholeRow)
    requires Opens(row)
    ensures Gathers(Segment(Seed(row), [row.col0]), [row])
  {
    assert [row][..0] == [];
    assert RowTimes([row]) == [row.col0];
    assert RowTimes([row])[..0] == [];
    assert Times([row]) == {row.col0} by {
      assert [row][0] == row;
    }
  }

  lemma RowTimesSnoc(g: seq<WholeRow>, row: WholeRow)
    ensures RowTimes(g + [row]) == RowTimes(g) + [row.col0]
  {
  }

  lemma GathersContinuation(seg: Segment, g: seq<WholeRow>, row: WholeRow)
    requires Gathers(seg, g) && !Opens(row)
    ensures Gathers(Segment(seg.bytes + row.col6, AddTime(seg.times, row.col0)), g + [row])
  {
    StreamSnoc(g, row);
    TimesSnoc(g, row);
    var ts := RowTimes(g);
    RowTimesSnoc(g, row);
    assert (ts + [row.col0])[..|ts|] == ts;
    DedupMembers(ts);
    assert row.col0 in ts <==> row.col0 in seg.times;
  }

  lemma StepKeepsGathers(s: Scan, init: seq<WholeRow>, row: WholeRow)
    requires GathersAll(Opened(s), Groups(init))
    requires Step(s, row).Some?
    ensures GathersAll(Opened(Step(s, row).value), Groups(init + [row]))
  {
    var rows := init + [row];
    assert rows[..|rows| - 1] == init;
    var t := Step(s, row).value;
    var g := Groups(init);
    if Opens(row) {
      assert Groups(rows) == g + [[row]];
      assert Opened(t) == Opened(s) + [t.open.value];
      GathersOpening(row);
      GathersAllSnoc(Opened(s), g, t.open.value, [row]);
    } else {
      var seg := s.open.value;
      var n := |Opened(s)| - 1;
      assert Opened(s)[n] == seg;
      assert g != [];
      assert Groups(rows) == g[..n] + [g[n] + [row]];
      assert Opened(t) == Opened(s)[..n] + [t.open.value];
      GathersContinuation(seg, g[n], row);
      assert GathersAll(Opened(s)[..n], g[..n]);
      GathersAllSnoc(Opened(s)[..n], g[..n], t.open.value, g[n] + [row]);
    }
  }

  lemma {:induction false} ScanRowsGathers(rows: seq<WholeRow>)
    requires ScanRows(rows).Some?
    ensures GathersAll(Opened(ScanRows(rows).value), Groups(rows))
    decreases |rows|
  {
    if rows != [] {
      var init := rows[..|rows| - 1];
      ScanRowsGathers(init);
      assert init + [rows[|rows| - 1]] == rows;
      StepKeepsGathers(ScanRows(init).value, init, rows[|rows| - 1]);
    }
  }

  /** Segment i is built from group i alone: its bytes are that group's
      bytes in row order, and its time list is that group's row[0] values
      in first-seen order, each once. */
  lemma SegmentsAreGroups(rows: seq<WholeRow>)
    requires Segments(rows).Some?
    ensures var segs := Segments(rows).value;
      && |segs| == |Groups(rows)|
      && forall i :: 0 <= i < |segs| ==>
           && segs[i].bytes == Stream(Groups(rows)[i])
           && segs[i].times == Dedup(RowTimes(Groups(rows)[i]))
           && forall x :: x in segs[i].times <==> x in Times(Groups(rows)[i])
  {
    ScanRowsGathers(rows);
    var s := ScanRows(rows).value;
    if rows != [] {
      TailAlwaysWritten(rows);
    }
    assert Segments(rows).value == Opened(s);
  }

  /** One more row extends the cut as Groups does. */
  lemma GroupsSnoc(init: seq<WholeRow>, row: WholeRow)
    ensures var g := Groups(init);
      Groups(init + [row]) == if Opens(row) || g == [] then g + [[row]] else g[..|g| - 1] + [g[|g| - 1] + [row]]
  {
    assert (init + [row])[..|init|] == init;
  }

  /** The groups cut the input into consecutive pieces, kept in order. */
  lemma {:induction false} GroupsFlatten(rows: seq<WholeRow>)
    ensures Flatten(Groups(rows)) == rows
    decreases |rows|
  {
    if rows != [] {
      var init := rows[..|rows| - 1];
      var row := rows[|rows| - 1];
      assert init + [row] == rows;
      GroupsFlatten(init);
      GroupsSnoc(init, row);
      var g := Groups(init);
      if Opens(row) || g == [] {
        FlattenSnoc(g, [row]);
      } else {
        var n := |g| - 1;
        assert g == g[..n] + [g[n]];
        FlattenSnoc(g[..n], g[n]);
        FlattenSnoc(g[..n], g[n] + [row]);
      }
    }
  }

  /** Every group is non-empty, holds no opening row after its first, and
      every group but the first starts with an opening row. */
  ghost predicate GroupShaped(g: seq<seq<WholeRow>>)
  {
    && (forall i :: 0 <= i < |g| ==> |g[i]| > 0 && forall j :: 0 < j < |g[i]| ==> !Opens(g[i][j]))
    && (forall i :: 0 < i < |g| ==> Opens(g[i][0]))
  }

  lemma ShapedOnOpen(g: seq<seq<WholeRow>>, row: WholeRow)
    requires GroupShaped(g) && (Opens(row) || g == [])
    ensures GroupShaped(g + [[row]])
  {
    var h := g + [[row]];
    forall i | 0 <= i < |g| ensures h[i] == g[i] { }
  }

  lemma ShapedOnJoin(g: seq<seq<WholeRow>>, row: WholeRow)
    requires GroupShaped(g) && g != [] && !Opens(row)
    ensures GroupShaped(g[..|g| - 1] + [g[|g| - 1] + [row]])
  {
    var n := |g| - 1;
    var last := g[n] + [row];
    var h := g[..n] + [last];
    forall i | 0 <= i < n ensures h[i] == g[i] { }
    forall j | 0 < j < |last| ensures !Opens(last[j]) {
      if j < |g[n]| {
        assert last[j] == g[n][j];
      }
    }
    assert last[0] == g[n][0];
  }

  /** The shape of the cut: each group is one opening row (or, only for the
      first group, a leading continuation) followed by continuations. */
  lemma {:induction false} GroupsShape(rows: seq<WholeRow>)
    ensures GroupShaped(Groups(rows))
    decreases |rows|
  {
    if rows != [] {
      var init := rows[..|rows| - 1];
      var row := rows[|rows| - 1];
      assert init + [row] == rows;
      GroupsShape(init);
      GroupsSnoc(init, row);
      var g := Groups(init);
      if Opens(row) || g == [] {
        ShapedOnOpen(g, row);
      } else {
        ShapedOnJoin(g, row);
      }
    }
  }

  // ---------------------------------------------------------------------
  // Time order within a segment

  /** Row times never decrease along the input. */
  predicate TimesNonDecreasing(rows: seq<WholeRow>)
  {
    forall i, j :: 0 <= i < j < |rows| ==> rows[i].col0 <= rows[j].col0
  }

  ghost predicate AscendingInvariant(s: Scan, rows: seq<WholeRow>)
  {
    && (forall i :: 0 <= i < |Opened(s)| ==> Ascending(Opened(s)[i].times))
    && (s.open.Some? && rows != [] ==>
          forall k :: 0 <= k < |s.open.value.times| ==> s.open.value.times[k] <= rows[|rows| - 1].col0)
  }

  /** One row whose time is at least the previous row's keeps the
      ascending invariant. */
  lemma AscendingStep(s: Scan, init: seq<WholeRow>, row: WholeRow)
    requires AscendingInvariant(s, init) && Step(s, row).Some?
    requires init != [] ==> init[|init| - 1].col0 <= row.col0
    requires s.open.Some? <==> init != []
    ensures AscendingInvariant(Step(s, row).value, init + [row])
  {
    var rows := init + [row];
    assert rows[|rows| - 1] == row;
    var t := Step(s, row).value;
    if Opens(row) {
      assert Opened(t) == Opened(s) + [t.open.value];
      forall i | 0 <= i < |Opened(t)| ensures Ascending(Opened(t)[i].times) {
        if i < |Opened(s)| {
          assert Opened(t)[i] == Opened(s)[i];
        }
      }
    } else {
      var seg := s.open.value;
      var n := |s.closed|;
      assert Opened(s) == s.closed + [seg];
      assert Opened(s)[n] == seg;
      assert Opened(t) == s.closed + [t.open.value];
      forall k | 0 <= k < |seg.times| ensures seg.times[k] <= row.col0 {
        assert seg.times[k] <= init[|init| - 1].col0;
      }
      forall i | 0 <= i < |Opened(t)| ensures Ascending(Opened(t)[i].times) {
        if i < n {
          assert Opened(t)[i] == Opened(s)[i];
        }
      }
    }
  }

  lemma {:induction false} ScanRowsAscending(rows: seq<WholeRow>)
    requires ScanRows(rows).Some?
    requires TimesNonDecreasing(rows)
    ensures AscendingInvariant(ScanRows(rows).value, rows)
    decreases |rows|
  {
    if rows != [] {
      var init := rows[..|rows| - 1];
      var row := rows[|rows| - 1];
      assert init + [row] == rows;
      if init != [] {
        assert init[|init| - 1] == rows[|rows| - 2];
      }
      assert TimesNonDecreasing(init);
      ScanRowsAscending(init);
      ScanRowsInvariant(init);
      AscendingStep(ScanRows(init).value, init, row);
    }
  }

  /** When row times never decrease, every segment's times ascend, so the
      first recorded time (the timeline's start) is at most the last (its
      end). */
  lemma SegmentTimesAscend(rows: seq<WholeRow>)
    requires Segments(rows).Some?
    requires TimesNonDecreasing(rows)
    ensures forall i :: 0 <= i < |Segments(rows).value| ==>
      var times := Segments(rows).value[i].times;
      Ascending(times) && |times| > 0 && times[0] <= times[|times| - 1]
  {
    SegmentsComplete(rows);
    ScanRowsAscending(rows);
    var s := ScanRows(rows).value;
    var segs := Segments(rows).value;
    assert forall i :: 0 <= i < |segs| ==> segs[i] == Opened(s)[i];
  }
}
