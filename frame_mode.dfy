/** Per-frame mode of VideoExtractor.extract: the rows of frame_raw_data_table
    are folded into one byte buffer per recording chunk, together with the list
    of frame times of that chunk. A row whose gop_start_rowid is -1 starts a
    buffer with its PPS, SPS and frame bytes; any other row appends its frame
    bytes; chunk_complete == 1 seals the buffer under a running counter; a
    non-empty buffer left at the end is sealed under the current counter. */
module FrameMode {
  import opened Common

  /** One row of "SELECT frame_time, gop_start_rowid, sps_bytes, pps_bytes,
      frame_bytes, chunk_complete FROM frame_raw_data_table". */
  datatype FrameRow = FrameRow(
    frameTime: int,
    gopStartRowid: int,
    sps: Bytes,
    pps: Bytes,
    frame: Bytes,
    chunkComplete: int)

  predicate IsGopStart(row: FrameRow) { row.gopStartRowid == -1 }

  predicate Completes(row: FrameRow) { row.chunkComplete == 1 }

  /** The bytes a GOP-start row seeds its buffer with: PPS first, then SPS. */
  function Seed(row: FrameRow): Bytes { row.pps + row.sps + row.frame }

  /** The bytes a row adds to the stream it belongs to. */
  function Contribution(row: FrameRow): Bytes
  {
    if IsGopStart(row) then Seed(row) else row.frame
  }

  /** The loop's local state: the open buffer (None when Python's videobuf is
      None), the counter, and the two dictionaries keyed by the counter. */
  datatype State = State(
    videobuf: Option<Bytes>,
    count: nat,
    timestamps: map<nat, seq<int>>,
    frames: map<nat, Bytes>)

  const Initial: State := State(None, 0, map[], map[])

  /** Why the loop stopped: the index of the row that raised. */
  datatype Failure =
    | NoOpenBuffer(at: nat)      // `None + frame_bytes` raises TypeError
    | NoTimestampList(at: nat)   // `timestamps_by_video[count]` raises KeyError

  /** One iteration of the loop body; None when the body raises. */
  function Step(s: State, row: FrameRow): Option<State>
  {
    if !IsGopStart(row) && (s.videobuf.None? || s.count !in s.timestamps) then None
    else
      var buf := if IsGopStart(row) then Seed(row) else s.videobuf.value + row.frame;
      var times := if IsGopStart(row) then [row.frameTime] else s.timestamps[s.count] + [row.frameTime];
      var timestamps := s.timestamps[s.count := times];
      if Completes(row) then Some(State(None, s.count + 1, timestamps, s.frames[s.count := buf]))
      else Some(State(Some(buf), s.count, timestamps, s.frames))
  }

  /** The exception a failing Step raises. */
  function StepFailure(s: State, at: nat): Failure
  {
    if s.videobuf.None? then NoOpenBuffer(at) else NoTimestampList(at)
  }

  /** The state after the loop has run over all of rows. */
  function Run(rows: seq<FrameRow>): Result<State, Failure>
  {
    if rows == [] then Ok(Initial)
    else
      match Run(rows[..|rows| - 1])
      case Err(e) => Err(e)
      case Ok(s) =>
        match Step(s, rows[|rows| - 1])
        case None => Err(StepFailure(s, |rows| - 1))
        case Some(t) => Ok(t)
  }

  /** After the loop: a non-empty leftover buffer is stored under count. */
  function Flush(s: State): map<nat, Bytes>
  {
    if s.videobuf.Some? && |s.videobuf.value| > 0 then s.frames[s.count := s.videobuf.value]
    else s.frames
  }

  /** The two dictionaries the loop leaves for the image-extraction step. */
  datatype Output = Output(framesByVideo: map<nat, Bytes>, timestampsByVideo: map<nat, seq<int>>)

  function Reassembly(rows: seq<FrameRow>): Result<Output, Failure>
  {
    match Run(rows)
    case Err(e) => Err(e)
    case Ok(s) => Ok(Output(Flush(s), s.timestamps))
  }

  /** The reassembly loop of the per-frame path, with the tail flush. */
  method Reassemble(rows: seq<FrameRow>) returns (r: Result<Output, Failure>)
    ensures r == Reassembly(rows)
  {
    var videobuf: Option<Bytes> := None;
    var count: nat := 0;
    var timestampsByVideo: map<nat, seq<int>> := map[];
    var framesByVideo: map<nat, Bytes> := map[];
    var i := 0;
    while i < |rows|
      invariant 0 <= i <= |rows|
      invariant Run(rows[..i]) == Ok(State(videobuf, count, timestampsByVideo, framesByVideo))
      invariant videobuf.Some? ==> count in timestampsByVideo
    {
      RunNext(rows, i);
      var ok, videobuf', count', timestampsByVideo', framesByVideo' :=
        ReassembleRow(videobuf, count, timestampsByVideo, framesByVideo, rows[i]);
      if !ok {
        r := Err(NoOpenBuffer(i));
        ReassemblyStopsAtFailure(rows, i + 1);
        return;
      }
      videobuf, count, timestampsByVideo, framesByVideo := videobuf', count', timestampsByVideo', framesByVideo';
      i := i + 1;
    }
    assert rows[..i] == rows;
    if videobuf.Some? && |videobuf.value| > 0 {
      framesByVideo := framesByVideo[count := videobuf.value];
    }
    r := Ok(Output(framesByVideo, timestampsByVideo));
  }

  /** The body of the reassembly loop for one row: the new values of the
      loop's variables, or ok == false where the body raises because a
      continuation row finds no open buffer. */
  method ReassembleRow(videobuf: Option<Bytes>, count: nat, timestampsByVideo: map<nat, seq<int>>,
                       framesByVideo: map<nat, Bytes>, row: FrameRow)
    returns (ok: bool, videobuf': Option<Bytes>, count': nat, timestampsByVideo': map<nat, seq<int>>,
             framesByVideo': map<nat, Bytes>)
    requires videobuf.Some? ==> count in timestampsByVideo
    ensures var next := Step(State(videobuf, count, timestampsByVideo, framesByVideo), row);
      && (ok <==> next.Some?)
      && (ok ==> next.value == State(videobuf', count', timestampsByVideo', framesByVideo'))
    ensures !ok <==> !IsGopStart(row) && videobuf.None?
    ensures ok && videobuf'.Some? ==> count' in timestampsByVideo'
  {
    ok, videobuf', count', timestampsByVideo', framesByVideo' := true, videobuf, count, timestampsByVideo, framesByVideo;
    if IsGopStart(row) {
      videobuf' := Some(row.pps + row.sps + row.frame);
      timestampsByVideo' := timestampsByVideo[count := [row.frameTime]];
    } else {
      if videobuf.None? {
        ok := false;
        return;
      }
      videobuf' := Some(videobuf.value + row.frame);
      // the list for an open buffer always exists: no KeyError here
      timestampsByVideo' := timestampsByVideo[count := timestampsByVideo[count] + [row.frameTime]];
    }
    if Completes(row) {
      framesByVideo' := framesByVideo[count := videobuf'.value];
      videobuf' := None;
      count' := count + 1;
    }
  }

  lemma RunNext(rows: seq<FrameRow>, i: nat)
    requires i < |rows| && Run(rows[..i]).Ok?
    ensures var s := Run(rows[..i]).value;
      Run(rows[..i + 1]) == match Step(s, rows[i]) case None => Err(StepFailure(s, i)) case Some(t) => Ok(t)
  {
    assert rows[..i + 1][..i] == rows[..i];
  }

  /** Once a prefix of the rows raises, the whole run raises the same error. */
  lemma {:induction false} ReassemblyStopsAtFailure(rows: seq<FrameRow>, n: nat)
    requires 0 < n <= |rows|
    requires Run(rows[..n]).Err?
    ensures Reassembly(rows) == Err(Run(rows[..n]).error)
    decreases |rows| - n
  {
    if n == |rows| {
      assert rows[..n] == rows;
    } else {
      assert rows[..n + 1][..n] == rows[..n];
      ReassemblyStopsAtFailure(rows, n + 1);
    }
  }

  // ---------------------------------------------------------------------
  // One row at a time

  /** A GOP-start row never fails; it replaces the open buffer by PPS+SPS+frame
      and the list under the current counter by [frame_time], whatever was
      accumulated before under that counter. */
  lemma GopStartReseeds(s: State, row: FrameRow)
    requires IsGopStart(row)
    ensures Step(s, row).Some?
    ensures var t := Step(s, row).value;
      && t.timestamps == s.timestamps[s.count := [row.frameTime]]
      && (if Completes(row)
          then t.videobuf.None? && t.count == s.count + 1 && t.frames == s.frames[s.count := row.pps + row.sps + row.frame]
          else t.videobuf == Some(row.pps + row.sps + row.frame) && t.count == s.count && t.frames == s.frames)
  {
  }

  /** A continuation row fails exactly when no buffer is open (or, which never
      happens in a reachable state, the current list is missing); otherwise
      its bytes and its time are appended verbatim, without de-duplication. */
  lemma ContinuationAppends(s: State, row: FrameRow)
    requires !IsGopStart(row)
    ensures Step(s, row).None? <==> (s.videobuf.None? || s.count !in s.timestamps)
    ensures Step(s, row).Some? ==>
      var t := Step(s, row).value;
      var buf := s.videobuf.value + row.frame;
      && t.timestamps == s.timestamps[s.count := s.timestamps[s.count] + [row.frameTime]]
      && |t.timestamps[s.count]| == |s.timestamps[s.count]| + 1
      && (if Completes(row)
          then t.videobuf.None? && t.count == s.count + 1 && t.frames == s.frames[s.count := buf]
          else t.videobuf == Some(buf) && t.count == s.count && t.frames == s.frames)
  {
  }

  // ---------------------------------------------------------------------
  // Invariants of the loop

  /** Number of rows with chunk_complete == 1. */
  function CompletedChunks(rows: seq<FrameRow>): nat
  {
    if rows == [] then 0
    else CompletedChunks(rows[..|rows| - 1]) + (if Completes(rows[|rows| - 1]) then 1 else 0)
  }

  /** The counters 0 .. n-1. */
  function Below(n: nat): (r: set<nat>)
    ensures forall k: nat :: k in r <==> k < n
  {
    if n == 0 then {} else Below(n - 1) + {n - 1}
  }

  /** What holds of every state the loop reaches. */
  ghost predicate Reachable(s: State, rows: seq<FrameRow>)
  {
    && s.frames.Keys == Below(s.count)
    && s.count == CompletedChunks(rows)
    && (forall k :: k in s.timestamps ==> k <= s.count)
    && (s.videobuf.Some? ==> s.count in s.timestamps)
    && (s.videobuf.None? <==> (rows == [] || Completes(rows[|rows| - 1])))
  }

  /** Every successful prefix leaves a reachable state: sealed keys are
      exactly 0 .. count-1, count is the number of completed chunks, and a
      buffer is open exactly when the last row did not complete its chunk. */
  lemma {:induction false} RunReachable(rows: seq<FrameRow>)
    requires Run(rows).Ok?
    ensures Reachable(Run(rows).value, rows)
    decreases |rows|
  {
    if rows != [] {
      var init := rows[..|rows| - 1];
      RunReachable(init);
      var s := Run(init).value;
      var t := Run(rows).value;
      if Completes(rows[|rows| - 1]) {
        assert Below(t.count) == Below(s.count) + {s.count};
      }
    }
  }

  /** The row at index i is an orphan: a continuation with no open buffer.
      That is the first row, or the row just after a completed chunk. */
  predicate Orphan(rows: seq<FrameRow>, i: nat)
    requires i < |rows|
  {
    !IsGopStart(rows[i]) && StartsChunk(rows, i)
  }

  /** Row i is the first of a chunk: the first row, or the row just after a
      completed chunk. */
  predicate StartsChunk(rows: seq<FrameRow>, i: nat)
    requires i < |rows|
  {
    i == 0 || Completes(rows[i - 1])
  }

  /** The loop raises exactly at the first orphan row, with the TypeError of
      `None + frame_bytes`; the KeyError on the list never occurs. */
  lemma {:induction false} RunFailsAtFirstOrphan(rows: seq<FrameRow>)
    ensures Run(rows).Ok? <==> (forall i :: 0 <= i < |rows| ==> !Orphan(rows, i))
    ensures Run(rows).Err? ==>
      var at := Run(rows).error.at;
      && Run(rows).error.NoOpenBuffer?
      && at < |rows| && Orphan(rows, at)
      && (forall j :: 0 <= j < at ==> !Orphan(rows, j))
    decreases |rows|
  {
    if rows != [] {
      var init := rows[..|rows| - 1];
      var n := |rows| - 1;
      RunFailsAtFirstOrphan(init);
      assert forall i :: 0 <= i < n ==> (Orphan(init, i) <==> Orphan(rows, i));
      if Run(init).Ok? {
        var s := Run(init).value;
        RunReachable(init);
        if n > 0 {
          assert init[|init| - 1] == rows[n - 1];
        }
        assert Step(s, rows[n]).None? <==> Orphan(rows, n);
      }
    }
  }

  /** Sealed keys are the consecutive counters 0, 1, 2, ... in input order:
      one per completed chunk, plus one for a non-empty tail buffer. A run
      whose last row completed its chunk adds no extra segment. */
  lemma SealedKeysConsecutive(rows: seq<FrameRow>)
    requires Reassembly(rows).Ok?
    ensures var keys := Reassembly(rows).value.framesByVideo.Keys;
      var s := Run(rows).value;
      && keys == Below(CompletedChunks(rows) + (if s.videobuf.Some? && |s.videobuf.value| > 0 then 1 else 0))
      && ((rows == [] || Completes(rows[|rows| - 1])) ==> keys == Below(CompletedChunks(rows)))
  {
    RunReachable(rows);
    var s := Run(rows).value;
    var keys := Reassembly(rows).value.framesByVideo.Keys;
    assert keys == Flush(s).Keys;
    if s.videobuf.Some? && |s.videobuf.value| > 0 {
      assert Flush(s) == s.frames[s.count := s.videobuf.value];
      assert keys == s.frames.Keys + {s.count};
      assert keys == Below(s.count + 1);
      assert keys == Below(CompletedChunks(rows) + 1);
    } else {
      assert keys == Below(s.count);
      assert keys == Below(CompletedChunks(rows));
    }
  }

  /** Tail flush: when the input ends while a non-empty buffer is open, that
      buffer is the segment stored under the final counter, so no accumulated
      bytes are dropped. */
  lemma TailFlushKeepsBuffer(rows: seq<FrameRow>)
    requires Run(rows).Ok?
    requires Run(rows).value.videobuf.Some? && |Run(rows).value.videobuf.value| > 0
    ensures var out := Reassembly(rows).value;
      && CompletedChunks(rows) in out.framesByVideo
      && out.framesByVideo[CompletedChunks(rows)] == Run(rows).value.videobuf.value
  {
    RunReachable(rows);
  }

  // ---------------------------------------------------------------------
  // Completeness

  /** Every chunk starts with a GOP-start row and has no other one: a GOP
      start exactly at the first row and right after each completed chunk. */
  predicate WellFormed(rows: seq<FrameRow>)
  {
    forall i :: 0 <= i < |rows| ==> (IsGopStart(rows[i]) <==> StartsChunk(rows, i))
  }

  /** The segments stored under 0 .. n-1, concatenated in key order. */
  function Sealed(m: map<nat, Bytes>, n: nat): Bytes
    requires forall k :: 0 <= k < n ==> k in m
  {
    if n == 0 then [] else Sealed(m, n - 1) + m[n - 1]
  }

  lemma {:induction false} SealedAgree(m: map<nat, Bytes>, m': map<nat, Bytes>, n: nat)
    requires forall k :: 0 <= k < n ==> k in m && k in m' && m[k] == m'[k]
    ensures Sealed(m, n) == Sealed(m', n)
  {
    if n > 0 {
      SealedAgree(m, m', n - 1);
    }
  }

  /** The input's bytes in input order: each row's contribution, concatenated. */
  function Stream(rows: seq<FrameRow>): Bytes
  {
    if rows == [] then [] else Stream(rows[..|rows| - 1]) + Contribution(rows[|rows| - 1])
  }

  function OpenBytes(s: State): Bytes
  {
    if s.videobuf.Some? then s.videobuf.value else []
  }

  lemma WellFormedInit(rows: seq<FrameRow>)
    requires WellFormed(rows) && rows != []
    ensures WellFormed(rows[..|rows| - 1])
  {
    var init := rows[..|rows| - 1];
    forall i | 0 <= i < |init| ensures (IsGopStart(init[i]) <==> StartsChunk(init, i)) {
      assert init[i] == rows[i];
      assert IsGopStart(rows[i]) <==> StartsChunk(rows, i);
      if i > 0 { assert init[i - 1] == rows[i - 1]; }
    }
  }

  /** One well-formed row moves its contribution from the input to the
      sealed segments plus the open buffer. */
  lemma ConservedByStep(s: State, row: FrameRow, done: Bytes)
    requires s.frames.Keys == Below(s.count)
    requires s.videobuf.Some? ==> s.count in s.timestamps
    requires IsGopStart(row) <==> s.videobuf.None?
    requires Sealed(s.frames, s.count) + OpenBytes(s) == done
    ensures Step(s, row).Some?
    ensures var t := Step(s, row).value;
      t.frames.Keys == Below(t.count) && Sealed(t.frames, t.count) + OpenBytes(t) == done + Contribution(row)
  {
    var t := Step(s, row).value;
    if Completes(row) {
      assert Below(t.count) == Below(s.count) + {s.count};
      SealedAgree(s.frames, t.frames, s.count);
    }
  }

  lemma {:induction false} RunConserves(rows: seq<FrameRow>)
    requires WellFormed(rows)
    ensures Run(rows).Ok?
    ensures Run(rows).value.frames.Keys == Below(Run(rows).value.count)
    ensures var s := Run(rows).value;
      Sealed(s.frames, s.count) + OpenBytes(s) == Stream(rows)
    decreases |rows|
  {
    if rows != [] {
      var n := |rows| - 1;
      var init := rows[..n];
      var row := rows[n];
      WellFormedInit(rows);
      RunConserves(init);
      RunReachable(init);
      var s := Run(init).value;
      if n > 0 {
        assert init[|init| - 1] == rows[n - 1];
      }
      assert IsGopStart(row) <==> StartsChunk(rows, n);
      ConservedByStep(s, row, Stream(init));
      assert Run(rows) == Ok(Step(s, row).value);
    }
  }

  /** Reassembly completeness: for a well-formed stream the sealed segments,
      concatenated in key order, are exactly the input's bytes in input order
      (PPS+SPS+frame for each GOP start, the frame bytes otherwise); nothing is
      dropped or duplicated, and the tail is kept. */
  lemma ReassemblyComplete(rows: seq<FrameRow>)
    requires WellFormed(rows)
    ensures Reassembly(rows).Ok?
    ensures var out := Reassembly(rows).value;
      exists n :: out.framesByVideo.Keys == Below(n) && Sealed(out.framesByVideo, n) == Stream(rows)
  {
    RunConserves(rows);
    RunReachable(rows);
    var s := Run(rows).value;
    var m := Flush(s);
    if s.videobuf.Some? && |s.videobuf.value| > 0 {
      SealedAgree(s.frames, m, s.count);
      assert Below(s.count + 1) == Below(s.count) + {s.count};
      assert m.Keys == Below(s.count + 1) && Sealed(m, s.count + 1) == Stream(rows);
    } else {
      assert OpenBytes(s) == [];
      assert m.Keys == Below(s.count) && Sealed(m, s.count) == Stream(rows);
    }
  }

  // ---------------------------------------------------------------------
  // Which rows make up which chunk

  /** The rows cut into chunks: a chunk starts at the first row and right
      after each row with chunk_complete == 1. */
  function Chunks(rows: seq<FrameRow>): seq<seq<FrameRow>>
  {
    if rows == [] then []
    else
      var c := Chunks(rows[..|rows| - 1]);
      var row := rows[|rows| - 1];
      if StartsChunk(rows, |rows| - 1) || c == [] then c + [[row]]
      else c[..|c| - 1] + [c[|c| - 1] + [row]]
  }

  /** The frame_time values of some rows, in order. */
  function FrameTimes(rows: seq<FrameRow>): seq<int>
  {
    seq(|rows|, i requires 0 <= i < |rows| => rows[i].frameTime)
  }

  /** Chunk k is non-empty, chunk_complete == 1 occurs only on its last
      row, and on the last row whenever a chunk follows. */
  ghost predicate ChunkShaped(c: seq<seq<FrameRow>>)
  {
    && (forall k :: 0 <= k < |c| ==> |c[k]| > 0 && forall j :: 0 <= j < |c[k]| - 1 ==> !Completes(c[k][j]))
    && (forall k :: 0 <= k < |c| - 1 ==> Completes(c[k][|c[k]| - 1]))
  }

  /** One more row extends the cut as Chunks does. */
  lemma ChunksSnoc(init: seq<FrameRow>, row: FrameRow)
    ensures var c := Chunks(init);
      var rows := init + [row];
      if init == [] || Completes(init[|init| - 1]) then Chunks(rows) == c + [[row]]
      else c != [] ==> Chunks(rows) == c[..|c| - 1] + [c[|c| - 1] + [row]]
  {
    var rows := init + [row];
    assert rows[..|rows| - 1] == init;
    if init != [] {
      assert rows[|rows| - 2] == init[|init| - 1];
    }
  }

  /** The chunks cut the input into consecutive pieces, kept in order. */
  lemma {:induction false} ChunksFlatten(rows: seq<FrameRow>)
    ensures Flatten(Chunks(rows)) == rows
    decreases |rows|
  {
    if rows != [] {
      var init := rows[..|rows| - 1];
      var row := rows[|rows| - 1];
      assert init + [row] == rows;
      ChunksFlatten(init);
      ChunksSnoc(init, row);
      var c := Chunks(init);
      if Chunks(rows) == c + [[row]] {
        FlattenSnoc(c, [row]);
      } else {
        var n := |c| - 1;
        assert c == c[..n] + [c[n]];
        FlattenSnoc(c[..n], c[n]);
        FlattenSnoc(c[..n], c[n] + [row]);
      }
    }
  }

  lemma ShapedOnStart(c: seq<seq<FrameRow>>, row: FrameRow)
    requires ChunkShaped(c)
    requires c != [] ==> Completes(c[|c| - 1][|c[|c| - 1]| - 1])
    ensures ChunkShaped(c + [[row]])
  {
    var d := c + [[row]];
    forall k | 0 <= k < |c| ensures d[k] == c[k] { }
  }

  lemma ShapedOnContinue(c: seq<seq<FrameRow>>, row: FrameRow)
    requires ChunkShaped(c) && c != []
    requires !Completes(c[|c| - 1][|c[|c| - 1]| - 1])
    ensures ChunkShaped(c[..|c| - 1] + [c[|c| - 1] + [row]])
  {
    var n := |c| - 1;
    var last := c[n] + [row];
    var d := c[..n] + [last];
    forall k | 0 <= k < n ensures d[k] == c[k] { }
    forall j | 0 <= j < |last| - 1 ensures !Completes(last[j]) {
      assert last[j] == c[n][j];
    }
  }

  /** Every chunk is non-empty; chunk_complete == 1 occurs only on the last
      row of a chunk, and on the last row of every chunk but the final one,
      which ends with the input's last row. */
  lemma {:induction false} ChunksShape(rows: seq<FrameRow>)
    ensures ChunkShaped(Chunks(rows))
    ensures rows != [] ==> var c := Chunks(rows);
      |c| > 0 && |c[|c| - 1]| > 0 && c[|c| - 1][|c[|c| - 1]| - 1] == rows[|rows| - 1]
    decreases |rows|
  {
    if rows != [] {
      var init := rows[..|rows| - 1];
      var row := rows[|rows| - 1];
      assert init + [row] == rows;
      ChunksShape(init);
      ChunksSnoc(init, row);
      var c := Chunks(init);
      if init == [] || Completes(init[|init| - 1]) {
        ShapedOnStart(c, row);
      } else {
        ShapedOnContinue(c, row);
      }
    }
  }

  /** The state holds chunk k of c's bytes and times under key k: sealed
      for the chunks already completed, in the open buffer for the current
      one. */
  ghost predicate HoldsChunks(s: State, c: seq<seq<FrameRow>>)
  {
    && |c| == s.count + (if s.videobuf.Some? then 1 else 0)
    && (forall k :: 0 <= k < s.count ==>
          k in s.frames && k in s.timestamps
          && s.frames[k] == Stream(c[k]) && s.timestamps[k] == FrameTimes(c[k]))
    && (s.videobuf.Some? ==>
          s.count in s.timestamps
          && s.videobuf.value == Stream(c[s.count]) && s.timestamps[s.count] == FrameTimes(c[s.count]))
  }

  lemma StreamSnoc(rows: seq<FrameRow>, row: FrameRow)
    ensures Stream(rows + [row]) == Stream(rows) + Contribution(row)
    ensures FrameTimes(rows + [row]) == FrameTimes(rows) + [row.frameTime]
  {
    assert (rows + [row])[..|rows|] == rows;
  }

  lemma StreamOne(row: FrameRow)
    ensures Stream([row]) == Contribution(row) && FrameTimes([row]) == [row.frameTime]
  {
    assert [row][..0] == [];
  }

  /** A row that starts a chunk (a GOP start) makes a new one-row chunk. */
  lemma HoldsChunksOnStart(s: State, c: seq<seq<FrameRow>>, row: FrameRow)
    requires HoldsChunks(s, c) && s.videobuf.None? && IsGopStart(row)
    ensures Step(s, row).Some? && HoldsChunks(Step(s, row).value, c + [[row]])
  {
    var d := c + [[row]];
    var n := s.count;
    StreamOne(row);
    assert d[n] == [row];
    var timestamps := s.timestamps[n := [row.frameTime]];
    var t := Step(s, row).value;
    if Completes(row) {
      assert t == State(None, n + 1, timestamps, s.frames[n := Seed(row)]);
      forall k | 0 <= k < n + 1
        ensures k in t.frames && k in t.timestamps && t.frames[k] == Stream(d[k]) && t.timestamps[k] == FrameTimes(d[k])
      {
        if k < n {
          assert d[k] == c[k];
        }
      }
    } else {
      assert t == State(Some(Seed(row)), n, timestamps, s.frames);
      forall k | 0 <= k < n
        ensures k in t.frames && k in t.timestamps && t.frames[k] == Stream(d[k]) && t.timestamps[k] == FrameTimes(d[k])
      {
        assert d[k] == c[k];
      }
    }
  }

  /** A row inside a chunk (a continuation) joins the open chunk. */
  lemma HoldsChunksOnContinue(s: State, c: seq<seq<FrameRow>>, row: FrameRow)
    requires HoldsChunks(s, c) && s.videobuf.Some? && !IsGopStart(row)
    ensures Step(s, row).Some? && HoldsChunks(Step(s, row).value, c[..|c| - 1] + [c[|c| - 1] + [row]])
  {
    var n := s.count;
    var d := c[..n] + [c[n] + [row]];
    StreamSnoc(c[n], row);
    var buf := s.videobuf.value + row.frame;
    var times := s.timestamps[n] + [row.frameTime];
    assert buf == Stream(d[n]) && times == FrameTimes(d[n]);
    forall k | 0 <= k < n ensures d[k] == c[k] { }
  }

  /** One row with a GOP start exactly where a chunk starts keeps the
      chunks of the input held. */
  lemma HoldsChunksNext(s: State, init: seq<FrameRow>, row: FrameRow)
    requires HoldsChunks(s, Chunks(init))
    requires s.videobuf.None? <==> (init == [] || Completes(init[|init| - 1]))
    requires IsGopStart(row) <==> s.videobuf.None?
    ensures Step(s, row).Some? && HoldsChunks(Step(s, row).value, Chunks(init + [row]))
  {
    var c := Chunks(init);
    ChunksSnoc(init, row);
    if IsGopStart(row) {
      HoldsChunksOnStart(s, c, row);
    } else {
      HoldsChunksOnContinue(s, c, row);
    }
  }

  lemma {:induction false} RunHoldsChunks(rows: seq<FrameRow>)
    requires WellFormed(rows)
    ensures Run(rows).Ok? && HoldsChunks(Run(rows).value, Chunks(rows))
    decreases |rows|
  {
    if rows != [] {
      var n := |rows| - 1;
      var init := rows[..n];
      var row := rows[n];
      assert init + [row] == rows;
      if n > 0 {
        assert init[|init| - 1] == rows[n - 1];
      }
      assert IsGopStart(row) <==> StartsChunk(rows, n);
      WellFormedInit(rows);
      RunHoldsChunks(init);
      RunReachable(init);
      var s := Run(init).value;
      HoldsChunksNext(s, init, row);
      assert Run(rows) == Ok(Step(s, row).value);
    }
  }

  /** What the tail flush leaves of a state that holds the chunks. */
  lemma FlushHoldsChunks(s: State, c: seq<seq<FrameRow>>)
    requires s.frames.Keys == Below(s.count)
    requires |c| == s.count + (if s.videobuf.Some? then 1 else 0)
    requires forall k :: 0 <= k < s.count ==> k in s.frames && s.frames[k] == Stream(c[k])
    requires s.videobuf.Some? ==> s.videobuf.value == Stream(c[s.count])
    ensures forall k :: k in Flush(s) ==> k < |c| && Flush(s)[k] == Stream(c[k])
    ensures forall k :: 0 <= k < |c| && |Stream(c[k])| > 0 ==> k in Flush(s)
  {
    forall k | 0 <= k < |c| && |Stream(c[k])| > 0 ensures k in Flush(s) {
      if k == s.count {
        assert s.videobuf.Some?;
      }
    }
  }

  /** Per-chunk contents: for a well-formed stream the segment stored under
      key k is exactly chunk k's bytes (PPS+SPS+frame of its GOP start, then
      each further frame), every chunk with some bytes is stored, and the
      time list under k is exactly chunk k's frame times in row order. */
  lemma ChunkContents(rows: seq<FrameRow>)
    requires WellFormed(rows)
    ensures Reassembly(rows).Ok?
    ensures var out := Reassembly(rows).value;
      var c := Chunks(rows);
      && (forall k :: k in out.framesByVideo ==> k < |c| && out.framesByVideo[k] == Stream(c[k]))
      && (forall k :: 0 <= k < |c| && |Stream(c[k])| > 0 ==> k in out.framesByVideo)
      && (forall k :: 0 <= k < |c| ==> k in out.timestampsByVideo && out.timestampsByVideo[k] == FrameTimes(c[k]))
  {
    RunHoldsChunks(rows);
    RunReachable(rows);
    var s := Run(rows).value;
    var c := Chunks(rows);
    FlushHoldsChunks(s, c);
    assert Reassembly(rows).value == Output(Flush(s), s.timestamps);
    forall k | 0 <= k < |c| ensures k in s.timestamps && s.timestamps[k] == FrameTimes(c[k]) {
      if k == s.count {
        assert s.videobuf.Some?;
      }
    }
  }

  // ---------------------------------------------------------------------
  // Behaviours a reader might not expect

  /** Two GOP starts with no completed chunk between them: the second
      overwrites the first under the same key, and the first row's bytes and
      time are gone. */
  lemma SecondGopStartDiscardsFirst(a: FrameRow, b: FrameRow)
    requires IsGopStart(a) && !Completes(a) && IsGopStart(b) && !Completes(b)
    requires |Seed(b)| > 0
    ensures Reassembly([a, b]) == Ok(Output(map[0 := Seed(b)], map[0 := [b.frameTime]]))
  {
    assert [a, b][..1] == [a];
    assert [a][..0] == [];
    var s1 := State(Some(Seed(a)), 0, map[0 := [a.frameTime]], map[]);
    assert Run([a]) == Ok(s1);
    var s2 := State(Some(Seed(b)), 0, map[0 := [b.frameTime]], map[]);
    assert s1.timestamps[0 := [b.frameTime]] == map[0 := [b.frameTime]];
    assert Step(s1, b) == Some(s2);
    assert Run([a, b]) == Ok(s2);
  }

  /** A continuation right after a completed chunk raises, even though an
      earlier chunk was well formed. */
  lemma ContinuationAfterCompletedChunkFails(a: FrameRow, b: FrameRow)
    requires IsGopStart(a) && Completes(a) && !IsGopStart(b)
    ensures Reassembly([a, b]) == Err(NoOpenBuffer(1))
  {
    assert [a, b][..1] == [a];
    assert [a][..0] == [];
    var s1 := State(None, 1, map[0 := [a.frameTime]], map[0 := Seed(a)]);
    assert Run([a]) == Ok(s1);
    assert Step(s1, b).None?;
    assert Run([a, b]) == Err(NoOpenBuffer(1));
  }
}
