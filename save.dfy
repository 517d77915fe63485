/** The names save() derives from the written segment files: the name each
    segment is converted to, and the '|'-joined list handed to the
    concatenating call when merging. Both derive the name with
    `video.split('.')[0]`, which cuts the whole path at its first '.'; the
    members named AsWritten model that, and Mp4Name the evidently intended
    name (the file name with its extension replaced), which coincide exactly
    when the output directory holds no '.'. */
module Save {
  import opened Common
  import opened Paths
  import Extractor

  /** `video.split('.')[0] + ".mp4"`: everything before the FIRST '.' of the
      whole path, then ".mp4". */
  function Mp4NameAsWritten(video: string): string
  {
    BeforeFirst(video, '.') + ".mp4"
  }

  /** Index of the '.' that starts the extension of the last path
      component, if it has one. */
  function ExtensionDot(p: string): (r: Option<nat>)
    ensures r.Some? ==> r.value < |p|
  {
    if p == [] || p[|p| - 1] == '/' then None
    else if p[|p| - 1] == '.' then Some(|p| - 1)
    else ExtensionDot(p[..|p| - 1])
  }

  /** The path without the extension of its last component. */
  function StripExtension(p: string): string
  {
    match ExtensionDot(p)
    case None => p
    case Some(i) => p[..i]
  }

  /** The intended converted name of a segment file: the same path with the
      extension of its last component replaced by ".mp4". Not what line 161
      computes for an output directory containing '.'. */
  function Mp4Name(video: string): string
  {
    StripExtension(video) + ".mp4"
  }

  /** The extension starts at the last '.' when no '/' follows it. */
  lemma {:induction false} ExtensionDotAt(p: string, j: nat)
    requires j < |p| && p[j] == '.'
    requires forall m :: j < m < |p| ==> p[m] != '.' && p[m] != '/'
    ensures ExtensionDot(p) == Some(j)
    decreases |p|
  {
    if j < |p| - 1 {
      ExtensionDotAt(p[..|p| - 1], j);
    }
  }

  lemma ExtensionDotOfTmp(pre: string)
    ensures ExtensionDot(pre + ".tmp") == Some(|pre|)
  {
    var q := pre + ".tmp";
    assert q[|pre|] == '.' && q[|pre| + 1] == 't' && q[|pre| + 2] == 'm' && q[|pre| + 3] == 'p';
    ExtensionDotAt(q, |pre|);
  }

  /** The segment file name k.tmp under output, taken apart. */
  lemma TmpNameParts(output: string, k: nat)
    ensures TmpName(output, k) == JoinPrefix(output) + NatStr(k) + ".tmp"
    ensures PathJoin(output, NatStr(k) + ".mp4") == JoinPrefix(output) + NatStr(k) + ".mp4"
  {
    PathJoinRelative(output, NatStr(k) + ".tmp");
    PathJoinRelative(output, NatStr(k) + ".mp4");
  }

  /** Under the intended naming, segment k of a run is converted to k.mp4
      beside it, whatever the output directory is called. */
  lemma Mp4NameOfSegment(output: string, k: nat)
    ensures Mp4Name(TmpName(output, k)) == PathJoin(output, NatStr(k) + ".mp4")
  {
    var pre := JoinPrefix(output) + NatStr(k);
    TmpNameParts(output, k);
    ExtensionDotOfTmp(pre);
    assert (pre + ".tmp")[..|pre|] == pre;
  }

  lemma Mp4BaseName(output: string, k: nat)
    ensures Basename(PathJoin(output, NatStr(k) + ".mp4")) == NatStr(k) + ".mp4"
  {
    var name := NatStr(k) + ".mp4";
    assert '/' !in name by {
      assert forall j :: 0 <= j < |NatStr(k)| ==> name[j] == NatStr(k)[j];
    }
    BasenameOfJoin(output, name);
  }

  /** Under the intended naming, different segments are converted to
      different files. */
  lemma Mp4NamesDistinct(output: string, a: nat, b: nat)
    requires a != b
    ensures Mp4Name(TmpName(output, a)) != Mp4Name(TmpName(output, b))
  {
    Mp4NameOfSegment(output, a);
    Mp4NameOfSegment(output, b);
    if PathJoin(output, NatStr(a) + ".mp4") == PathJoin(output, NatStr(b) + ".mp4") {
      Mp4BaseName(output, a);
      Mp4BaseName(output, b);
      var na, nb := NatStr(a) + ".mp4", NatStr(b) + ".mp4";
      assert na[..|na| - 4] == NatStr(a) && nb[..|nb| - 4] == NatStr(b);
      NatStrInjective(a, b);
    }
  }

  lemma DigitsHaveNoDot(d: string)
    requires IsDigits(d)
    ensures '.' !in d && '|' !in d
  {
    assert forall i :: 0 <= i < |d| ==> d[i] != '.' && d[i] != '|';
  }

  /** With an output directory free of '.', the code as written gives the
      intended name. */
  lemma AsWrittenAgreesWithoutDots(output: string, k: nat)
    requires '.' !in output
    ensures Mp4NameAsWritten(TmpName(output, k)) == Mp4Name(TmpName(output, k))
  {
    var pre := JoinPrefix(output) + NatStr(k);
    DigitsHaveNoDot(NatStr(k));
    assert '.' !in pre;
    TmpNameParts(output, k);
    BeforeFirstSkips(pre, '.', ".tmp");
    Mp4NameOfSegment(output, k);
  }

  /** With an output directory that contains a '.', the code as written
      converts every segment to one and the same file, the part of the
      directory before its first '.' followed by ".mp4". */
  lemma AsWrittenIgnoresSegment(output: string, k: nat)
    requires '.' in output
    ensures Mp4NameAsWritten(TmpName(output, k)) == BeforeFirst(output, '.') + ".mp4"
  {
    TmpNameParts(output, k);
    var rest := if output == "" || output[|output| - 1] == '/' then NatStr(k) + ".tmp" else "/" + NatStr(k) + ".tmp";
    assert TmpName(output, k) == output + rest;
    BeforeFirstStops(output, '.', rest);
  }

  /** Conversely, with a '.' in the output directory the code as written
      never gives the intended name: its result is shorter. */
  lemma AsWrittenDiffersWithDots(output: string, k: nat)
    requires '.' in output
    ensures Mp4NameAsWritten(TmpName(output, k)) != Mp4Name(TmpName(output, k))
  {
    AsWrittenIgnoresSegment(output, k);
    Mp4NameOfSegment(output, k);
    TmpNameParts(output, k);
    BeforeFirstIsPrefix(output, '.');
    BeforeFirstOmitsSeparator(output, '.');
    var stem := BeforeFirst(output, '.');
    assert stem != output;
    assert |Mp4NameAsWritten(TmpName(output, k))| == |stem| + 4;
    assert |Mp4Name(TmpName(output, k))| == |JoinPrefix(output)| + |NatStr(k)| + 4;
  }

  /** So two segments of one run are converted to one and the same file under
      the code as written, while the intended names stay apart. */
  lemma DottedOutputCollides(output: string, a: nat, b: nat)
    requires '.' in output && a != b
    ensures Mp4NameAsWritten(TmpName(output, a)) == Mp4NameAsWritten(TmpName(output, b))
    ensures Mp4Name(TmpName(output, a)) != Mp4Name(TmpName(output, b))
  {
    AsWrittenIgnoresSegment(output, a);
    AsWrittenIgnoresSegment(output, b);
    Mp4NamesDistinct(output, a, b);
  }

  /** As written, with an output directory free of '.', segment k is
      converted to k.mp4 beside it. */
  lemma AsWrittenOfSegment(output: string, k: nat)
    requires '.' !in output
    ensures Mp4NameAsWritten(TmpName(output, k)) == PathJoin(output, NatStr(k) + ".mp4")
  {
    AsWrittenAgreesWithoutDots(output, k);
    Mp4NameOfSegment(output, k);
  }

  /** The instance "./out": segments 0 and 1 are both converted to ".mp4",
      although their intended names differ. */
  lemma DotSlashOutCollides()
    ensures Mp4NameAsWritten(TmpName("./out", 0)) == ".mp4"
    ensures Mp4NameAsWritten(TmpName("./out", 1)) == ".mp4"
    ensures Mp4Name(TmpName("./out", 0)) != Mp4Name(TmpName("./out", 1))
  {
    var out := "./out";
    assert out[0] == '.' && BeforeFirst(out, '.') == "";
    DottedOutputCollides(out, 0, 1);
    AsWrittenIgnoresSegment(out, 0);
  }

  /** For "./out" the converted file ".mp4" is not the "0.mp4" the timeline
      names. */
  lemma DotSlashOutMissesTimeline()
    ensures Basename(Mp4NameAsWritten(TmpName("./out", 0))) != Extractor.TimelineFilename(TmpName("./out", 0))
  {
    DotSlashOutCollides();
    assert '/' !in ".mp4";
    BasenameOfTail("", ".mp4");
    assert "" + ".mp4" == ".mp4";
    Extractor.TimelineNameOfSegment("./out", 0);
    assert (NatStr(0) + ".mp4")[0] == '0';
  }

  /** For "./out" the merge list of a two-segment run names ".mp4" twice. */
  lemma DotSlashOutMergeList()
    ensures ConcatList(Extractor.Names("./out", 2)) == ".mp4|.mp4"
  {
    DotSlashOutCollides();
    var names := Extractor.Names("./out", 2);
    var parts := Mp4NamesAsWritten(names);
    assert parts[0] == ".mp4" && parts[1] == ".mp4";
    assert parts == [".mp4", ".mp4"];
    assert JoinWith(parts, '|') == ".mp4" + "|" + JoinWith(parts[1..], '|');
  }

  /** As written, with an output directory free of '.', the name the
      timeline gives a segment is the last component of the file save()
      converts it to. */
  lemma TimelineNameIsConvertedBasename(output: string, k: nat)
    requires '.' !in output
    ensures Basename(Mp4NameAsWritten(TmpName(output, k))) == Extractor.TimelineFilename(TmpName(output, k))
  {
    AsWrittenOfSegment(output, k);
    Mp4BaseName(output, k);
    Extractor.TimelineNameOfSegment(output, k);
  }

  /** Under the intended naming the same holds for every output directory. */
  lemma TimelineNameIsIntendedBasename(output: string, k: nat)
    ensures Basename(Mp4Name(TmpName(output, k))) == Extractor.TimelineFilename(TmpName(output, k))
  {
    Mp4NameOfSegment(output, k);
    Mp4BaseName(output, k);
    Extractor.TimelineNameOfSegment(output, k);
  }

  /** `[video.split('.')[0] + ".mp4" for video in rawvideos]`. */
  function Mp4NamesAsWritten(rawvideos: seq<string>): seq<string>
  {
    seq(|rawvideos|, i requires 0 <= i < |rawvideos| => Mp4NameAsWritten(rawvideos[i]))
  }

  /** `'|'.join(...)`: the list given to the concatenating call, as written. */
  function ConcatList(rawvideos: seq<string>): string
  {
    JoinWith(Mp4NamesAsWritten(rawvideos), '|')
  }

  /** The intended converted names, in the order the segments were written. */
  function Mp4Names(rawvideos: seq<string>): seq<string>
  {
    seq(|rawvideos|, i requires 0 <= i < |rawvideos| => Mp4Name(rawvideos[i]))
  }

  /** The list the merge evidently intends: the intended names joined by '|'. */
  function IntendedConcatList(rawvideos: seq<string>): string
  {
    JoinWith(Mp4Names(rawvideos), '|')
  }

  lemma NoBarInMp4Name(output: string, k: nat)
    requires '|' !in output
    ensures '|' !in Mp4Name(TmpName(output, k))
  {
    Mp4NameOfSegment(output, k);
    TmpNameParts(output, k);
    DigitsHaveNoDot(NatStr(k));
    assert '|' !in JoinPrefix(output);
  }

  /** As written, for the segments of one run and an output directory with
      neither '.' nor '|', the concatenation list names k.mp4 for
      k = 0, 1, 2, ... in order, and taking it apart at '|' gives exactly
      those names back. */
  lemma ConcatListOfRun(output: string, n: nat)
    requires n > 0 && '.' !in output && '|' !in output
    ensures SplitOn(ConcatList(Extractor.Names(output, n)), '|')
      == seq(n, i requires 0 <= i < n => PathJoin(output, NatStr(i) + ".mp4"))
  {
    var parts := Mp4NamesAsWritten(Extractor.Names(output, n));
    forall i | 0 <= i < n
      ensures parts[i] == PathJoin(output, NatStr(i) + ".mp4") && '|' !in parts[i]
    {
      AsWrittenAgreesWithoutDots(output, i);
      Mp4NameOfSegment(output, i);
      NoBarInMp4Name(output, i);
    }
    SplitJoinRoundTrip(parts, '|');
  }

  /** As written, with a '.' in the output directory (and no '|'), the
      concatenation list of an n-segment run names one and the same file n
      times: the directory up to its first '.' followed by ".mp4". */
  lemma ConcatListRepeatsOnDottedOutput(output: string, n: nat)
    requires n > 0 && '.' in output && '|' !in output
    ensures SplitOn(ConcatList(Extractor.Names(output, n)), '|')
      == seq(n, i requires 0 <= i < n => BeforeFirst(output, '.') + ".mp4")
  {
    var parts := Mp4NamesAsWritten(Extractor.Names(output, n));
    BeforeFirstIsPrefix(output, '.');
    var stem := BeforeFirst(output, '.');
    assert '|' !in stem by {
      forall j | 0 <= j < |stem| ensures stem[j] != '|' { assert stem[j] == output[j]; }
    }
    forall i | 0 <= i < n
      ensures parts[i] == stem + ".mp4" && '|' !in parts[i]
    {
      AsWrittenIgnoresSegment(output, i);
    }
    SplitJoinRoundTrip(parts, '|');
  }

  /** Under the intended naming the list names k.mp4 for k = 0, 1, 2, ... for
      every output directory without '|'. */
  lemma IntendedConcatListOfRun(output: string, n: nat)
    requires n > 0 && '|' !in output
    ensures SplitOn(IntendedConcatList(Extractor.Names(output, n)), '|')
      == seq(n, i requires 0 <= i < n => PathJoin(output, NatStr(i) + ".mp4"))
  {
    var parts := Mp4Names(Extractor.Names(output, n));
    forall i | 0 <= i < n
      ensures parts[i] == PathJoin(output, NatStr(i) + ".mp4") && '|' !in parts[i]
    {
      Mp4NameOfSegment(output, i);
      NoBarInMp4Name(output, i);
    }
    SplitJoinRoundTrip(parts, '|');
  }
}
