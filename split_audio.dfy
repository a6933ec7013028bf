/**
 * split_audio.py: reading a transcript of "[start s -> end s] text" lines
 * back into segments, naming one output file per segment, asking the slicer
 * for each, and writing the manifest rows.
 *
 * Parsed times are the exact decimal values float() reads, as reals.
 */
module SplitAudio {

  import opened Options
  import opened PyStr
  import opened Numerals

  /** One entry of the segments list: start and end in seconds, and the text. */
  datatype Segment = Segment(start: real, end: real, text: string)

  /**
   * parse_timestamp: strip '[' and ']' from both ends, then whitespace, split
   * on "->", and read each side with every 's' removed. Any failure (not
   * exactly two sides, a side that is not a number) gives None, the model of
   * the (None, None) the function returns from its except branch.
   */
  function ParseTimestamp(ts: string): Option<(real, real)> {
    var inner := Strip(StripChars(ts, Some("[]")));
    var parts := SplitOn(inner, "->");
    if |parts| != 2 then
      None
    else
      var start := ParseFloat(RemoveChar(Strip(parts[0]), 's'));
      var end := ParseFloat(RemoveChar(Strip(parts[1]), 's'));
      if start.None? || end.None? then None else Some((start.value, end.value))
  }

  /**
   * A stamp whose inside is left "->" right, with no other arrow, is accepted
   * exactly when both sides, stripped and without their 's' letters, read as
   * numbers, and then gives those two numbers.
   */
  lemma ParseTimestampSides(ts: string, left: string, right: string)
    requires Strip(StripChars(ts, Some("[]"))) == left + "->" + right
    requires IndexOf(left, "->") == -1 && IndexOf(right, "->") == -1
    ensures var start, end := ParseFloat(RemoveChar(Strip(left), 's')), ParseFloat(RemoveChar(Strip(right), 's'));
      ParseTimestamp(ts) == if start.Some? && end.Some? then Some((start.value, end.value)) else None
  {
    SplitOnce(left, right, "->");
  }

  /**
   * An accepted time stamp has exactly one "->" between its brackets: it is
   * the two sides around it, neither holding another arrow, and each side
   * reads as the number it yields.
   */
  lemma TimestampHasOneArrow(ts: string)
    requires ParseTimestamp(ts).Some?
    ensures var inner := Strip(StripChars(ts, Some("[]")));
      exists left, right ::
        && inner == left + "->" + right
        && IndexOf(left, "->") == -1 && IndexOf(right, "->") == -1
        && ParseFloat(RemoveChar(Strip(left), 's')) == Some(ParseTimestamp(ts).value.0)
        && ParseFloat(RemoveChar(Strip(right), 's')) == Some(ParseTimestamp(ts).value.1)
  {
    var inner := Strip(StripChars(ts, Some("[]")));
    var parts := SplitOn(inner, "->");
    assert parts[1..] == [parts[1]];
    assert Join(parts, "->") == parts[0] + "->" + parts[1];
  }

  /** Without an arrow there is nothing to split, and the stamp is rejected. */
  lemma NoArrowRejected(ts: string)
    requires IndexOf(Strip(StripChars(ts, Some("[]"))), "->") == -1
    ensures ParseTimestamp(ts) == None
  {
  }

  /** The empty slice is rejected. */
  lemma EmptyTimestampRejected()
    ensures ParseTimestamp("") == None
  {
    NoArrowRejected("");
  }

  /** Every 's' goes, not only the unit after the number: "[1s2->3]" reads as 12 and 3. */
  lemma EveryUnitLetterRemoved()
    ensures ParseTimestamp("[1s2->3]") == Some((12.0, 3.0))
  {
    ExampleInner();
    NoOccurrence("1s2", "->");
    NoOccurrence("3", "->");
    ParseTimestampSides("[1s2->3]", "1s2", "3");
    ExampleLeft();
    ExampleRight();
  }

  lemma ExampleInner()
    ensures Strip(StripChars("[1s2->3]", Some("[]"))) == "1s2" + "->" + "3"
  {
    var inner := "1s2->3";
    assert StripChars("[1s2->3]", Some("[]")) == inner by {
      assert "[1s2->3]" == "[" + inner + "]";
      StripCharsUnique("[", inner, "]", Some("[]"));
    }
    assert Strip(inner) == inner by {
      StripNumeral(inner);
    }
  }

  lemma ExampleLeft()
    ensures ParseFloat(RemoveChar(Strip("1s2"), 's')) == Some(12.0)
  {
    ExampleLeftText();
    ExampleLeftValue();
  }

  lemma ExampleLeftText()
    ensures RemoveChar(Strip("1s2"), 's') == "12"
  {
    assert Strip("1s2") == "1s2" by {
      StripNumeral("1s2");
    }
    assert RemoveChar("1s2", 's') == "12";
  }

  lemma ExampleLeftValue()
    ensures ParseFloat("12") == Some(12.0)
  {
    assert DigitsValue("12") == 12 by {
      assert "12"[..1] == "1" && "1"[..0] == [];
    }
    DigitsParse("12");
  }

  lemma ExampleRight()
    ensures ParseFloat(RemoveChar(Strip("3"), 's')) == Some(3.0)
  {
    assert Strip("3") == "3" by {
      StripNumeral("3");
    }
    assert RemoveChar("3", 's') == "3";
    assert ParseFloat("3") == Some(3.0) by {
      DigitsParse("3");
    }
  }

  /** Python's s[i:j] for indices within the string. */
  function Slice(s: string, i: nat, j: nat): (r: string)
    requires i <= |s| && j <= |s|
    ensures |r| == if j <= i then 0 else j - i
    ensures i < j ==> r == s[i..j]
  {
    if j <= i then [] else s[i..j]
  }

  /**
   * One pass of the reading loop over a line: skip it if it is blank or
   * lacks '[' or ']'; otherwise the stamp runs from the first '[' through the
   * first ']', the text is everything after that ']', stripped, and the line
   * yields a segment exactly when the stamp parses.
   */
  function ParseLine(line: string): Option<Segment> {
    var l := Strip(line);
    if l == [] then
      None
    else
      var startIdx := Find(l, '[');
      var endIdx := Find(l, ']');
      if startIdx == -1 || endIdx == -1 then
        None
      else
        var text := Strip(l[endIdx + 1..]);
        match ParseTimestamp(Slice(l, startIdx, endIdx + 1))
        case None => None
        case Some(times) => Some(Segment(times.0, times.1, text))
  }

  /** A blank line, or one lacking either bracket, yields nothing. */
  lemma UnbracketedLineSkipped(line: string)
    requires Strip(line) == [] || '[' !in Strip(line) || ']' !in Strip(line)
    ensures ParseLine(line) == None
  {
  }

  /** When the first ']' comes before the first '[', the stamp slice is empty and the line yields nothing. */
  lemma CloseBeforeOpenSkipped(line: string)
    requires var l := Strip(line); 0 <= Find(l, ']') < Find(l, '[')
    ensures ParseLine(line) == None
  {
    EmptyTimestampRejected();
  }

  /**
   * Conversely, a line that yields a segment holds both brackets, its first
   * '[' before its first ']'.
   */
  lemma AcceptedLineBracketed(line: string)
    requires ParseLine(line).Some?
    ensures var l := Strip(line); '[' in l && ']' in l && Find(l, '[') < Find(l, ']')
  {
    var l := Strip(line);
    if Find(l, ']') < Find(l, '[') {
      CloseBeforeOpenSkipped(line);
    }
  }

  /** The outcome of ParseLine on each line, in order. */
  function ParsedLines(lines: seq<string>): (parsed: seq<Option<Segment>>)
    ensures |parsed| == |lines|
  {
    seq(|lines|, i requires 0 <= i < |lines| => ParseLine(lines[i]))
  }

  /** The values of the Some entries, in order. */
  function Collect(parsed: seq<Option<Segment>>): (segments: seq<Segment>)
    ensures |segments| <= |parsed|
  {
    if parsed == [] then
      []
    else
      var last := parsed[|parsed| - 1];
      Collect(parsed[..|parsed| - 1]) + (if last.Some? then [last.value] else [])
  }

  /** The segments the reading loop collects from the given lines, in order. */
  function ParseTranscript(lines: seq<string>): seq<Segment> {
    Collect(ParsedLines(lines))
  }

  lemma {:induction false} CollectAppend(a: seq<Option<Segment>>, b: seq<Option<Segment>>)
    ensures Collect(a + b) == Collect(a) + Collect(b)
    decreases |b|
  {
    if b == [] {
      assert a + b == a;
    } else {
      assert (a + b)[..|a + b| - 1] == a + b[..|b| - 1];
      CollectAppend(a, b[..|b| - 1]);
    }
  }

  /** Reading is line by line: the segments of a concatenation are those of each part, in order. */
  lemma ParseTranscriptAppend(a: seq<string>, b: seq<string>)
    ensures ParseTranscript(a + b) == ParseTranscript(a) + ParseTranscript(b)
  {
    var pa, pb, pab := ParsedLines(a), ParsedLines(b), ParsedLines(a + b);
    forall k | 0 <= k < |pab| ensures pab[k] == (pa + pb)[k] {
      if k < |a| {
        assert (a + b)[k] == a[k];
      } else {
        assert (a + b)[k] == b[k - |a|];
      }
    }
    assert pab == pa + pb;
    CollectAppend(pa, pb);
  }

  lemma {:induction false} CollectSources(parsed: seq<Option<Segment>>)
    ensures forall seg :: seg in Collect(parsed) ==> exists k :: 0 <= k < |parsed| && parsed[k] == Some(seg)
    decreases |parsed|
  {
    if parsed != [] {
      var init := parsed[..|parsed| - 1];
      CollectSources(init);
      assert forall k :: 0 <= k < |init| ==> init[k] == parsed[k];
    }
  }

  /** Every collected segment comes from some line. */
  lemma ParseTranscriptSources(lines: seq<string>)
    ensures forall seg :: seg in ParseTranscript(lines) ==> exists line :: line in lines && ParseLine(line) == Some(seg)
  {
    var parsed := ParsedLines(lines);
    CollectSources(parsed);
    forall seg | seg in ParseTranscript(lines) ensures exists line :: line in lines && ParseLine(line) == Some(seg) {
      var k :| 0 <= k < |parsed| && parsed[k] == Some(seg);
      assert lines[k] in lines;
    }
  }

  /**
   * A line that is not a record is skipped without disturbing the others:
   * the segments read around it are exactly those read without it.
   */
  lemma SkippedLineIgnored(before: seq<string>, line: string, after: seq<string>)
    requires ParseLine(line) == None
    ensures ParseTranscript(before + [line] + after) == ParseTranscript(before + after)
  {
    ParseTranscriptAppend(before + [line], after);
    ParseTranscriptAppend(before, [line]);
    ParseTranscriptAppend(before, after);
    assert ParsedLines([line]) == [None];
    assert ParseTranscript([line]) == Collect([None]) == Collect([]) + [];
    assert ParseTranscript(before) + [] == ParseTranscript(before);
  }

  /** One line on its own yields its segment when it is accepted, and nothing otherwise. */
  lemma ParseTranscriptSingle(line: string)
    ensures ParseTranscript([line]) == if ParseLine(line).Some? then [ParseLine(line).value] else []
  {
    var parsed := ParsedLines([line]);
    assert parsed == [ParseLine(line)];
    CollectSingle(ParseLine(line));
  }

  lemma CollectSingle(outcome: Option<Segment>)
    ensures Collect([outcome]) == if outcome.Some? then [outcome.value] else []
  {
    assert [outcome][..0] == [];
  }

  /** The positions of the lines that yield a segment. */
  function AcceptedLines(lines: seq<string>): set<nat> {
    set i: nat | i < |lines| && ParseLine(lines[i]).Some?
  }

  /** As many segments are read as there are accepted lines. */
  lemma ParseTranscriptCount(lines: seq<string>)
    ensures |ParseTranscript(lines)| == |AcceptedLines(lines)|
  {
    var parsed := ParsedLines(lines);
    CollectCount(parsed);
    assert SomeAt(parsed) == AcceptedLines(lines);
  }

  /** The positions of the Some entries. */
  function SomeAt(parsed: seq<Option<Segment>>): set<nat> {
    set i: nat | i < |parsed| && parsed[i].Some?
  }

  lemma {:induction false} CollectCount(parsed: seq<Option<Segment>>)
    ensures |Collect(parsed)| == |SomeAt(parsed)|
    decreases |parsed|
  {
    if parsed == [] {
      assert SomeAt(parsed) == {};
    } else {
      var n := |parsed| - 1;
      var init := parsed[..n];
      CollectCount(init);
      var a, b := SomeAt(init), SomeAt(parsed);
      assert n !in a;
      if parsed[n].Some? {
        assert b == a + {n};
      } else {
        assert b == a;
      }
    }
  }

  lemma CollectSkip(parsed: seq<Option<Segment>>, i: nat)
    requires i < |parsed| && parsed[i] == None
    ensures Collect(parsed[..i + 1]) == Collect(parsed[..i])
  {
    assert parsed[..i + 1][..i] == parsed[..i];
  }

  lemma CollectTake(parsed: seq<Option<Segment>>, i: nat, segment: Segment)
    requires i < |parsed| && parsed[i] == Some(segment)
    ensures Collect(parsed[..i + 1]) == Collect(parsed[..i]) + [segment]
  {
    assert parsed[..i + 1][..i] == parsed[..i];
  }

  /**
   * The loop over the lines of the transcript file: each line that yields a
   * segment appends it, the others are skipped.
   */
  method ReadSegments(lines: seq<string>) returns (segments: seq<Segment>)
    ensures segments == ParseTranscript(lines)
  {
    ghost var parsed := ParsedLines(lines);
    segments := [];
    for i := 0 to |lines|
      invariant segments == Collect(parsed[..i])
    {
      var segment := ParseLine(lines[i]);
      if segment.None? {
        CollectSkip(parsed, i);
        continue;
      }
      CollectTake(parsed, i, segment.value);
      segments := segments + [segment.value];
    }
    assert parsed[..|lines|] == parsed;
  }

  /** f"audio_{i:03d}.{output_format}". */
  function FileName(i: nat, format: string): string {
    "audio_" + ZeroPad(i, 3) + "." + format
  }

  /** The first segment of a wav run is audio_001.wav. */
  lemma FileNameExample()
    ensures FileName(1, "wav") == "audio_001.wav"
  {
    assert NatToString(1) == "1";
    assert ZeroPad(1, 3) == "001";
  }

  /** Different indices never share a file name. */
  lemma FileNameInjective(i: nat, j: nat, format: string)
    requires FileName(i, format) == FileName(j, format)
    ensures i == j
  {
    var a, b := ZeroPad(i, 3), ZeroPad(j, 3);
    ZeroPadSpec(i, 3);
    ZeroPadSpec(j, 3);
    SameFrame("audio_", a, b, ".", format);
  }

  lemma FileNamesDiffer(i: nat, j: nat, format: string)
    requires i != j
    ensures FileName(i, format) != FileName(j, format)
  {
    if FileName(i, format) == FileName(j, format) {
      FileNameInjective(i, j, format);
    }
  }

  /** What lies between the same prefix and the same suffix is determined. */
  lemma SameFrame(p: string, a: string, b: string, d: string, q: string)
    requires p + a + d + q == p + b + d + q
    ensures a == b
  {
    assert a == (p + a + d + q)[|p|..|p| + |a|];
    assert b == (p + b + d + q)[|p|..|p| + |b|];
  }

  /** The audio codec for the output format. */
  function Codec(format: string): string {
    if format == "wav" then "pcm_s16le" else "libmp3lame"
  }

  /** One call of the slicer: cut duration seconds from start into output with codec. */
  datatype SliceRequest = SliceRequest(input: string, output: string, start: real, duration: real, codec: string)

  /** The slicer calls, one per segment, numbered from 1. */
  function SliceRequests(audioPath: string, segments: seq<Segment>, format: string): (requests: seq<SliceRequest>)
    ensures |requests| == |segments|
  {
    if segments == [] then
      []
    else
      var n := |segments|;
      var seg := segments[n - 1];
      SliceRequests(audioPath, segments[..n - 1], format)
        + [SliceRequest(audioPath, FileName(n, format), seg.start, seg.end - seg.start, Codec(format))]
  }

  /** Segment i is cut, as audio_<i>, from its start for end - start seconds, negative or not. */
  lemma {:induction false} SliceRequestAt(audioPath: string, segments: seq<Segment>, format: string, i: nat)
    requires i < |segments|
    ensures SliceRequests(audioPath, segments, format)[i]
         == SliceRequest(audioPath, FileName(i + 1, format), segments[i].start,
                         segments[i].end - segments[i].start, Codec(format))
    decreases |segments|
  {
    if i < |segments| - 1 {
      SliceRequestAt(audioPath, segments[..|segments| - 1], format, i);
    }
  }

  /** No two slicer calls write the same file, so no cut overwrites another. */
  lemma SliceOutputsDistinct(audioPath: string, segments: seq<Segment>, format: string, i: nat, j: nat)
    requires i < j < |segments|
    ensures SliceRequests(audioPath, segments, format)[i].output != SliceRequests(audioPath, segments, format)[j].output
  {
    var requests := SliceRequests(audioPath, segments, format);
    assert requests[i].output == FileName(i + 1, format) by {
      SliceRequestAt(audioPath, segments, format, i);
    }
    assert requests[j].output == FileName(j + 1, format) by {
      SliceRequestAt(audioPath, segments, format, j);
    }
    FileNamesDiffer(i + 1, j + 1, format);
  }

  /**
   * The files the slicing loop writes: audio_<i> for each segment i whose
   * cut succeeded, where sliceOk stands for the outcome of the external
   * slicer on call i.
   */
  function Produced(n: nat, format: string, sliceOk: nat -> bool): (files: seq<string>)
    ensures |files| <= n
  {
    if n == 0 then []
    else Produced(n - 1, format, sliceOk) + (if sliceOk(n) then [FileName(n, format)] else [])
  }

  /** audio_<i> is produced exactly when segment i exists and its slice succeeded. */
  lemma {:induction false} ProducedMembers(n: nat, format: string, sliceOk: nat -> bool, i: nat)
    ensures FileName(i, format) in Produced(n, format, sliceOk) <==> 1 <= i <= n && sliceOk(i)
  {
    if n > 0 {
      var name := FileName(i, format);
      var last := if sliceOk(n) then [FileName(n, format)] else [];
      assert Produced(n, format, sliceOk) == Produced(n - 1, format, sliceOk) + last;
      assert name in last <==> i == n && sliceOk(n) by {
        if i != n {
          FileNamesDiffer(i, n, format);
        }
      }
      ProducedMembers(n - 1, format, sliceOk, i);
    }
  }

  /**
   * Two segments whose second cut fails: one audio file is produced, and the
   * manifest still lists both segments after its header.
   */
  lemma SecondSliceFails(segments: seq<Segment>, format: string, sliceOk: nat -> bool)
    requires |segments| == 2 && sliceOk(1) && !sliceOk(2)
    ensures Produced(|segments|, format, sliceOk) == [FileName(1, format)]
    ensures |[ManifestHeader] + ManifestRows(segments, format)| == 3
    ensures ManifestRows(segments, format)[1][0] == FileName(2, format)
  {
    assert Produced(1, format, sliceOk) == Produced(0, format, sliceOk) + [FileName(1, format)];
    ManifestRowAt(segments, format, 1);
  }

  lemma SliceRequestsStep(audioPath: string, segments: seq<Segment>, format: string, i: nat,
                           requests: seq<SliceRequest>, request: SliceRequest)
    requires i < |segments| && requests == SliceRequests(audioPath, segments[..i], format)
    requires request == SliceRequest(audioPath, FileName(i + 1, format), segments[i].start,
                                     segments[i].end - segments[i].start, Codec(format))
    ensures requests + [request] == SliceRequests(audioPath, segments[..i + 1], format)
  {
    assert segments[..i + 1] == segments[..i] + [segments[i]];
    SliceRequestsSnoc(audioPath, segments[..i], segments[i], format);
  }

  lemma SliceRequestsSnoc(audioPath: string, init: seq<Segment>, segment: Segment, format: string)
    ensures SliceRequests(audioPath, init + [segment], format)
         == SliceRequests(audioPath, init, format)
            + [SliceRequest(audioPath, FileName(|init| + 1, format), segment.start,
                            segment.end - segment.start, Codec(format))]
  {
    assert (init + [segment])[..|init|] == init;
  }

  /**
   * The slicing loop: one slicer call per segment i (from 1). A failed cut
   * is logged and the loop goes on, so the calls made do not depend on which
   * of them succeed.
   */
  method SliceAll(audioPath: string, segments: seq<Segment>, format: string)
    returns (requests: seq<SliceRequest>)
    ensures requests == SliceRequests(audioPath, segments, format)
  {
    requests := [];
    for i := 0 to |segments|
      invariant requests == SliceRequests(audioPath, segments[..i], format)
    {
      var index, segment := i + 1, segments[i];
      var outputFile := FileName(index, format);
      var duration := segment.end - segment.start;
      var request := SliceRequest(audioPath, outputFile, segment.start, duration, Codec(format));
      SliceRequestsStep(audioPath, segments, format, i, requests, request);
      requests := requests + [request];
    }
    assert segments[..|segments|] == segments;
  }

  /** The manifest's header row. */
  const ManifestHeader: seq<string> := ["File", "Start Time", "End Time", "Duration", "Text"]

  /** The manifest row of segment i (from 1). */
  function ManifestRow(i: nat, seg: Segment, format: string): seq<string> {
    [FileName(i, format), FormatFixed2(seg.start) + "s", FormatFixed2(seg.end) + "s",
     FormatFixed2(seg.end - seg.start) + "s", seg.text]
  }

  /** The rows after the header, one per segment, numbered from 1. */
  function ManifestRows(segments: seq<Segment>, format: string): (rows: seq<seq<string>>)
    ensures |rows| == |segments|
  {
    if segments == [] then
      []
    else
      var n := |segments|;
      ManifestRows(segments[..n - 1], format) + [ManifestRow(n, segments[n - 1], format)]
  }

  /** Row i describes segment i and names its file, whether or not the file was produced. */
  lemma {:induction false} ManifestRowAt(segments: seq<Segment>, format: string, i: nat)
    requires i < |segments|
    ensures ManifestRows(segments, format)[i] == ManifestRow(i + 1, segments[i], format)
    ensures ManifestRows(segments, format)[i][0] == FileName(i + 1, format)
    decreases |segments|
  {
    if i < |segments| - 1 {
      ManifestRowAt(segments[..|segments| - 1], format, i);
    }
  }

  lemma ManifestRowsStep(segments: seq<Segment>, format: string, i: nat)
    requires i < |segments|
    ensures ManifestRows(segments[..i + 1], format)
         == ManifestRows(segments[..i], format) + [ManifestRow(i + 1, segments[i], format)]
  {
    assert segments[..i + 1][..i] == segments[..i];
  }

  /** The manifest-writing loop: the header, then one row per segment. */
  method WriteManifest(segments: seq<Segment>, format: string) returns (rows: seq<seq<string>>)
    ensures rows == [ManifestHeader] + ManifestRows(segments, format)
  {
    rows := [ManifestHeader];
    for i := 0 to |segments|
      invariant rows == [ManifestHeader] + ManifestRows(segments[..i], format)
    {
      var index, segment := i + 1, segments[i];
      var row := ManifestRow(index, segment, format);
      ManifestRowsStep(segments, format, i);
      rows := rows + [row];
    }
    assert segments[..|segments|] == segments;
  }

  /** What the file system and the search for ffmpeg report. */
  datatype Environment = Environment(audioExists: bool, transcriptExists: bool, ffmpegFound: bool)

  /** How a run ends: one of the early returns, or the slicer calls, the files produced and the manifest rows. */
  datatype SplitOutcome =
    | MissingAudio
    | MissingTranscript
    | NoFfmpeg
    | NoSegments
    | Done(requests: seq<SliceRequest>, produced: seq<string>, manifest: seq<seq<string>>)

  /**
   * split_audio_by_transcript: the checks in order, then reading, slicing
   * and the manifest. The manifest does not depend on which slices succeeded.
   */
  method SplitAudioByTranscript(env: Environment, audioPath: string, transcript: string, format: string,
                                sliceOk: nat -> bool)
    returns (outcome: SplitOutcome)
    ensures !env.audioExists ==> outcome == MissingAudio
    ensures env.audioExists && !env.transcriptExists ==> outcome == MissingTranscript
    ensures env.audioExists && env.transcriptExists && !env.ffmpegFound ==> outcome == NoFfmpeg
    ensures env.audioExists && env.transcriptExists && env.ffmpegFound ==>
              var segments := ParseTranscript(ReadLines(transcript));
              outcome == if segments == [] then NoSegments
                         else Done(SliceRequests(audioPath, segments, format),
                                   Produced(|segments|, format, sliceOk),
                                   [ManifestHeader] + ManifestRows(segments, format))
  {
    if !env.audioExists {
      return MissingAudio;
    }
    if !env.transcriptExists {
      return MissingTranscript;
    }
    if !env.ffmpegFound {
      return NoFfmpeg;
    }
    var segments := ReadSegments(ReadLines(transcript));
    if segments == [] {
      return NoSegments;
    }
    var requests := SliceAll(audioPath, segments, format);
    var rows := WriteManifest(segments, format);
    outcome := Done(requests, Produced(|segments|, format, sliceOk), rows);
  }

}
