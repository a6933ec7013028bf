/**
 * transcribe_audio in main.py: the test that keeps or drops each recognised
 * segment, the record line written for a kept one, and the single pass over
 * the recogniser's output that advances the progress bar for every segment
 * and emits the kept records, to a file or to the log.
 *
 * Times are modelled as whole hundredths of a second, exact and unbounded:
 * 0.5 s is 50 and 30.0 s is 3000. Durations are then computed exactly, where
 * the script subtracts binary floating-point values.
 */
module Transcribe {

  import opened Options
  import opened PyStr
  import opened Numerals

  /** One segment as the recogniser yields it: start, end, raw text. */
  datatype RawSegment = RawSegment(start: nat, end: nat, text: string)

  /** The defaults of min_segment_length and max_segment_length, in hundredths. */
  const DefaultMinLength: int := 50
  const DefaultMaxLength: int := 3000

  /**
   * The content half of the skip condition, on the stripped text: empty,
   * whitespace only, or without any alphanumeric character.
   */
  predicate NoContent(text: string) {
    text == [] || IsSpaceStr(text) || NoAlnum(text)
  }

  /**
   * The loop goes on to emit the segment exactly when none of the skip
   * conditions holds: too short, too long, or no content once stripped.
   */
  predicate Keep(seg: RawSegment, minLength: int, maxLength: int) {
    !(seg.end - seg.start < minLength || seg.end - seg.start > maxLength || NoContent(Strip(seg.text)))
  }

  /**
   * Both duration bounds are inclusive, and the emptiness and whitespace
   * tests add nothing to the alphanumeric one: a segment is kept exactly when
   * its duration lies in [minLength, maxLength] and its stripped text has an
   * alphanumeric character.
   */
  lemma KeepIff(seg: RawSegment, minLength: int, maxLength: int)
    ensures Keep(seg, minLength, maxLength)
        <==> minLength <= seg.end - seg.start <= maxLength && HasAlnum(Strip(seg.text))
  {
    var text := Strip(seg.text);
    NoAlnumIff(text);
    if AllSpace(text) {
      AllSpaceNoAlnum(text);
    }
  }

  /** With the default bounds, a 0.30 s "uh" is dropped. */
  lemma ShortFillerDropped()
    ensures !Keep(RawSegment(0, 30, "uh"), DefaultMinLength, DefaultMaxLength)
  {
  }

  /** "[<start:.2f>s -> <end:.2f>s]": the time stamp that opens a record. */
  function Stamp(start: nat, end: nat): string {
    "[" + Fmt2(start) + "s -> " + Fmt2(end) + "s]"
  }

  /**
   * The stamp opens with the only '[' in it and closes with the only ']', so
   * both are the first of their kind, and it holds no line break.
   */
  lemma StampBrackets(start: nat, end: nat)
    ensures var r := Stamp(start, end);
      && r != [] && r[0] == '[' && r[|r| - 1] == ']'
      && '[' !in r[1..] && ']' !in r[..|r| - 1]
      && Find(r, '[') == 0 && Find(r, ']') == |r| - 1
      && '\n' !in r && '\r' !in r
  {
    var s := Stamp(start, end);
    var a, b := Fmt2(start), Fmt2(end);
    Fmt2Chars(start);
    Fmt2Chars(end);
    forall i | 1 <= i < |s| - 1 ensures s[i] != '[' && s[i] != ']' && s[i] != '\n' && s[i] != '\r' {
      if i <= |a| {
        assert s[i] == a[i - 1];
      } else if i < |a| + 6 {
      } else if i < |a| + 6 + |b| {
        assert s[i] == b[i - |a| - 6];
      }
    }
    assert s[..|s| - 1][0] == '[';
  }

  /** The line written for a kept segment, without its line break. */
  function Record(seg: RawSegment): string {
    Stamp(seg.start, seg.end) + " " + Strip(seg.text)
  }

  /** The record line of a small example: times to two decimals, the text stripped. */
  lemma RecordExample()
    ensures Record(RawSegment(100, 450, " Xin chào ")) == "[1.00s -> 4.50s] Xin chào"
  {
    StampExample();
    ExampleTextStripped();
  }

  lemma ExampleTextStripped()
    ensures Strip(" Xin chào ") == "Xin chào"
  {
    assert " Xin chào " == [' '] + "Xin chào" + [' '];
    StripCharsUnique([' '], "Xin chào", [' '], None);
  }

  lemma StampExample()
    ensures Stamp(100, 450) == "[1.00s -> 4.50s]"
  {
    assert NatToString(1) == "1";
    assert NatToString(4) == "4";
    assert Fmt2(100) == "1.00";
    assert Fmt2(450) == "4.50";
  }

  /** The kept segments of raw, in input order. */
  function Kept(raw: seq<RawSegment>, minLength: int, maxLength: int): (kept: seq<RawSegment>)
    ensures |kept| <= |raw|
  {
    if raw == [] then
      []
    else
      var last := raw[|raw| - 1];
      var init := raw[..|raw| - 1];
      assert raw == init + [last];
      Kept(init, minLength, maxLength) + (if Keep(last, minLength, maxLength) then [last] else [])
  }

  /** A segment is among the kept ones exactly when it is in the input and passes the test. */
  lemma {:induction false} KeptMembers(raw: seq<RawSegment>, minLength: int, maxLength: int)
    ensures forall s :: s in Kept(raw, minLength, maxLength) <==> s in raw && Keep(s, minLength, maxLength)
    decreases |raw|
  {
    if raw != [] {
      var init := raw[..|raw| - 1];
      assert raw == init + [raw[|raw| - 1]];
      KeptMembers(init, minLength, maxLength);
    }
  }

  /** Filtering a concatenation filters each part in turn: the order of segments is kept. */
  lemma {:induction false} KeptAppend(a: seq<RawSegment>, b: seq<RawSegment>, minLength: int, maxLength: int)
    ensures Kept(a + b, minLength, maxLength) == Kept(a, minLength, maxLength) + Kept(b, minLength, maxLength)
    decreases |b|
  {
    if b == [] {
      assert a + b == a;
    } else {
      var init := b[..|b| - 1];
      assert (a + b)[..|a + b| - 1] == a + init;
      KeptAppend(a, init, minLength, maxLength);
    }
  }

  /** The record lines of the given segments, one per segment. */
  function Records(segs: seq<RawSegment>): (lines: seq<string>)
    ensures |lines| == |segs|
  {
    if segs == [] then [] else Records(segs[..|segs| - 1]) + [Record(segs[|segs| - 1])]
  }

  /** What successive f.write(line + "\n") calls leave in the file. */
  function Terminated(lines: seq<string>): string {
    if lines == [] then [] else Terminated(lines[..|lines| - 1]) + lines[|lines| - 1] + "\n"
  }

  lemma RecordsSnoc(segs: seq<RawSegment>, seg: RawSegment)
    ensures Records(segs + [seg]) == Records(segs) + [Record(seg)]
  {
    assert (segs + [seg])[..|segs|] == segs;
  }

  lemma TerminatedSnoc(lines: seq<string>, line: string)
    ensures Terminated(lines + [line]) == Terminated(lines) + line + "\n"
  {
    assert (lines + [line])[..|lines|] == lines;
  }

  lemma {:induction false} TerminatedCons(line: string, rest: seq<string>)
    ensures Terminated([line] + rest) == line + "\n" + Terminated(rest)
    decreases |rest|
  {
    if rest != [] {
      var init := rest[..|rest| - 1];
      assert ([line] + rest)[..|rest|] == [line] + init;
      TerminatedCons(line, init);
    }
  }

  /** The end time of the last segment, 0 before any. */
  function LastEnd(raw: seq<RawSegment>): nat {
    if raw == [] then 0 else raw[|raw| - 1].end
  }

  /** The arguments of the successive pbar.update(current_time - last_time) calls. */
  function Deltas(raw: seq<RawSegment>): (d: seq<int>)
    ensures |d| == |raw|
  {
    if raw == [] then
      []
    else
      var init := raw[..|raw| - 1];
      Deltas(init) + [raw[|raw| - 1].end - LastEnd(init)]
  }

  function Sum(xs: seq<int>): int {
    if xs == [] then 0 else Sum(xs[..|xs| - 1]) + xs[|xs| - 1]
  }

  lemma SumSnoc(xs: seq<int>, x: int)
    ensures Sum(xs + [x]) == Sum(xs) + x
  {
    assert (xs + [x])[..|xs|] == xs;
  }

  /** The updates telescope: the bar ends at the end time of the last segment. */
  lemma {:induction false} DeltasTelescope(raw: seq<RawSegment>)
    ensures Sum(Deltas(raw)) == LastEnd(raw)
    decreases |raw|
  {
    if raw != [] {
      var init := raw[..|raw| - 1];
      assert Deltas(raw)[..|raw| - 1] == Deltas(init);
      DeltasTelescope(init);
    }
  }

  /** When the end times do not go backwards, no update is negative. */
  lemma MonotoneDeltas(raw: seq<RawSegment>)
    requires forall i, j :: 0 <= i <= j < |raw| ==> raw[i].end <= raw[j].end
    ensures forall i :: 0 <= i < |raw| ==> Deltas(raw)[i] >= 0
  {
    forall i | 0 <= i < |raw| ensures Deltas(raw)[i] >= 0 {
      if i > 0 {
        assert raw[..i][i - 1] == raw[i - 1];
      }
    }
  }

  /** Where the records go: a file written with them, or the log. */
  datatype Output = ToFile(path: string, content: string) | ToScreen(messages: seq<string>)

  /** The progress bar: its total, its counter and every update it received. */
  datatype ProgressBar = ProgressBar(total: nat, n: int, updates: seq<int>)

  /**
   * transcribe_audio after the recogniser has run on the audio: the probed
   * duration falls back to 0 as the bar's total, and a non-empty output path
   * selects the file branch, anything else (no path, or "") the log branch.
   * Both branches apply the same test, so they emit the same records.
   */
  method TranscribeAudio(raw: seq<RawSegment>, duration: Option<nat>, outputPath: Option<string>,
                         minLength: int, maxLength: int)
    returns (out: Output, bar: ProgressBar)
    ensures bar.total == if duration.Some? then duration.value else 0
    ensures bar.updates == Deltas(raw)
    ensures bar.n == Sum(bar.updates) == LastEnd(raw)
    ensures outputPath.Some? && outputPath.value != [] ==>
              out == ToFile(outputPath.value, Terminated(Records(Kept(raw, minLength, maxLength))))
    ensures !(outputPath.Some? && outputPath.value != []) ==>
              out == ToScreen(Records(Kept(raw, minLength, maxLength)))
  {
    var total := if duration.Some? then duration.value else 0;
    var n, updates;
    if outputPath.Some? && outputPath.value != [] {
      var content;
      content, n, updates := WriteKept(raw, minLength, maxLength);
      out := ToFile(outputPath.value, content);
    } else {
      var messages;
      messages, n, updates := LogKept(raw, minLength, maxLength);
      out := ToScreen(messages);
    }
    DeltasTelescope(raw);
    bar := ProgressBar(total, n, updates);
  }

  /**
   * The file branch: every segment advances the bar by the time since the
   * previous end; a kept one is then written as its record and a line break.
   */
  method WriteKept(raw: seq<RawSegment>, minLength: int, maxLength: int)
    returns (content: string, n: int, updates: seq<int>)
    ensures content == Terminated(Records(Kept(raw, minLength, maxLength)))
    ensures updates == Deltas(raw) && n == Sum(updates)
  {
    content, n, updates := [], 0, [];
    var lastTime: nat := 0;
    for i := 0 to |raw|
      invariant lastTime == LastEnd(raw[..i])
      invariant updates == Deltas(raw[..i]) && n == Sum(updates)
      invariant content == Terminated(Records(Kept(raw[..i], minLength, maxLength)))
    {
      var segment := raw[i];
      var currentTime := segment.end;
      ProgressStep(raw, i);
      SumSnoc(updates, currentTime - lastTime);
      updates, n := updates + [currentTime - lastTime], n + (currentTime - lastTime);
      lastTime := currentTime;
      assert updates == Deltas(raw[..i + 1]);
      KeptStep(raw, i, minLength, maxLength);
      if !Keep(segment, minLength, maxLength) {
        continue;
      }
      ghost var kept := Kept(raw[..i], minLength, maxLength);
      RecordsSnoc(kept, segment);
      TerminatedSnoc(Records(kept), Record(segment));
      content := content + Record(segment) + "\n";
    }
    assert raw[..|raw|] == raw;
  }

  /** The log branch: the same pass, logging each kept record as one message. */
  method LogKept(raw: seq<RawSegment>, minLength: int, maxLength: int)
    returns (messages: seq<string>, n: int, updates: seq<int>)
    ensures messages == Records(Kept(raw, minLength, maxLength))
    ensures updates == Deltas(raw) && n == Sum(updates)
  {
    messages, n, updates := [], 0, [];
    var lastTime: nat := 0;
    for i := 0 to |raw|
      invariant lastTime == LastEnd(raw[..i])
      invariant updates == Deltas(raw[..i]) && n == Sum(updates)
      invariant messages == Records(Kept(raw[..i], minLength, maxLength))
    {
      var segment := raw[i];
      var currentTime := segment.end;
      ProgressStep(raw, i);
      SumSnoc(updates, currentTime - lastTime);
      updates, n := updates + [currentTime - lastTime], n + (currentTime - lastTime);
      lastTime := currentTime;
      assert updates == Deltas(raw[..i + 1]);
      KeptStep(raw, i, minLength, maxLength);
      if !Keep(segment, minLength, maxLength) {
        continue;
      }
      RecordsSnoc(Kept(raw[..i], minLength, maxLength), segment);
      messages := messages + [Record(segment)];
    }
    assert raw[..|raw|] == raw;
  }

  /** How the progress functions grow by one segment. */
  lemma ProgressStep(raw: seq<RawSegment>, i: nat)
    requires i < |raw|
    ensures LastEnd(raw[..i + 1]) == raw[i].end
    ensures Deltas(raw[..i + 1]) == Deltas(raw[..i]) + [raw[i].end - LastEnd(raw[..i])]
  {
    assert raw[..i + 1][..i] == raw[..i];
  }

  /** How the kept segments grow by one segment. */
  lemma KeptStep(raw: seq<RawSegment>, i: nat, minLength: int, maxLength: int)
    requires i < |raw|
    ensures Kept(raw[..i + 1], minLength, maxLength)
         == if Keep(raw[i], minLength, maxLength) then Kept(raw[..i], minLength, maxLength) + [raw[i]]
            else Kept(raw[..i], minLength, maxLength)
  {
    assert raw[..i + 1][..i] == raw[..i];
    assert Kept(raw[..i], minLength, maxLength) + [] == Kept(raw[..i], minLength, maxLength);
  }

}
