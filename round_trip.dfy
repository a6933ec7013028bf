/**
 * The two scripts together: a transcript file written by main.py, read back
 * by split_audio.py, yields one segment per record, with the times the record
 * printed and its stripped text.
 */
module RoundTrip {

  import opened Options
  import opened PyStr
  import opened Numerals
  import opened Transcribe
  import opened SplitAudio

  /** What split_audio.py reads back from the record of seg: the times, in seconds, and the stripped text. */
  function Reread(seg: RawSegment): Segment {
    Segment(Hundredths(seg.start), Hundredths(seg.end), Strip(seg.text))
  }

  /** The segments read back from the records of segs, in order. */
  function Rereads(segs: seq<RawSegment>): seq<Segment> {
    seq(|segs|, i requires 0 <= i < |segs| => Reread(segs[i]))
  }

  /** A "{:.2f}" numeral holds neither 's' nor '-', nor anything stripping removes at its ends. */
  lemma Fmt2Plain(c: nat)
    ensures var a := Fmt2(c);
      && 's' !in a && '-' !in a && ' ' !in a
      && a != [] && IsDigit(a[0])
  {
    Fmt2Chars(c);
  }

  /** Between the brackets of a stamp, stripped, lie the two sides of its arrow. */
  lemma StampInside(start: nat, end: nat)
    ensures Strip(StripChars(Stamp(start, end), Some("[]")))
         == (Fmt2(start) + "s ") + "->" + (" " + Fmt2(end) + "s")
  {
    Fmt2Plain(start);
    ArrowInside(Fmt2(start), Fmt2(end));
  }

  lemma ArrowInside(a: string, b: string)
    requires a != [] && IsDigit(a[0])
    ensures Strip(StripChars("[" + a + "s -> " + b + "s]", Some("[]")))
         == (a + "s ") + "->" + (" " + b + "s")
  {
    var m := a + "s -> " + b + "s";
    assert m[0] == a[0];
    assert "[" + a + "s -> " + b + "s]" == "[" + m + "]";
    Unbracketed(m);
    AlreadyStripped(m);
    assert m == (a + "s ") + "->" + (" " + b + "s");
  }

  /** strip("[]") takes off one pair of brackets around a text that neither starts nor ends with one. */
  lemma Unbracketed(m: string)
    requires m != [] && m[0] !in "[]" && m[|m| - 1] !in "[]"
    ensures StripChars("[" + m + "]", Some("[]")) == m
  {
    StripCharsUnique("[", m, "]", Some("[]"));
  }

  /** strip() leaves a text that neither starts nor ends with whitespace as it is. */
  lemma AlreadyStripped(m: string)
    requires m == [] || (!IsSpace(m[0]) && !IsSpace(m[|m| - 1]))
    ensures Strip(m) == m
  {
    assert [] + m + [] == m;
    StripCharsUnique([], m, [], None);
  }

  /** Dropping the unit letter leaves the numeral. */
  lemma UnitRemoved(c: nat)
    ensures RemoveChar(Fmt2(c) + "s", 's') == Fmt2(c)
  {
    var a := Fmt2(c);
    RemoveCharAppend(a, "s", 's');
    Fmt2Plain(c);
    RemoveCharSpec(a, 's');
    assert RemoveChar("s", 's') == [];
  }

  /** The left side of the arrow, "<start:.2f>s ", stripped and without its unit, is the numeral. */
  lemma LeftSide(c: nat)
    ensures RemoveChar(Strip(Fmt2(c) + "s "), 's') == Fmt2(c)
  {
    var m := Fmt2(c) + "s";
    assert Strip(Fmt2(c) + "s ") == m by {
      Fmt2Plain(c);
      assert m[0] == Fmt2(c)[0];
      assert Fmt2(c) + "s " == [] + m + " ";
      StripCharsUnique([], m, " ", None);
    }
    UnitRemoved(c);
  }

  /** So is the right side, " <end:.2f>s". */
  lemma RightSide(c: nat)
    ensures RemoveChar(Strip(" " + Fmt2(c) + "s"), 's') == Fmt2(c)
  {
    var m := Fmt2(c) + "s";
    assert Strip(" " + Fmt2(c) + "s") == m by {
      Fmt2Plain(c);
      assert m[0] == Fmt2(c)[0];
      assert " " + Fmt2(c) + "s" == " " + m + [];
      StripCharsUnique(" ", m, [], None);
    }
    UnitRemoved(c);
  }

  /** parse_timestamp reads a stamp written by main.py back as its two times, in seconds. */
  lemma StampParses(start: nat, end: nat)
    ensures ParseTimestamp(Stamp(start, end)) == Some((Hundredths(start), Hundredths(end)))
  {
    var a, b := Fmt2(start), Fmt2(end);
    StampInside(start, end);
    assert '-' !in a + "s " && '-' !in " " + b + "s" by {
      Fmt2Plain(start);
      Fmt2Plain(end);
    }
    NoOccurrence(a + "s ", "->");
    NoOccurrence(" " + b + "s", "->");
    ParseTimestampSides(Stamp(start, end), a + "s ", " " + b + "s");
    LeftSide(start);
    RightSide(end);
    Fmt2RoundTrip(start);
    Fmt2RoundTrip(end);
  }

  /** What str.strip leaves neither starts nor ends with whitespace. */
  lemma StrippedEnds(s: string)
    ensures var t := Strip(s); t == [] || (!IsSpace(t[0]) && !IsSpace(t[|t| - 1]))
  {
    StripCharsSpec(s, None);
  }

  /**
   * Stripping a line "<s> <t>\n" whose s and t neither start nor end with
   * whitespace leaves s, then, when t is not empty, one space and t.
   */
  lemma LineStripped(s: string, t: string)
    requires s != [] && !IsSpace(s[0]) && !IsSpace(s[|s| - 1])
    requires t == [] || (!IsSpace(t[0]) && !IsSpace(t[|t| - 1]))
    ensures Strip(s + " " + t + "\n") == s + (if t == [] then [] else " " + t)
  {
    if t == [] {
      assert s + " " + t + "\n" == [] + s + " \n";
      StripCharsUnique([], s, " \n", None);
    } else {
      TextLineStripped(s, t);
    }
  }

  lemma TextLineStripped(s: string, t: string)
    requires s != [] && !IsSpace(s[0])
    requires t != [] && !IsSpace(t[|t| - 1])
    ensures Strip(s + " " + t + "\n") == s + " " + t
  {
    var m := s + " " + t;
    assert s + " " + t + "\n" == [] + m + "\n";
    assert m[0] == s[0] && m[|m| - 1] == t[|t| - 1];
    StripCharsUnique([], m, "\n", None);
  }

  /** The text after the stamp's closing bracket, stripped, is the record's text. */
  lemma TextAfterStamp(s: string, t: string)
    requires t == [] || (!IsSpace(t[0]) && !IsSpace(t[|t| - 1]))
    ensures Strip((s + (if t == [] then [] else " " + t))[|s|..]) == t
  {
    var l := s + (if t == [] then [] else " " + t);
    if t == [] {
      assert l[|s|..] == [];
      assert Strip([]) == [] by { StripAllDropped([], None); }
    } else {
      assert l[|s|..] == " " + t + [];
      StripCharsUnique(" ", t, [], None);
    }
  }

  /** In a line that opens with the stamp, split_audio.py finds its brackets and slices it out whole. */
  lemma StampFound(s: string, rest: string)
    requires s != [] && s[0] == '[' && Find(s, ']') == |s| - 1
    ensures Find(s + rest, '[') == 0 && Find(s + rest, ']') == |s| - 1
    ensures Slice(s + rest, 0, |s|) == s
  {
    FindFirst(s + rest, '[', 0);
    FindPrefix(s, rest, ']');
    assert (s + rest)[..|s|] == s;
  }

  /** How split_audio.py reads a line, in the terms its body computes them. */
  lemma LineRead(line: string, l: string, s: string, text: string, times: (real, real))
    requires Strip(line) == l && l != [] && Find(l, '[') >= 0 && Find(l, ']') >= 0
    requires Slice(l, Find(l, '['), Find(l, ']') + 1) == s && Strip(l[Find(l, ']') + 1..]) == text
    requires ParseTimestamp(s) == Some(times)
    ensures ParseLine(line) == Some(Segment(times.0, times.1, text))
  {
  }

  /**
   * A line made of a bracketed stamp whose only ']' closes it, one space and
   * a stripped text is read as the stamp's times and that text, whatever
   * brackets the text itself holds.
   */
  lemma LineParses(s: string, t: string, times: (real, real))
    requires s != [] && s[0] == '[' && Find(s, ']') == |s| - 1
    requires t == [] || (!IsSpace(t[0]) && !IsSpace(t[|t| - 1]))
    requires ParseTimestamp(s) == Some(times)
    ensures ParseLine(s + " " + t + "\n") == Some(Segment(times.0, times.1, t))
  {
    var l := s + (if t == [] then [] else " " + t);
    LinePieces(s, t, l);
    LineRead(s + " " + t + "\n", l, s, t, times);
  }

  /** The pieces split_audio.py cuts from such a line: the stripped line, the stamp and the text. */
  lemma LinePieces(s: string, t: string, l: string)
    requires s != [] && s[0] == '[' && Find(s, ']') == |s| - 1
    requires t == [] || (!IsSpace(t[0]) && !IsSpace(t[|t| - 1]))
    requires l == s + (if t == [] then [] else " " + t)
    ensures Strip(s + " " + t + "\n") == l && l != [] && Find(l, '[') >= 0 && Find(l, ']') >= 0
    ensures Slice(l, Find(l, '['), Find(l, ']') + 1) == s && Strip(l[Find(l, ']') + 1..]) == t
  {
    var rest := if t == [] then [] else " " + t;
    LineStripped(s, t);
    StampFound(s, rest);
    TextAfterStamp(s, t);
  }

  /**
   * Round trip of one record: the line main.py writes for a segment is
   * accepted by split_audio.py and read back as that segment's times, in
   * seconds, and its stripped text.
   */
  lemma RecordRoundTrip(seg: RawSegment)
    ensures ParseLine(Record(seg) + "\n") == Some(Reread(seg))
  {
    StrippedEnds(seg.text);
    StampLineParses(seg.start, seg.end, Strip(seg.text));
  }

  lemma StampLineParses(start: nat, end: nat, t: string)
    requires t == [] || (!IsSpace(t[0]) && !IsSpace(t[|t| - 1]))
    ensures ParseLine(Stamp(start, end) + " " + t + "\n")
         == Some(Segment(Hundredths(start), Hundredths(end), t))
  {
    var times := (Hundredths(start), Hundredths(end));
    assert ParseTimestamp(Stamp(start, end)) == Some(times) by { StampParses(start, end); }
    StampBrackets(start, end);
    LineParses(Stamp(start, end), t, times);
  }

  /** A record holds a line break only where its text does. */
  lemma RecordPlain(seg: RawSegment)
    requires '\n' !in Strip(seg.text) && '\r' !in Strip(seg.text)
    ensures '\n' !in Record(seg) && '\r' !in Record(seg)
  {
    StampBrackets(seg.start, seg.end);
  }

  /** The i-th record is the record of the i-th segment. */
  lemma {:induction false} RecordsAt(segs: seq<RawSegment>)
    ensures forall i :: 0 <= i < |segs| ==> Records(segs)[i] == Record(segs[i])
  {
    if segs != [] {
      var init := segs[..|segs| - 1];
      RecordsAt(init);
      assert segs == init + [segs[|segs| - 1]];
      RecordsSnoc(init, segs[|segs| - 1]);
    }
  }

  /** Writing lines without carriage returns leaves none in the file. */
  lemma {:induction false} TerminatedPlain(lines: seq<string>)
    requires forall i :: 0 <= i < |lines| ==> '\r' !in lines[i]
    ensures '\r' !in Terminated(lines)
  {
    if lines != [] {
      TerminatedPlain(lines[..|lines| - 1]);
    }
  }

  /**
   * Reading back a file written line by line, each line followed by "\n" and
   * none holding a "\n" of its own, gives those lines, each with its "\n".
   */
  lemma {:induction false} LinesOfTerminated(lines: seq<string>)
    requires forall i :: 0 <= i < |lines| ==> '\n' !in lines[i]
    ensures |Lines(Terminated(lines))| == |lines|
    ensures forall i :: 0 <= i < |lines| ==> Lines(Terminated(lines))[i] == lines[i] + "\n"
  {
    if lines != [] {
      var rest := lines[1..];
      assert lines == [lines[0]] + rest;
      LinesOfTerminatedCons(lines[0], rest);
      LinesOfTerminated(rest);
      var read := Lines(Terminated(lines));
      forall i | 1 <= i < |lines| ensures read[i] == lines[i] + "\n" {
        assert read[i] == Lines(Terminated(rest))[i - 1] && lines[i] == rest[i - 1];
      }
    }
  }

  lemma LinesOfTerminatedCons(line: string, rest: seq<string>)
    requires '\n' !in line
    ensures Lines(Terminated([line] + rest)) == [line + "\n"] + Lines(Terminated(rest))
  {
    TerminatedCons(line, rest);
    LinesCons(line, Terminated(rest));
  }

  /** When every line yields a segment, the reading loop collects them all, in order. */
  lemma {:induction false} CollectAllSome(parsed: seq<Option<Segment>>)
    requires forall i :: 0 <= i < |parsed| ==> parsed[i].Some?
    ensures |Collect(parsed)| == |parsed|
    ensures forall i :: 0 <= i < |parsed| ==> Collect(parsed)[i] == parsed[i].value
  {
    if parsed != [] {
      CollectAllSome(parsed[..|parsed| - 1]);
    }
  }

  /** The lines split_audio.py reads from the transcript are the records, each with its "\n". */
  lemma RecordLines(segs: seq<RawSegment>)
    requires forall i :: 0 <= i < |segs| ==> '\n' !in Strip(segs[i].text) && '\r' !in Strip(segs[i].text)
    ensures |ReadLines(Terminated(Records(segs)))| == |segs|
    ensures forall i :: 0 <= i < |segs| ==> ReadLines(Terminated(Records(segs)))[i] == Record(segs[i]) + "\n"
  {
    var lines := Records(segs);
    RecordsAt(segs);
    forall i | 0 <= i < |lines| ensures '\n' !in lines[i] && '\r' !in lines[i] {
      RecordPlain(segs[i]);
    }
    TerminatedPlain(lines);
    LinesOfTerminated(lines);
  }

  /**
   * Round trip of the transcript: the file main.py writes, read back by
   * split_audio.py, yields exactly one segment per kept record, in order,
   * with the printed times and the stripped text, provided no text holds a
   * line break of its own.
   */
  lemma TranscriptRoundTrip(segs: seq<RawSegment>)
    requires forall i :: 0 <= i < |segs| ==> '\n' !in Strip(segs[i].text) && '\r' !in Strip(segs[i].text)
    ensures ParseTranscript(ReadLines(Terminated(Records(segs)))) == Rereads(segs)
  {
    var read := ReadLines(Terminated(Records(segs)));
    RecordLines(segs);
    RecordsParse(segs, read);
    CollectAllSome(ParsedLines(read));
  }

  /** The text main.py writes holds no carriage return. */
  lemma TranscriptHasNoReturn(segs: seq<RawSegment>)
    requires forall i :: 0 <= i < |segs| ==> '\n' !in Strip(segs[i].text) && '\r' !in Strip(segs[i].text)
    ensures '\r' !in Terminated(Records(segs))
  {
    var lines := Records(segs);
    RecordsAt(segs);
    forall i | 0 <= i < |lines| ensures '\r' !in lines[i] {
      RecordPlain(segs[i]);
    }
    TerminatedPlain(lines);
  }

  /**
   * Whatever line separator the platform writes in text mode, the transcript
   * file reads back as the same lines.
   */
  lemma WrittenOnAnyPlatform(segs: seq<RawSegment>, eol: string)
    requires eol == "\n" || eol == "\r\n" || eol == "\r"
    requires forall i :: 0 <= i < |segs| ==> '\n' !in Strip(segs[i].text) && '\r' !in Strip(segs[i].text)
    ensures ReadLines(EncodeNewlines(Terminated(Records(segs)), eol)) == ReadLines(Terminated(Records(segs)))
  {
    var t := Terminated(Records(segs));
    TranscriptHasNoReturn(segs);
    NewlinesRoundTrip(t, eol);
  }

  /** Every record line yields the segment it was written from. */
  lemma RecordsParse(segs: seq<RawSegment>, read: seq<string>)
    requires |read| == |segs|
    requires forall i :: 0 <= i < |segs| ==> read[i] == Record(segs[i]) + "\n"
    ensures forall i :: 0 <= i < |segs| ==> ParsedLines(read)[i] == Some(Reread(segs[i]))
  {
    forall i | 0 <= i < |segs| ensures ParseLine(read[i]) == Some(Reread(segs[i])) {
      RecordRoundTrip(segs[i]);
    }
  }

  /**
   * A segment main.py keeps is read back with an alphanumeric text and a
   * duration, in seconds, within the bounds it was kept for.
   */
  lemma RereadKept(seg: RawSegment, minLength: int, maxLength: int)
    requires Keep(seg, minLength, maxLength)
    ensures HasAlnum(Reread(seg).text)
    ensures minLength as real / 100.0 <= Reread(seg).end - Reread(seg).start <= maxLength as real / 100.0
  {
    KeepIff(seg, minLength, maxLength);
  }

  /**
   * The two scripts in sequence: split_audio.py reads back from the file
   * main.py writes one segment per kept segment, in order, and each of them
   * passed main.py's filter.
   */
  lemma TranscribeThenSplit(raw: seq<RawSegment>, minLength: int, maxLength: int, eol: string)
    requires eol == "\n" || eol == "\r\n" || eol == "\r"
    requires forall i :: 0 <= i < |raw| ==> '\n' !in Strip(raw[i].text) && '\r' !in Strip(raw[i].text)
    ensures ParseTranscript(ReadLines(EncodeNewlines(Terminated(Records(Kept(raw, minLength, maxLength))), eol)))
         == Rereads(Kept(raw, minLength, maxLength))
    ensures var read := Rereads(Kept(raw, minLength, maxLength));
      forall j :: 0 <= j < |read| ==>
        HasAlnum(read[j].text) && minLength as real / 100.0 <= read[j].end - read[j].start <= maxLength as real / 100.0
  {
    var kept := Kept(raw, minLength, maxLength);
    KeptPlain(raw, minLength, maxLength);
    TranscriptRoundTrip(kept);
    WrittenOnAnyPlatform(kept, eol);
    KeptRereads(raw, minLength, maxLength);
  }

  /** Filtering keeps segments of the input, so their texts hold no line break either. */
  lemma KeptPlain(raw: seq<RawSegment>, minLength: int, maxLength: int)
    requires forall i :: 0 <= i < |raw| ==> '\n' !in Strip(raw[i].text) && '\r' !in Strip(raw[i].text)
    ensures forall j :: 0 <= j < |Kept(raw, minLength, maxLength)| ==>
      '\n' !in Strip(Kept(raw, minLength, maxLength)[j].text) && '\r' !in Strip(Kept(raw, minLength, maxLength)[j].text)
  {
    var kept := Kept(raw, minLength, maxLength);
    KeptMembers(raw, minLength, maxLength);
    forall j | 0 <= j < |kept| ensures '\n' !in Strip(kept[j].text) && '\r' !in Strip(kept[j].text) {
      assert kept[j] in raw;
      var i :| 0 <= i < |raw| && raw[i] == kept[j];
    }
  }

  /** Every segment read back from the kept records passed main.py's filter. */
  lemma KeptRereads(raw: seq<RawSegment>, minLength: int, maxLength: int)
    ensures var read := Rereads(Kept(raw, minLength, maxLength));
      forall j :: 0 <= j < |read| ==>
        HasAlnum(read[j].text) && minLength as real / 100.0 <= read[j].end - read[j].start <= maxLength as real / 100.0
  {
    var kept := Kept(raw, minLength, maxLength);
    KeptMembers(raw, minLength, maxLength);
    forall j | 0 <= j < |kept|
      ensures HasAlnum(Reread(kept[j]).text)
      ensures minLength as real / 100.0 <= Reread(kept[j]).end - Reread(kept[j]).start <= maxLength as real / 100.0
    {
      assert kept[j] in kept;
      RereadKept(kept[j], minLength, maxLength);
    }
  }

  /** A manifest row that repeats the numbers a record printed: the times, their difference, the text. */
  function RecordRow(i: nat, seg: RawSegment, format: string): seq<string>
    requires seg.start <= seg.end
  {
    [FileName(i, format), Fmt2(seg.start) + "s", Fmt2(seg.end) + "s", Fmt2(seg.end - seg.start) + "s", Strip(seg.text)]
  }

  /**
   * The manifest row of a segment read back from a record repeats the
   * record's two printed times, gives their difference to the hundredth,
   * and the text as written.
   */
  lemma ManifestRowOfRecord(i: nat, seg: RawSegment, format: string)
    requires seg.start <= seg.end
    ensures ManifestRow(i, Reread(seg), format) == RecordRow(i, seg, format)
  {
    FormatFixed2Exact(seg.start);
    FormatFixed2Exact(seg.end);
    DurationPrinted(seg.start, seg.end);
  }

  /** The difference of two times printed to the hundredth is printed exactly. */
  lemma DurationPrinted(start: nat, end: nat)
    requires start <= end
    ensures FormatFixed2(Hundredths(end) - Hundredths(start)) == Fmt2(end - start)
  {
    assert Hundredths(end) - Hundredths(start) == Hundredths(end - start);
    FormatFixed2Exact(end - start);
  }

  /** With a non-negative lower bound, every kept segment ends no earlier than it starts. */
  lemma KeptForward(raw: seq<RawSegment>, minLength: int, maxLength: int)
    requires 0 <= minLength
    ensures forall seg :: seg in Kept(raw, minLength, maxLength) ==> seg.start <= seg.end
  {
    KeptMembers(raw, minLength, maxLength);
    forall seg | seg in Kept(raw, minLength, maxLength) ensures seg.start <= seg.end {
      KeepIff(seg, minLength, maxLength);
    }
  }

  /**
   * The manifest row of the j-th segment read back from the records shows
   * that segment's numbers exactly as its record printed them.
   */
  lemma ManifestOfRecords(segs: seq<RawSegment>, format: string, j: nat)
    requires j < |segs| && segs[j].start <= segs[j].end
    ensures ManifestRows(Rereads(segs), format)[j] == RecordRow(j + 1, segs[j], format)
  {
    var seg := segs[j];
    ManifestRowOfReread(segs, format, j);
    ManifestRowOfRecord(j + 1, seg, format);
  }

  lemma ManifestRowOfReread(segs: seq<RawSegment>, format: string, j: nat)
    requires j < |segs|
    ensures ManifestRows(Rereads(segs), format)[j] == ManifestRow(j + 1, Reread(segs[j]), format)
  {
    ManifestRowAt(Rereads(segs), format, j);
  }
}
