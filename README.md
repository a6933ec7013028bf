# Transcribe and split: a Dafny model

The repository has two scripts that share a small text format.

- `main.py`: `transcribe_audio` runs a speech recogniser over an audio file.
  - It walks the recognised segments once, advancing a progress bar by the time since the previous segment's end, so that the bar stands at each segment's end time.
  - It keeps a segment only when its duration lies between a minimum and a maximum (defaults 0.5 s and 30.0 s) and its stripped text holds an alphanumeric character.
  - Each kept segment goes out as the line `[<start:.2f>s -> <end:.2f>s] <text>`, to a file or to the log.
- `split_audio.py`: `split_audio_by_transcript` reads such a transcript back.
  - `parse_timestamp` parses each line's time stamp; lines that are not records are skipped.
  - One slice `audio_<NNN>.<fmt>` is requested from ffmpeg for each segment.
  - A CSV manifest is written: a header plus one row per segment, whether or not its slice succeeded.

The Dafny project has six modules:

- `Options`: the `Option` datatype.
- `PyStr`: the Python string operations the scripts use, on `seq<char>`:
  - `str.strip` with and without an argument, `str.isspace`, `str.isalnum`;
  - `str.find`, `str.split('->')`, `str.replace('s', '')`;
  - the lines of a file opened in text mode.
- `Numerals`:
  - `str(n)`, `{:03d}` and `{:.2f}`;
  - `float()` on plain decimal numerals, the only input form the model covers.
- `Transcribe`: `main.py`, namely the keep/drop test, the record line, and the two filter-and-progress loops as methods with loop invariants.
- `SplitAudio`: `split_audio.py`, namely:
  - `parse_timestamp` and the line reader;
  - the reading loop, the slicing loop and the manifest loop, each a method;
  - the whole function, with its early returns.
- `RoundTrip`: the two scripts together. It proves that a transcript written by `main.py` reads back, line for line, as the kept segments. Each segment keeps the printed times and the stripped text.

Times in `main.py` are modelled as whole hundredths of a second (`nat`). This is a modelling assumption: it makes `.2f` print them exactly and makes durations exact, which the script's binary floating point does not guarantee (see "## Left out").

`split_audio.py` parses times as exact decimal values (`real`). The manifest's `.2f` rounds those values half to even.

## Model

| member | source | states |
|---|---|---|
| Transcribe.KeepIff | main.py:187-198 | A segment is kept exactly when `min <= end - start <= max`, with both bounds inclusive, and its stripped text has an alphanumeric character. The empty-text and `isspace()` tests exclude nothing more. |
| Transcribe.ShortFillerDropped | main.py:142 | With the default bounds 0.5 s and 30.0 s, the segment (0.00, 0.30, "uh") is dropped. |
| Transcribe.StampBrackets | main.py:202 | The time stamp of a record starts with its only `[` and ends with its only `]`. It holds no line break. |
| Transcribe.RecordExample | main.py:202 | The segment (1.00, 4.50, " Xin chào ") is written as `[1.00s -> 4.50s] Xin chào`. |
| Transcribe.Keep | main.py:194-198 | Models the skip condition: a segment is kept unless it is too short, too long, or its stripped text is empty, whitespace only, or free of alphanumeric characters. Its characterisation is `KeepIff`. |
| Transcribe.Stamp | main.py:202 | Models the stamp `[<start:.2f>s -> <end:.2f>s]`. |
| Transcribe.Record | main.py:202 | Models the record line: the stamp, a space, and the stripped text. |
| Transcribe.Kept | main.py:180-200 | Models the kept segments in input order; there are never more of them than raw segments. |
| Transcribe.KeptMembers | main.py:194-200 | A segment is among the kept ones exactly when it is in the input and passes the keep test. |
| Transcribe.KeptAppend | main.py:180-200 | Filtering a concatenation filters each part in turn, so the kept segments stay in input order. |
| Transcribe.DeltasTelescope | main.py:180-184 | The progress updates sum to the end time of the last segment, or 0 when there are no segments. |
| Transcribe.MonotoneDeltas | main.py:182-184 | When end times never decrease, no progress update is negative. |
| Transcribe.WriteKept | main.py:179-202 | The file-branch loop writes the records of exactly the kept segments, in order, each followed by a line break. It sends one progress update per raw segment, kept or dropped. |
| Transcribe.LogKept | main.py:207-229 | The log-branch loop logs the records of exactly the kept segments, in order. It sends the same progress updates as the file branch. |
| Transcribe.TranscribeAudio | main.py:157-230 | The bar's total is the probed duration, or 0 when the probe fails. The bar ends at the last end time. A non-empty output path receives the kept records; otherwise the same records go to the log. |
| SplitAudio.ParseTimestamp | split_audio.py:50-65 | Models `parse_timestamp`: strip `[` and `]`, strip whitespace, split on `->`, and read each side stripped and without `s` letters. Any failure gives `None`, standing for `(None, None)`. Its contract is given by the two lemmas below. |
| SplitAudio.ParseTimestampSides | split_audio.py:56-65 | If the inside of a stamp is `left->right` with no other arrow, the stamp is accepted exactly when both sides parse as numbers, and then gives those numbers. Otherwise it gives the `(None, None)` failure. Signs are allowed, so negative times are covered. |
| SplitAudio.TimestampHasOneArrow | split_audio.py:56-62 | An accepted stamp is exactly two sides around one `->`, with no arrow in either side, and each side parses to the time returned for it. |
| SplitAudio.NoArrowRejected | split_audio.py:58-65 | A stamp without `->` inside its brackets yields the failure value rather than an error. |
| SplitAudio.EmptyTimestampRejected | split_audio.py:56-65 | The empty stamp is rejected. |
| SplitAudio.EveryUnitLetterRemoved | split_audio.py:60-61 | Every `s` is removed, not only the unit after the number: `[1s2->3]` reads as (12, 3). |
| SplitAudio.Slice | split_audio.py:107 | A Python slice whose end does not lie past its start is empty. Otherwise it is exactly the characters from start up to end. |
| SplitAudio.ParseLine | split_audio.py:96-113 | Models one pass of the reading loop over a line. It skips the line when the line is blank or lacks a bracket. Otherwise it cuts the stamp from the first `[` through the first `]`, strips the text after that `]`, and accepts the line exactly when the stamp parses. |
| SplitAudio.ParseTranscript | split_audio.py:95-119 | Models the segments the reading loop collects: the values of the accepted lines, in order. |
| SplitAudio.UnbracketedLineSkipped | split_audio.py:97-105 | A line that is blank after stripping, or lacks `[` or `]`, yields no segment. |
| SplitAudio.CloseBeforeOpenSkipped | split_audio.py:102-113 | When the first `]` comes before the first `[`, the stamp is empty and the line is skipped. |
| SplitAudio.AcceptedLineBracketed | split_audio.py:102-113 | An accepted line holds both brackets, with its first `[` before its first `]`. |
| SplitAudio.ParseTranscriptAppend | split_audio.py:95-119 | Reading is line by line: the segments of concatenated lines are those of each part, in order. |
| SplitAudio.ParseTranscriptSources | split_audio.py:95-119 | Every segment read comes from a line of the file that parses to it. |
| SplitAudio.ParseTranscriptSingle | split_audio.py:96-119 | A single line yields its segment when it is accepted and nothing otherwise. With `ParseTranscriptAppend`, this determines what any file reads as. |
| SplitAudio.ParseTranscriptCount | split_audio.py:115-119 | As many segments are read as there are accepted lines. |
| SplitAudio.SkippedLineIgnored | split_audio.py:96-113 | A line that is not a record changes nothing: the segments read around it are exactly those read without it. |
| SplitAudio.ReadSegments | split_audio.py:94-119 | The reading loop appends exactly the segments of the accepted lines, in file order. |
| SplitAudio.FileName | split_audio.py:127 | Models the file name `audio_{i:03d}.{fmt}`. |
| SplitAudio.Codec | split_audio.py:133 | Models the codec choice: `pcm_s16le` for wav, `libmp3lame` for any other format. |
| SplitAudio.FileNameExample | split_audio.py:127 | Segment 1 of a wav run is named `audio_001.wav`. |
| SplitAudio.FileNameInjective | split_audio.py:127 | Two indices with the same file name are equal. |
| SplitAudio.FileNamesDiffer | split_audio.py:127 | Different indices give different file names. |
| SplitAudio.SliceRequestAt | split_audio.py:126-133 | Call i cuts segment i into `audio_<i+1>`, from its start for `end - start` seconds, negative or not. The codec is `pcm_s16le` for wav and `libmp3lame` otherwise. |
| SplitAudio.SliceOutputsDistinct | split_audio.py:126-134 | No two slicer calls write the same output file. |
| SplitAudio.ProducedMembers | split_audio.py:126-140 | The run writes `audio_<i>` exactly when segment i exists and its cut succeeded. |
| SplitAudio.SecondSliceFails | split_audio.py:126-154 | With two segments where the second cut fails, one file is produced. The manifest still has the header and two rows, the second naming `audio_002`. |
| SplitAudio.SliceAll | split_audio.py:126-140 | The slicing loop makes exactly one slicer call per segment, in order, whatever the outcome of earlier calls. |
| SplitAudio.ManifestRow | split_audio.py:148-154 | Models the manifest row of segment i: its file name, then start, end and `end - start` in `.2f` form with an `s`, then the text. |
| SplitAudio.ManifestRowAt | split_audio.py:147-154 | Manifest row i describes segment i and names its file `audio_<i+1>`. |
| SplitAudio.WriteManifest | split_audio.py:144-154 | The manifest is the fixed header followed by one row per segment, in order. |
| SplitAudio.SplitAudioByTranscript | split_audio.py:67-156 | A missing audio file, a missing transcript or a missing ffmpeg ends the run in that order, and no segments ends it with nothing sliced. Otherwise the run makes every slicer call and writes the manifest. The manifest does not depend on which cuts succeeded. |
| PyStr.Strip | main.py:188 | Models `str.strip()` with no argument, which removes whitespace from both ends. Its characterisation is `StripCharsSpec` and `StripCharsUnique`. |
| PyStr.StripCharsSpec | split_audio.py:56 | `strip(chars)` removes a prefix and a suffix of dropped characters and leaves a result that neither starts nor ends with one. |
| PyStr.StripCharsUnique | split_audio.py:56 | Stripping removable padding around a core that neither starts nor ends with a removable character gives that core. |
| PyStr.StripIdempotent | split_audio.py:108 | Stripping twice is stripping once, so text already stripped by the writer is not changed by the reader. |
| PyStr.NoAlnumIff | main.py:198 | `all(not c.isalnum() for c in text)` holds exactly when the text has no alphanumeric character. |
| PyStr.AllSpaceNoAlnum | main.py:197-198 | A whitespace-only text has no alphanumeric character. |
| PyStr.Find | split_audio.py:102-103 | `find` gives the first index of the character, or -1 exactly when the character is absent. |
| PyStr.SplitOn | split_audio.py:58 | `split('->')` gives pieces that join back to the input and that contain no arrow. |
| PyStr.SplitOnce | split_audio.py:58 | `x->y` splits into exactly `[x, y]` when neither side holds the separator. The separator's first character must not recur in it, as holds for `->`. |
| PyStr.RemoveCharSpec | split_audio.py:60-61 | `replace('s', '')` leaves no `s`, and leaves a text without `s` unchanged. |
| PyStr.RemoveCharCounts | split_audio.py:60-61 | `replace('s', '')` keeps every other character, the same number of times. |
| PyStr.TranslateNewlines | split_audio.py:95 | After universal-newline translation no `\r` is left, and text without `\r` is unchanged. |
| PyStr.NewlinesRoundTrip | split_audio.py:95 | Reading in text mode undoes writing in text mode with the separator `\n`, `\r\n` or `\r`: `\r\n` and a lone `\r` both read as `\n`, and text without `\r` comes back unchanged. |
| PyStr.Lines | split_audio.py:96 | The lines of a text concatenate back to it. |
| PyStr.LinesUnbroken | split_audio.py:96 | No line is empty, and no line holds a line break before its last character. |
| PyStr.LinesTerminated | split_audio.py:96 | Every line but the last ends with its line break. |
| Numerals.Fmt2 | main.py:202 | Models `{:.2f}` of a non-negative whole number of hundredths: the whole part, a point, and two digits. |
| Numerals.ParseFloat | split_audio.py:60-61 | Models `float()` on an optionally signed plain decimal numeral with surrounding whitespace. It is accepted only if something is left after stripping. |
| Numerals.FormatFixed2 | split_audio.py:150-152 | Models `{:.2f}` of an exact value: round the value times 100 half to even, then print it with a sign when negative. |
| Numerals.NatToStringSpec | split_audio.py:127 | `str(n)` is a non-empty run of digits denoting n, without a leading zero unless n is 0. |
| Numerals.ZeroPadSpec | split_audio.py:127 | `{:03d}` is a run of digits denoting n, three long or as long as `str(n)` if that is longer. |
| Numerals.Fmt2Chars | main.py:202 | `.2f` of a non-negative time has digits only, with one point three characters from the end. |
| Numerals.Fmt2RoundTrip | split_audio.py:60-61 | `float()` of the `.2f` text of c hundredths is exactly c/100. |
| Numerals.NegativeFmt2RoundTrip | split_audio.py:152 | `float()` of `-` followed by the `.2f` text of c hundredths is exactly -c/100. |
| Numerals.ParseUnsignedAlphabet | split_audio.py:60-61 | An accepted unsigned numeral consists of digits with at most one point. |
| Numerals.DigitsParse | split_audio.py:60-61 | A plain run of digits parses as the whole number it denotes. |
| Numerals.RoundHalfEven | split_audio.py:150-152 | Rounding is to the nearest integer, with ties to the even one, and never goes below 0 for a non-negative value. |
| Numerals.FormatFixed2Parses | split_audio.py:150-152 | The `.2f` text of any value reads back within half a hundredth of it. |
| Numerals.FormatFixed2Exact | split_audio.py:150-152 | A whole number of hundredths prints as its exact two-decimal text. |
| Numerals.FormatFixed2ExactNegative | split_audio.py:152 | A negative whole number of hundredths prints as `-` and its two-decimal magnitude. |
| RoundTrip.StampParses | split_audio.py:50-62 | The stamp `main.py` writes for (start, end) parses as exactly (start/100, end/100). |
| RoundTrip.LineParses | split_audio.py:97-119 | A bracketed stamp followed by a space and an already stripped text reads as the stamp's times and that text. |
| RoundTrip.RecordRoundTrip | split_audio.py:96-119 | The record line of any segment, with its line break, reads back as the segment's times in seconds and its stripped text. |
| RoundTrip.RecordLines | split_audio.py:95-96 | A file of records whose texts hold no line break reads back as exactly one line per record. |
| RoundTrip.TranscriptRoundTrip | split_audio.py:94-119 | A whole transcript file written from segments whose stripped texts hold no line break reads back as those segments, one for one and in order. |
| RoundTrip.WrittenOnAnyPlatform | main.py:179-202 | The transcript file reads back as the same lines whichever line separator (`\n`, `\r\n` or `\r`) the platform writes in text mode. |
| RoundTrip.TranscribeThenSplit | main.py:179-202 | What `split_audio.py` reads from the file written by `main.py`, with any of the three line separators, is the kept segments, in order. Each has an alphanumeric character and a duration within the bounds. |
| RoundTrip.RereadKept | main.py:194-198 | A kept segment, read back, still has an alphanumeric character and a duration within the bounds in seconds. |
| RoundTrip.KeptForward | main.py:194 | With a non-negative minimum, every kept segment ends no earlier than it starts. |
| RoundTrip.ManifestRowOfRecord | split_audio.py:148-154 | The manifest row of a segment read back from its record prints the same start, end and duration in two-decimal form, and the stripped text. |
| RoundTrip.DurationPrinted | split_audio.py:152 | The duration column of a re-read segment is exactly the two-decimal text of end minus start. |
| RoundTrip.ManifestOfRecords | split_audio.py:147-154 | Row j of the manifest built from a written transcript names `audio_<j+1>` and repeats the record's times, duration and text. |

## Left out

- `limit_gpu_usage` (`main.py`): CUDA queries and environment variables. It is advisory only and has no effect on what is written.
- `get_audio_duration` (`main.py`) and `find_ffmpeg` (`split_audio.py`): filesystem and subprocess probing. Their results become inputs: the duration as an `Option<nat>` with the fallback to 0, and ffmpeg's presence as a flag of `Environment`.
- The Whisper model: its output is the input sequence of raw segments. The detected-language log line is left out.
- ffmpeg slicing: each cut's success is the oracle `sliceOk`, keyed by the 1-based segment index. The model records the calls as `SliceRequest` values. `Produced` is computed beside the slicing loop rather than inside it.
- Files already in the output directory: `os.makedirs(..., exist_ok=True)` accepts an existing directory and nothing removes older `audio_NNN` files from it. The model describes only the files a run writes, not everything in the directory afterwards.
- tqdm rendering, logging, argparse and `__main__`, `os.makedirs` and `os.path.join`: not modelled. Output file names are modelled without the output directory.
- The `csv` module's quoting of fields: rows are sequences of fields.
- File I/O:
  - A written transcript is its contents as a string in which each line break becomes the platform's line separator (`EncodeNewlines`).
  - A read transcript is that string after universal-newline translation, cut after each line break.
  - UTF-8 encoding and decoding, and their errors, are left out.
- `SplitAudio.ReadSegments` takes the lines already read; opening the file is not modelled.
- Binary floating point:
  - `main.py` times are whole hundredths of a second.
  - Parsed times are exact decimal reals, and `.2f` of a parsed value rounds the exact value half to even.
  - The rounding of the nearest binary double, and signed zero, are not modelled.
- Numerals.ParseUnsigned: `float()` is modelled on the numeral forms the writer produces and their neighbours: digits, at most one point, an optional sign. Exponents, `inf`/`nan`, underscores and non-ASCII digits are rejected instead of parsed. Surrounding whitespace is stripped with the full `str.isspace` set, whereas `float()` strips only ASCII whitespace and maps other Unicode whitespace to spaces. So a side ending in U+001C to U+001F, which `float()` rejects, is accepted by the model.
- PyStr.IsAlnum: `str.isalnum` is exact on ASCII and Latin-1 and covers the Latin Extended blocks, which hold the Vietnamese letters. Letters and digits in all other Unicode blocks count as non-alphanumeric. That includes Latin ones such as IPA, modifier letters and fullwidth forms.
- RoundTrip.TranscriptRoundTrip: requires that no stripped text contain `\n` or `\r`. Such a text would be written across several lines and read back as several.
- Exit status: the early returns of `split_audio_by_transcript` return normally, so the process exits with status 0. `main()` exits with status 1 only when an exception escapes. The model distinguishes the early returns as the `MissingAudio`, `MissingTranscript`, `NoFfmpeg` and `NoSegments` outcomes. `main()` always passes the default format `wav`, while the model takes the format as a parameter.
- Transcribe.Keep: durations are exact differences of whole hundredths. The script subtracts binary doubles, and at a bound the difference can fall just outside it. For example, 0.70 - 0.20 gives 0.49999999999999994 < 0.5, and 32.02 - 2.02 gives 30.000000000000004 > 30.0. The script drops such a segment, while the model and `KeepIff` keep a duration of exactly the minimum or maximum. The model also assumes that the recogniser's times are whole hundredths.
- The code removes every `s` from each side of a time stamp, not only a trailing unit suffix. The model follows the code (`SplitAudio.EveryUnitLetterRemoved`).
