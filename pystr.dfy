/**
 * The Python string operations both scripts rely on, on strings as seq<char>:
 * str.strip (with and without an argument), str.isspace, str.isalnum,
 * str.find, str.split with a separator, str.replace of one character by
 * nothing, and the line iteration of a file opened in text mode.
 */
module PyStr {

  import opened Options

  /** The characters str.isspace() accepts; str.strip() with no argument removes these. */
  predicate IsSpace(c: char) {
    || ('\t' <= c <= '\r') || ('\U{1c}' <= c <= ' ') || c == '\U{85}' || c == '\U{a0}'
    || c == '\U{1680}' || ('\U{2000}' <= c <= '\U{200a}') || c == '\U{2028}' || c == '\U{2029}'
    || c == '\U{202f}' || c == '\U{205f}' || c == '\U{3000}'
  }

  /**
   * Whether str.strip(chars) removes c: with chars None (no argument) the
   * whitespace characters, otherwise the characters of the given string.
   */
  predicate Drops(chars: Option<string>, c: char) {
    match chars
    case None => IsSpace(c)
    case Some(cs) => c in cs
  }

  /**
   * str.isalnum() of one character, exact on ASCII and Latin-1 and covering the
   * Latin Extended blocks (which hold the Vietnamese letters); every other
   * character counts as not alphanumeric.
   */
  predicate IsAlnum(c: char) {
    || ('0' <= c <= '9') || ('A' <= c <= 'Z') || ('a' <= c <= 'z')
    || c == '\U{aa}' || c == '\U{b2}' || c == '\U{b3}' || c == '\U{b5}'
    || c == '\U{b9}' || c == '\U{ba}' || ('\U{bc}' <= c <= '\U{be}')
    || ('\U{c0}' <= c <= '\U{24f}' && c != '\U{d7}' && c != '\U{f7}')
    || ('\U{1e00}' <= c <= '\U{1eff}')
  }

  lemma SpaceIsNotAlnum(c: char)
    ensures IsSpace(c) ==> !IsAlnum(c)
  {
  }

  predicate AllDropped(s: string, chars: Option<string>) {
    forall i :: 0 <= i < |s| ==> Drops(chars, s[i])
  }

  /** Every character is whitespace (vacuously so for ""). */
  predicate AllSpace(s: string) {
    s == [] || (IsSpace(s[0]) && AllSpace(s[1..]))
  }

  /** str.isspace(): non-empty and made of whitespace only. */
  predicate IsSpaceStr(s: string) {
    s != [] && AllSpace(s)
  }

  /** all(not c.isalnum() for c in s). */
  predicate NoAlnum(s: string) {
    s == [] || (!IsAlnum(s[0]) && NoAlnum(s[1..]))
  }

  /** Some character of s is alphanumeric. */
  predicate HasAlnum(s: string) {
    exists i :: 0 <= i < |s| && IsAlnum(s[i])
  }

  /** The character-by-character test agrees with the existential one. */
  lemma {:induction false} NoAlnumIff(s: string)
    ensures NoAlnum(s) <==> !HasAlnum(s)
    decreases |s|
  {
    if s != [] {
      NoAlnumIff(s[1..]);
      assert forall i :: 1 <= i < |s| ==> s[i] == s[1..][i - 1];
      if HasAlnum(s[1..]) {
        var i :| 0 <= i < |s[1..]| && IsAlnum(s[1..][i]);
        assert IsAlnum(s[i + 1]);
      }
    }
  }

  /** A whitespace-only string has no alphanumeric character. */
  lemma {:induction false} AllSpaceNoAlnum(s: string)
    requires AllSpace(s)
    ensures NoAlnum(s)
    decreases |s|
  {
    if s != [] {
      SpaceIsNotAlnum(s[0]);
      AllSpaceNoAlnum(s[1..]);
    }
  }

  /** str.lstrip(chars): drops the longest prefix of characters chars names. */
  function TrimLeft(s: string, chars: Option<string>): (r: string)
    ensures |r| <= |s|
  {
    if s != [] && Drops(chars, s[0]) then TrimLeft(s[1..], chars) else s
  }

  /** str.rstrip(chars): drops the longest suffix of characters chars names. */
  function TrimRight(s: string, chars: Option<string>): (r: string)
    ensures |r| <= |s|
  {
    if s != [] && Drops(chars, s[|s| - 1]) then TrimRight(s[..|s| - 1], chars) else s
  }

  /** str.strip(chars): both ends at once. */
  function StripChars(s: string, chars: Option<string>): (r: string)
    ensures |r| <= |s|
  {
    TrimRight(TrimLeft(s, chars), chars)
  }

  /** str.strip() with no argument. */
  function Strip(s: string): string {
    StripChars(s, None)
  }

  /** lstrip keeps a suffix, drops only such characters, and stops at the first one it keeps. */
  lemma {:induction false} TrimLeftSpec(s: string, chars: Option<string>)
    ensures var r := TrimLeft(s, chars);
      && r == s[|s| - |r|..]
      && AllDropped(s[..|s| - |r|], chars)
      && (r == [] || !Drops(chars, r[0]))
    decreases |s|
  {
    if s != [] && Drops(chars, s[0]) {
      TrimLeftSpec(s[1..], chars);
      var r := TrimLeft(s[1..], chars);
      assert s[..|s| - |r|] == [s[0]] + s[1..][..|s| - 1 - |r|];
    }
  }

  /** rstrip keeps a prefix, drops only such characters, and stops at the last one it keeps. */
  lemma {:induction false} TrimRightSpec(s: string, chars: Option<string>)
    ensures var r := TrimRight(s, chars);
      && r == s[..|r|]
      && AllDropped(s[|r|..], chars)
      && (r == [] || !Drops(chars, r[|r| - 1]))
    decreases |s|
  {
    if s != [] && Drops(chars, s[|s| - 1]) {
      TrimRightSpec(s[..|s| - 1], chars);
      var r := TrimRight(s[..|s| - 1], chars);
      assert s[|r|..] == s[..|s| - 1][|r|..] + [s[|s| - 1]];
    }
  }

  /**
   * strip keeps a middle part of s, everything it drops on either side is
   * named by chars, and the part it keeps neither starts nor ends with such a
   * character.
   */
  lemma StripCharsSpec(s: string, chars: Option<string>)
    ensures var r := StripChars(s, chars);
      && (exists k :: 0 <= k <= |s| - |r| && r == s[k..k + |r|]
            && AllDropped(s[..k], chars) && AllDropped(s[k + |r|..], chars))
      && (r == [] || (!Drops(chars, r[0]) && !Drops(chars, r[|r| - 1])))
  {
    var t := TrimLeft(s, chars);
    var r := TrimRight(t, chars);
    TrimLeftSpec(s, chars);
    TrimRightSpec(t, chars);
    var k := |s| - |t|;
    assert r == s[k..k + |r|];
    assert s[k + |r|..] == t[|r|..];
    if r != [] {
      assert r[0] == t[0];
    }
  }

  /** Stripping a string made only of such characters leaves nothing. */
  lemma StripAllDropped(s: string, chars: Option<string>)
    requires AllDropped(s, chars)
    ensures StripChars(s, chars) == []
  {
    StripCharsSpec(s, chars);
  }

  lemma {:induction false} TrimLeftUnique(a: string, m: string, chars: Option<string>)
    requires AllDropped(a, chars)
    requires m == [] || !Drops(chars, m[0])
    ensures TrimLeft(a + m, chars) == m
    decreases |a|
  {
    if a != [] {
      assert (a + m)[1..] == a[1..] + m;
      TrimLeftUnique(a[1..], m, chars);
    }
  }

  lemma {:induction false} TrimRightUnique(m: string, z: string, chars: Option<string>)
    requires AllDropped(z, chars)
    requires m == [] || !Drops(chars, m[|m| - 1])
    ensures TrimRight(m + z, chars) == m
    decreases |z|
  {
    if z != [] {
      assert (m + z)[..|m + z| - 1] == m + z[..|z| - 1];
      TrimRightUnique(m, z[..|z| - 1], chars);
    }
  }

  /**
   * The result of str.strip is determined by its two defining facts: what it
   * drops at either end is dropped by chars, and what it keeps does not start or end
   * with such a character.
   */
  lemma StripCharsUnique(a: string, m: string, z: string, chars: Option<string>)
    requires AllDropped(a, chars) && AllDropped(z, chars)
    requires m == [] || (!Drops(chars, m[0]) && !Drops(chars, m[|m| - 1]))
    ensures StripChars(a + m + z, chars) == m
  {
    if m == [] {
      assert a + m + z == a + z;
      assert AllDropped(a + z, chars);
      StripAllDropped(a + z, chars);
    } else {
      assert a + m + z == a + (m + z);
      TrimLeftUnique(a, m + z, chars);
      TrimRightUnique(m, z, chars);
    }
  }

  lemma StripIdempotent(s: string)
    ensures Strip(Strip(s)) == Strip(s)
  {
    var t := Strip(s);
    StripCharsSpec(s, None);
    assert [] + t + [] == t;
    StripCharsUnique([], t, [], None);
  }

  /** s[k..k + |sep|] is the separator. */
  predicate OccursAt(s: string, sep: string, k: int) {
    0 <= k && k + |sep| <= |s| && s[k..k + |sep|] == sep
  }

  /** str.find(sep): the first position where sep occurs, or -1. */
  function IndexOf(s: string, sep: string): (r: int)
    requires |sep| > 0
    ensures -1 <= r <= |s| - |sep| || r == -1
    ensures r == -1 ==> forall k :: !OccursAt(s, sep, k)
    ensures r >= 0 ==> OccursAt(s, sep, r) && forall k :: 0 <= k < r ==> !OccursAt(s, sep, k)
    decreases |s|
  {
    if |s| < |sep| then
      -1
    else if s[..|sep|] == sep then
      0
    else
      var k := IndexOf(s[1..], sep);
      assert !OccursAt(s, sep, 0);
      forall j | 1 <= j && j + |sep| <= |s|
        ensures OccursAt(s, sep, j) <==> OccursAt(s[1..], sep, j - 1)
      {
        var u := s[1..];
        assert |u| == |s| - 1;
        var here, there := s[j..j + |sep|], u[j - 1..j - 1 + |sep|];
        assert forall t :: 0 <= t < |sep| ==> here[t] == there[t];
        assert here == there;
      }
      if k == -1 then -1 else k + 1
  }

  /** str.find(c) for a single character: its first position, or -1. */
  function Find(s: string, c: char): (r: int)
    ensures -1 <= r < |s|
    ensures r == -1 <==> c !in s
    ensures r >= 0 ==> s[r] == c && c !in s[..r]
  {
    if s == [] then
      -1
    else if s[0] == c then
      0
    else
      var k := Find(s[1..], c);
      assert s == [s[0]] + s[1..];
      if k == -1 then -1 else (assert s[..k + 1] == [s[0]] + s[1..][..k]; k + 1)
  }

  /** Finding one character is finding the one-character string. */
  lemma {:induction false} FindIsIndexOf(s: string, c: char)
    ensures Find(s, c) == IndexOf(s, [c])
  {
    var r := IndexOf(s, [c]);
    forall k | 0 <= k < |s| ensures OccursAt(s, [c], k) <==> s[k] == c {
      assert s[k..k + 1] == [s[k]];
    }
    if r >= 0 {
      assert s[r..r + 1] == [c];
      assert forall k :: 0 <= k < r ==> s[k] != c;
    }
  }

  /** A position holding c with no c before it is what Find reports. */
  lemma FindFirst(s: string, c: char, k: nat)
    requires k < |s| && s[k] == c && c !in s[..k]
    ensures Find(s, c) == k
  {
  }

  /** Text appended after an occurrence of c does not move the first one. */
  lemma FindPrefix(s: string, rest: string, c: char)
    requires c in s
    ensures Find(s + rest, c) == Find(s, c)
  {
    var k := Find(s, c);
    assert (s + rest)[..k] == s[..k];
    FindFirst(s + rest, c, k);
  }

  /** The parts joined back with sep between consecutive parts. */
  function Join(parts: seq<string>, sep: string): string {
    if parts == [] then []
    else if |parts| == 1 then parts[0]
    else parts[0] + sep + Join(parts[1..], sep)
  }

  /** str.split(sep): the pieces between the occurrences of sep, left to right. */
  function SplitOn(s: string, sep: string): (parts: seq<string>)
    requires |sep| > 0
    ensures |parts| >= 1
    ensures Join(parts, sep) == s
    ensures forall i :: 0 <= i < |parts| ==> IndexOf(parts[i], sep) == -1
    decreases |s|
  {
    var k := IndexOf(s, sep);
    if k == -1 then
      [s]
    else
      var head := s[..k];
      forall j ensures !OccursAt(head, sep, j) {
        if OccursAt(head, sep, j) {
          assert s[j..j + |sep|] == head[j..j + |sep|];
          assert OccursAt(s, sep, j);
        }
      }
      var rest := SplitOn(s[k + |sep|..], sep);
      assert s == head + sep + s[k + |sep|..];
      [head] + rest
  }

  /**
   * Split around one separator, when neither side holds the separator and the
   * separator's first character does not recur in it (as with "->"): the two
   * sides. No occurrence can then straddle a side and the separator.
   */
  lemma SplitOnce(x: string, y: string, sep: string)
    requires |sep| > 0 && sep[0] !in sep[1..]
    requires IndexOf(x, sep) == -1 && IndexOf(y, sep) == -1
    ensures SplitOn(x + sep + y, sep) == [x, y]
  {
    var s := x + sep + y;
    assert OccursAt(s, sep, |x|) by {
      assert s[|x|..|x| + |sep|] == sep;
    }
    forall k | 0 <= k < |x| ensures !OccursAt(s, sep, k) {
      NotBeforeSeparator(x, y, sep, k);
    }
    assert IndexOf(s, sep) == |x|;
    assert s[..|x|] == x;
    assert s[|x| + |sep|..] == y;
  }

  lemma NotBeforeSeparator(x: string, y: string, sep: string, k: nat)
    requires |sep| > 0 && sep[0] !in sep[1..]
    requires IndexOf(x, sep) == -1 && k < |x|
    ensures !OccursAt(x + sep + y, sep, k)
  {
    var s := x + sep + y;
    if k + |sep| <= |x| {
      assert !OccursAt(x, sep, k);
      assert s[k..k + |sep|] == x[k..k + |sep|];
    } else if k + |sep| <= |s| {
      var d := |x| - k;
      var w := s[k..k + |sep|];
      assert w[d] == sep[0];
      assert sep[d] != sep[0] by {
        assert sep[d] == sep[1..][d - 1];
      }
      assert w != sep;
    }
  }

  /** A string without the separator's first character does not hold the separator. */
  lemma NoOccurrence(s: string, sep: string)
    requires |sep| > 0 && sep[0] !in s
    ensures IndexOf(s, sep) == -1
  {
    forall k | 0 <= k < |s| ensures !OccursAt(s, sep, k) {
      assert k + |sep| <= |s| ==> s[k..k + |sep|][0] == s[k];
    }
  }

  /** str.replace(c, ""): every occurrence of c removed, the rest in order. */
  function RemoveChar(s: string, c: char): (r: string)
    ensures |r| <= |s|
  {
    if s == [] then [] else (if s[0] == c then [] else [s[0]]) + RemoveChar(s[1..], c)
  }

  /** No c is left, and a string without c is unchanged. */
  lemma {:induction false} RemoveCharSpec(s: string, c: char)
    ensures c !in RemoveChar(s, c)
    ensures c !in s ==> RemoveChar(s, c) == s
    decreases |s|
  {
    if s != [] {
      RemoveCharSpec(s[1..], c);
      assert s == [s[0]] + s[1..];
    }
  }

  /** Every other character keeps its number of occurrences. */
  lemma {:induction false} RemoveCharCounts(s: string, c: char)
    ensures forall x :: x != c ==> multiset(RemoveChar(s, c))[x] == multiset(s)[x]
    decreases |s|
  {
    if s != [] {
      RemoveCharCounts(s[1..], c);
      assert s == [s[0]] + s[1..];
    }
  }

  lemma {:induction false} RemoveCharAppend(a: string, b: string, c: char)
    ensures RemoveChar(a + b, c) == RemoveChar(a, c) + RemoveChar(b, c)
    decreases |a|
  {
    if a == [] {
      assert a + b == b;
    } else {
      var ab := a + b;
      assert ab[0] == a[0] && ab[1..] == a[1..] + b;
      RemoveCharAppend(a[1..], b, c);
    }
  }

  /**
   * Universal-newline translation of a file opened in text mode: "\r\n" and a
   * lone "\r" both read as "\n".
   */
  function TranslateNewlines(s: string): (r: string)
    ensures '\r' !in r
    ensures '\r' !in s ==> r == s
  {
    if s == [] then
      []
    else if s[0] == '\r' then
      "\n" + TranslateNewlines(if |s| > 1 && s[1] == '\n' then s[2..] else s[1..])
    else
      assert s == [s[0]] + s[1..];
      [s[0]] + TranslateNewlines(s[1..])
  }

  /**
   * Text written in text mode with line separator eol: every "\n" becomes
   * eol ("\n" on POSIX, "\r\n" on Windows, "\r" on classic Mac OS).
   */
  function EncodeNewlines(s: string, eol: string): (r: string)
    ensures '\n' !in s ==> r == s
  {
    if s == [] then [] else (if s[0] == '\n' then eol else [s[0]]) + EncodeNewlines(s[1..], eol)
  }

  /**
   * Reading in text mode undoes writing in text mode: with any of the three
   * line separators, text without "\r" reads back unchanged, so "\r\n" and a
   * lone "\r" both read as "\n".
   */
  lemma {:induction false} NewlinesRoundTrip(s: string, eol: string)
    requires eol == "\n" || eol == "\r\n" || eol == "\r"
    requires '\r' !in s
    ensures TranslateNewlines(EncodeNewlines(s, eol)) == s
    decreases |s|
  {
    if s != [] {
      var rest := s[1..];
      var e := EncodeNewlines(rest, eol);
      NewlinesRoundTrip(rest, eol);
      assert s == [s[0]] + rest;
      if s[0] == '\n' {
        assert EncodeNewlines(s, eol) == eol + e;
        if eol == "\r" {
          assert e == [] || e[0] != '\n' by {
            if rest != [] {
              assert e[0] == (if rest[0] == '\n' then eol else [rest[0]])[0];
            }
          }
          assert (eol + e)[1..] == e;
        } else if eol == "\r\n" {
          assert (eol + e)[2..] == e;
        } else {
          assert (eol + e)[1..] == e;
        }
      } else {
        assert (([s[0]] + e)[1..]) == e;
      }
    }
  }

  function Concat(lines: seq<string>): string {
    if lines == [] then [] else lines[0] + Concat(lines[1..])
  }

  /**
   * The lines `for line in f` yields from already translated text: each line
   * keeps its "\n", only the last may lack one, and no line is empty.
   */
  function Lines(s: string): (lines: seq<string>)
    ensures Concat(lines) == s
    decreases |s|
  {
    if s == [] then
      []
    else
      var k := Find(s, '\n');
      if k == -1 then
        [s]
      else
        assert s == s[..k + 1] + s[k + 1..];
        [s[..k + 1]] + Lines(s[k + 1..])
  }

  predicate EndsWithNewline(line: string) {
    line != [] && line[|line| - 1] == '\n'
  }

  /** No line is empty, and no line holds a line break before its end. */
  lemma {:induction false} LinesUnbroken(s: string)
    ensures forall line :: line in Lines(s) ==> line != [] && '\n' !in line[..|line| - 1]
    decreases |s|
  {
    if s != [] {
      var k := Find(s, '\n');
      if k != -1 {
        var line := s[..k + 1];
        assert line[..|line| - 1] == s[..k];
        LinesUnbroken(s[k + 1..]);
        assert Lines(s) == [line] + Lines(s[k + 1..]);
      }
    }
  }

  /** Every line but the last ends with its line break. */
  lemma {:induction false} LinesTerminated(s: string)
    ensures forall i :: 0 <= i < |Lines(s)| - 1 ==> EndsWithNewline(Lines(s)[i])
    decreases |s|
  {
    if s != [] {
      var k := Find(s, '\n');
      if k != -1 {
        var line := s[..k + 1];
        assert EndsWithNewline(line);
        LinesTerminated(s[k + 1..]);
        var rest := Lines(s[k + 1..]);
        assert Lines(s) == [line] + rest;
      }
    }
  }

  /** The lines read from a transcript file whose contents are s. */
  function ReadLines(s: string): seq<string> {
    Lines(TranslateNewlines(s))
  }

  lemma LinesCons(line: string, rest: string)
    requires '\n' !in line
    ensures Lines(line + "\n" + rest) == [line + "\n"] + Lines(rest)
  {
    var s := line + "\n" + rest;
    assert s[|line|] == '\n';
    assert s[..|line|] == line;
    assert Find(s, '\n') == |line|;
    assert s[..|line| + 1] == line + "\n";
    assert s[|line| + 1..] == rest;
  }

}
