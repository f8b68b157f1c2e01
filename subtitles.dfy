/** The SRT to WebVTT conversion the review view applies to the uploaded
    subtitle file before handing it to the player
    (`srtToVtt`, src/renderer/components/VocabularySession.tsx). The WebVTT
    file structure (section 4.1 of the W3C WebVTT specification) asks for a
    `WEBVTT` signature line followed by a blank line, and for cue timestamps
    written with a dot before the milliseconds where SRT writes a comma. */
module Subtitles {
  import opened Strings

  /** The signature line and the blank line that follows it. */
  const Header: string := "WEBVTT\n\n"

  /** `replace(/\r+/g, '')`: every carriage return deleted, everything else
      kept in order. */
  function StripCarriageReturns(s: string): (r: string)
    ensures '\r' !in r
    ensures |r| == |s| - Count(s, '\r')
    ensures forall c :: c != '\r' ==> Count(r, c) == Count(s, c)
    ensures '\r' !in s ==> r == s
  {
    if s == [] then []
    else if s[0] == '\r' then StripCarriageReturns(s[1..])
    else
      var rest := StripCarriageReturns(s[1..]);
      assert ([s[0]] + rest)[1..] == rest;
      assert '\r' !in s ==> [s[0]] + s[1..] == s;
      [s[0]] + rest
  }

  /** Stripping works character by character: a carriage return is dropped
      and any other character is kept. */
  lemma StripOne(c: char)
    ensures StripCarriageReturns([c]) == if c == '\r' then [] else [c]
  {
    assert [c][1..] == [];
  }

  /** Stripping a concatenation strips each part, so the kept characters
      stay in their order. With `StripOne` this determines the result for
      every text. */
  lemma {:induction false} StripCarriageReturnsAppend(a: string, b: string)
    ensures StripCarriageReturns(a + b) == StripCarriageReturns(a) + StripCarriageReturns(b)
  {
    if a == [] {
      assert a + b == b;
    } else {
      StripCarriageReturnsAppend(a[1..], b);
      ConsAppend(a, b);
      StripAppendStep(a[0], a[1..], b);
    }
  }

  /** The step of `StripCarriageReturnsAppend`: a first character is dropped
      or kept in front of both sides alike. */
  lemma StripAppendStep(x: char, t: string, b: string)
    requires StripCarriageReturns(t + b) == StripCarriageReturns(t) + StripCarriageReturns(b)
    ensures StripCarriageReturns([x] + (t + b)) == StripCarriageReturns([x] + t) + StripCarriageReturns(b)
  {
    StripCons(x, t + b);
    StripCons(x, t);
    ConcatAssoc(if x == '\r' then [] else [x], StripCarriageReturns(t), StripCarriageReturns(b));
  }

  lemma ConcatAssoc(p: string, u: string, v: string)
    ensures p + (u + v) == p + u + v
  { }

  lemma ConsAppend(a: string, b: string)
    requires a != []
    ensures a == [a[0]] + a[1..] && a + b == [a[0]] + (a[1..] + b)
  {
    assert (a + b)[1..] == a[1..] + b;
  }

  /** Stripping a text that starts with `x`: `x` unless it is a carriage
      return, followed by the stripped rest. */
  lemma StripCons(x: char, t: string)
    ensures StripCarriageReturns([x] + t) == (if x == '\r' then [] else [x]) + StripCarriageReturns(t)
  {
    var s := [x] + t;
    assert s[0] == x && s[1..] == t;
  }

  /** A character that can take part in a timestamp match. */
  predicate InPattern(c: char) {
    IsDigit(c) || c == ':' || c == ','
  }

  /** `s[i..i + 12]` matches `\d{2}:\d{2}:\d{2},\d{3}`. */
  predicate IsTimeAt(s: string, i: nat)
    ensures IsTimeAt(s, i) ==> i + 12 <= |s| && s[i + 8] == ','
  {
    && i + 12 <= |s|
    && IsDigit(s[i]) && IsDigit(s[i + 1]) && s[i + 2] == ':'
    && IsDigit(s[i + 3]) && IsDigit(s[i + 4]) && s[i + 5] == ':'
    && IsDigit(s[i + 6]) && IsDigit(s[i + 7]) && s[i + 8] == ','
    && IsDigit(s[i + 9]) && IsDigit(s[i + 10]) && IsDigit(s[i + 11])
  }

  /** `r` is `s` with at most some commas of matches turned into dots: every
      position keeps its character, except a comma at the ninth place of a
      match, which may become a dot. */
  predicate OnlyMatchCommasChanged(s: string, r: string) {
    && |r| == |s|
    && forall k {:trigger r[k]} :: 0 <= k < |s| ==>
         r[k] == s[k] || (s[k] == ',' && r[k] == '.' && 8 <= k && IsTimeAt(s, k - 8))
  }

  lemma AfterMatchChanged(s: string, rest: string)
    requires IsTimeAt(s, 0) && OnlyMatchCommasChanged(s[12..], rest)
    ensures OnlyMatchCommasChanged(s, s[..8] + "." + s[9..12] + rest)
  {
    var r := s[..8] + "." + s[9..12] + rest;
    forall k | 12 <= k < |s|
      ensures r[k] == s[k] || (s[k] == ',' && r[k] == '.' && 8 <= k && IsTimeAt(s, k - 8))
    {
      assert r[k] == rest[k - 12] && s[k] == s[12..][k - 12];
      if 20 <= k && IsTimeAt(s[12..], k - 20) { assert IsTimeAt(s, k - 8); }
    }
    assert forall k :: 0 <= k < 12 && k != 8 ==> r[k] == s[k];
  }

  lemma AfterCharChanged(s: string, rest: string)
    requires s != [] && OnlyMatchCommasChanged(s[1..], rest)
    ensures OnlyMatchCommasChanged(s, [s[0]] + rest)
  {
    var r := [s[0]] + rest;
    forall k | 1 <= k < |s|
      ensures r[k] == s[k] || (s[k] == ',' && r[k] == '.' && 8 <= k && IsTimeAt(s, k - 8))
    {
      assert r[k] == rest[k - 1] && s[k] == s[1..][k - 1];
      if 9 <= k && IsTimeAt(s[1..], k - 9) { assert IsTimeAt(s, k - 8); }
    }
  }

  /** `replace(/(\d{2}:\d{2}:\d{2}),(\d{3})/g, '$1.$2')` on one string: the
      global regular expression scans left to right; at a position where the
      12-character pattern matches, the comma becomes a dot and the scan
      resumes after the match, otherwise the character is kept and the scan
      moves on by one. */
  function ReplaceTimes(s: string): (r: string)
    ensures |r| == |s|
  {
    if s == [] then []
    else if IsTimeAt(s, 0) then s[..8] + "." + s[9..12] + ReplaceTimes(s[12..])
    else [s[0]] + ReplaceTimes(s[1..])
  }

  /** The scan keeps the length, and a position changes only when it holds
      the comma of a match, which becomes a dot. */
  lemma {:induction false} OnlyMatchCommasReplaced(s: string)
    ensures OnlyMatchCommasChanged(s, ReplaceTimes(s))
  {
    if s == [] {
    } else if IsTimeAt(s, 0) {
      OnlyMatchCommasReplaced(s[12..]);
      AfterMatchChanged(s, ReplaceTimes(s[12..]));
    } else {
      OnlyMatchCommasReplaced(s[1..]);
      AfterCharChanged(s, ReplaceTimes(s[1..]));
    }
  }

  /** Scanning does not reach past a character that cannot be part of a
      match, so the scan of `a + [c] + b` is the scan of `a`, then `c`, then
      the scan of `b`. */
  lemma {:induction false} ReplaceTimesAround(a: string, c: char, b: string)
    requires !InPattern(c)
    ensures ReplaceTimes(a + [c] + b) == ReplaceTimes(a) + [c] + ReplaceTimes(b)
    decreases |a|
  {
    var s := a + [c] + b;
    if a == [] {
      assert !IsTimeAt(s, 0);
      assert s[1..] == b;
    } else if IsTimeAt(s, 0) {
      MatchBeforeSeparator(a, c, b);
      ReplaceTimesAround(a[12..], c, b);
      var p := a[..8] + "." + a[9..12];
      JoinAround(p, ReplaceTimes(a[12..]), c, ReplaceTimes(b));
    } else {
      assert !IsTimeAt(a, 0);
      assert s[1..] == a[1..] + [c] + b;
      ReplaceTimesAround(a[1..], c, b);
    }
  }

  /** A match at the front of `a + [c] + b` lies inside `a` when `c` cannot
      be part of a match. */
  lemma MatchBeforeSeparator(a: string, c: char, b: string)
    requires !InPattern(c) && IsTimeAt(a + [c] + b, 0)
    ensures |a| >= 12 && IsTimeAt(a, 0)
    ensures var s := a + [c] + b;
      s[..8] == a[..8] && s[9..12] == a[9..12] && s[12..] == a[12..] + [c] + b
  {
    var s := a + [c] + b;
    assert forall k :: 0 <= k < 12 ==> InPattern(s[k]);
    assert s[|a|] == c;
    assert s[12..] == a[12..] + [c] + b;
  }

  lemma JoinAround(p: string, x: string, c: char, y: string)
    ensures p + (x + [c] + y) == p + x + [c] + y
  { }

  /** `.map(line => line.replace(...))` over the lines. */
  function ReplaceInLines(lines: seq<string>): (r: seq<string>)
    ensures |r| == |lines|
    ensures forall i :: 0 <= i < |lines| ==> r[i] == ReplaceTimes(lines[i])
  {
    if lines == [] then [] else [ReplaceTimes(lines[0])] + ReplaceInLines(lines[1..])
  }

  /** Replacing line by line and joining equals replacing in the joined text,
      because a newline never belongs to a match. */
  lemma {:induction false} ReplaceCommutesWithJoin(lines: seq<string>)
    ensures Join(ReplaceInLines(lines), '\n') == ReplaceTimes(Join(lines, '\n'))
  {
    if |lines| > 1 {
      ReplaceCommutesWithJoin(lines[1..]);
      ReplaceTimesAround(lines[0], '\n', Join(lines[1..], '\n'));
      assert ReplaceInLines(lines)[1..] == ReplaceInLines(lines[1..]);
    }
  }

  /** `ReplaceTimes` keeps every character other than `,` and `.` in place, so
      in particular it keeps the newlines and hence the number of lines. */
  lemma ReplaceTimesKeepsCount(s: string, c: char)
    requires c != ',' && c != '.'
    ensures Count(ReplaceTimes(s), c) == Count(s, c)
  {
    OnlyMatchCommasReplaced(s);
    CountPointwise(s, ReplaceTimes(s), c);
  }

  /** The text part of `srtToVtt` for a text without carriage returns:
      splitting into lines, converting each and joining again is one scan of
      the whole text, which keeps the absence of carriage returns and the
      number of newlines. */
  lemma ConvertBody(text: string)
    requires '\r' !in text
    ensures Join(ReplaceInLines(Split(text, '\n')), '\n') == ReplaceTimes(text)
    ensures '\r' !in ReplaceTimes(text)
    ensures Count(ReplaceTimes(text), '\n') == Count(text, '\n')
  {
    ReplaceCommutesWithJoin(Split(text, '\n'));
    JoinSplit(text, '\n');
    ReplaceTimesKeepsCount(text, '\n');
    OnlyMatchCommasReplaced(text);
    forall k | 0 <= k < |text| ensures ReplaceTimes(text)[k] != '\r' { }
  }

  lemma HeaderFacts()
    ensures |Header| == 8
    ensures '\r' !in Header
    ensures Count(Header, '\n') == 2
  {
  }

  /** `srtToVtt`: the header, then the text with carriage returns deleted,
      split into lines, each line's timestamps converted, and the lines joined
      again. The split and join cancel out, so the result is the header
      followed by one left-to-right scan of the stripped text. It carries no
      carriage return, is the input's length plus eight minus its carriage
      returns, and has two more lines than the input. */
  function SrtToVtt(srt: string): (r: string)
    ensures |r| >= |Header| && r[..|Header|] == Header
    ensures r == Header + ReplaceTimes(StripCarriageReturns(srt))
    ensures '\r' !in r
    ensures |r| == |Header| + |srt| - Count(srt, '\r')
    ensures Count(r, '\n') == Count(srt, '\n') + 2
    ensures |Split(r, '\n')| == |Split(srt, '\n')| + 2
  {
    var text := StripCarriageReturns(srt);
    ConvertBody(text);
    HeaderFacts();
    CountAppend(Header, ReplaceTimes(text), '\n');
    Header + Join(ReplaceInLines(Split(text, '\n')), '\n')
  }

  /** A match that no earlier match can overlap is always converted: the scan
      lands on it and turns its comma into a dot. */
  lemma {:induction false} IsolatedMatchReplaced(s: string, i: nat)
    requires IsTimeAt(s, i)
    requires forall j: nat :: j < i && i < j + 12 ==> !IsTimeAt(s, j)
    ensures ReplaceTimes(s)[i + 8] == '.'
    decreases i
  {
    if IsTimeAt(s, 0) {
      if i > 0 {
        assert i >= 12;
        forall j: nat | j < i - 12 && i - 12 < j + 12
          ensures !IsTimeAt(s[12..], j)
        {
          assert !IsTimeAt(s, j + 12);
        }
        IsolatedMatchReplaced(s[12..], i - 12);
      }
    } else {
      assert i > 0;
      forall j: nat | j < i - 1 && i - 1 < j + 12
        ensures !IsTimeAt(s[1..], j)
      {
        assert !IsTimeAt(s, j + 1);
      }
      IsolatedMatchReplaced(s[1..], i - 1);
    }
  }

  /** Where the global regular expression finds its matches, defined without
      the scan: a position where the pattern matches and that no match found
      earlier overlaps (matches are 12 characters long). */
  predicate ScanMatch(s: string, i: nat)
    decreases i
  {
    IsTimeAt(s, i) && forall j: nat :: j < i < j + 12 ==> !ScanMatch(s, j)
  }

  /** Past a position `d` that no found match straddles, the matches of `s`
      are those of `s[d..]`, shifted by `d`. */
  lemma {:induction false} ScanMatchShift(s: string, d: nat, i: nat)
    requires d <= i && d <= |s|
    requires forall j: nat :: j < d < j + 12 ==> !ScanMatch(s, j)
    ensures ScanMatch(s, i) == ScanMatch(s[d..], i - d)
    decreases i
  {
    var t := s[d..];
    assert IsTimeAt(s, i) == IsTimeAt(t, i - d) by {
      if i + 12 <= |s| {
        assert forall k :: i <= k < i + 12 ==> t[k - d] == s[k];
      }
    }
    forall j: nat | d <= j < i < j + 12 ensures ScanMatch(s, j) == ScanMatch(t, j - d) {
      ScanMatchShift(s, d, j);
    }
    if ScanMatch(t, i - d) {
      forall j: nat | j < i < j + 12 ensures !ScanMatch(s, j) {
        if d <= j { assert !ScanMatch(t, j - d); }
      }
    }
    if ScanMatch(s, i) {
      forall j': nat | j' < i - d < j' + 12 ensures !ScanMatch(t, j') {
        assert !ScanMatch(s, j' + d);
      }
    }
  }

  /** A match at the front is found, the next eleven positions are not, and
      from position 12 on the matches are those of the rest. */
  lemma FrontMatchScan(s: string)
    requires IsTimeAt(s, 0)
    ensures ScanMatch(s, 0)
    ensures forall j: nat :: 0 < j < 12 ==> !ScanMatch(s, j)
    ensures forall i: nat :: 12 <= i ==> ScanMatch(s, i) == ScanMatch(s[12..], i - 12)
  {
    assert ScanMatch(s, 0);
    forall j: nat | 0 < j < 12 ensures !ScanMatch(s, j) {
      assert 0 < j < 12;
    }
    forall i: nat | 12 <= i ensures ScanMatch(s, i) == ScanMatch(s[12..], i - 12) {
      ScanMatchShift(s, 12, i);
    }
  }

  /** Without a match at the front, from position 1 on the matches are those
      of the rest. */
  lemma FrontCharScan(s: string)
    requires s != [] && !IsTimeAt(s, 0)
    ensures !ScanMatch(s, 0)
    ensures forall i: nat :: 1 <= i ==> ScanMatch(s, i) == ScanMatch(s[1..], i - 1)
  {
    forall i: nat | 1 <= i ensures ScanMatch(s, i) == ScanMatch(s[1..], i - 1) {
      ScanMatchShift(s, 1, i);
    }
  }

  /** The conversion exactly: a position becomes a dot when it holds the
      comma of a match the regular expression finds, and keeps its character
      otherwise. */
  lemma {:induction false} ReplaceTimesExact(s: string)
    ensures forall k :: 0 <= k < |s| ==>
      ReplaceTimes(s)[k] == if 8 <= k && ScanMatch(s, k - 8) then '.' else s[k]
  {
    if s == [] {
    } else if IsTimeAt(s, 0) {
      var rest := s[12..];
      ReplaceTimesExact(rest);
      FrontMatchScan(s);
      MatchStepPointwise(s, ReplaceTimes(rest));
      assert ReplaceTimes(s) == s[..8] + "." + s[9..12] + ReplaceTimes(rest);
      forall k | 12 <= k < |s|
        ensures ReplaceTimes(s)[k] == if 8 <= k && ScanMatch(s, k - 8) then '.' else s[k]
      {
        assert s[k] == rest[k - 12];
        if k >= 20 { assert ScanMatch(s, k - 8) == ScanMatch(rest, k - 20); }
      }
    } else {
      var rest := s[1..];
      ReplaceTimesExact(rest);
      FrontCharScan(s);
      assert ReplaceTimes(s) == [s[0]] + ReplaceTimes(rest);
      forall k | 1 <= k < |s|
        ensures ReplaceTimes(s)[k] == if 8 <= k && ScanMatch(s, k - 8) then '.' else s[k]
      {
        assert s[k] == rest[k - 1];
        assert ReplaceTimes(s)[k] == ReplaceTimes(rest)[k - 1];
        if k >= 9 { assert ScanMatch(s, k - 8) == ScanMatch(rest, k - 9); }
      }
    }
  }

  /** The positions of the converted front match followed by the converted
      rest. */
  lemma MatchStepPointwise(s: string, tail: string)
    requires IsTimeAt(s, 0) && |tail| == |s| - 12
    ensures var r := s[..8] + "." + s[9..12] + tail;
      && |r| == |s| && r[8] == '.'
      && (forall k :: 0 <= k < 12 && k != 8 ==> r[k] == s[k])
      && (forall k :: 12 <= k < |s| ==> r[k] == tail[k - 12])
  {
  }

  /** The timestamp `t` (a match of length 12) with its comma made a dot. */
  function Dotted(t: string): (d: string)
    requires |t| == 12 && IsTimeAt(t, 0)
    ensures |d| == 12 && d[8] == '.'
    ensures forall k :: 0 <= k < 12 && k != 8 ==> d[k] == t[k]
  {
    t[..8] + "." + t[9..]
  }

  /** A text too short to hold a match is left as it is. */
  lemma ShortUnchanged(s: string)
    requires |s| < 12
    ensures ReplaceTimes(s) == s
  {
    OnlyMatchCommasReplaced(s);
    assert forall k :: 0 <= k < |s| ==> ReplaceTimes(s)[k] == s[k];
  }

  /** A match at the front becomes its dotted form, and the scan resumes
      right after it. */
  lemma ReplaceTimesAtMatch(t: string, rest: string)
    requires |t| == 12 && IsTimeAt(t, 0)
    ensures ReplaceTimes(t + rest) == Dotted(t) + ReplaceTimes(rest)
  {
    var s := t + rest;
    assert IsTimeAt(s, 0);
    assert s[12..] == rest;
    assert s[..8] + "." + s[9..12] == Dotted(t);
  }

  lemma ArrowScan(end: string)
    requires |end| == 12 && IsTimeAt(end, 0)
    ensures ReplaceTimes(" --> " + end) == " --> " + Dotted(end)
  {
    assert " --> " + end == " -->" + [' '] + end;
    ShortUnchanged(" -->");
    ReplaceTimesAround(" -->", ' ', end);
    ReplaceTimesAtMatch(end, []);
    assert end + [] == end;
  }

  /** Timestamps and the arrow hold no carriage return. */
  lemma TimingLineHasNoCarriageReturn(begin: string, end: string)
    requires |begin| == 12 && IsTimeAt(begin, 0)
    requires |end| == 12 && IsTimeAt(end, 0)
    ensures '\r' !in begin + " --> " + end
  {
    var line := begin + " --> " + end;
    forall k | 0 <= k < |line| ensures line[k] != '\r' {
      if k < 12 { assert line[k] == begin[k]; }
      else if k >= 17 { assert line[k] == end[k - 17]; }
    }
  }

  /** The scan of a timing line converts both timestamps. */
  lemma TimingLineScan(begin: string, end: string)
    requires |begin| == 12 && IsTimeAt(begin, 0)
    requires |end| == 12 && IsTimeAt(end, 0)
    ensures ReplaceTimes(begin + " --> " + end) == Dotted(begin) + " --> " + Dotted(end)
  {
    var arrow := " --> " + end;
    var line := begin + arrow;
    assert begin + " --> " + end == line;
    ReplaceTimesAtMatch(begin, arrow);
    ArrowScan(end);
    assert ReplaceTimes(line) == Dotted(begin) + (" --> " + Dotted(end));
  }

  /** An SRT cue timing line `begin --> end` becomes the WebVTT timing line
      with both comma separators turned into dots. */
  lemma CueTimingLineConverts(begin: string, end: string)
    requires |begin| == 12 && IsTimeAt(begin, 0)
    requires |end| == 12 && IsTimeAt(end, 0)
    ensures SrtToVtt(begin + " --> " + end) == Header + Dotted(begin) + " --> " + Dotted(end)
  {
    TimingLineHasNoCarriageReturn(begin, end);
    TimingLineScan(begin, end);
  }

  /** A match at the front followed by too little to hold another one:
      only the front match is converted. */
  lemma MatchThenShort(s: string)
    requires IsTimeAt(s, 0) && |s| < 24
    ensures ReplaceTimes(s) == s[..8] + "." + s[9..]
  {
    var t, rest := s[..12], s[12..];
    DottedThenRest(s);
    assert s == t + rest;
    ReplaceTimesAtMatch(t, rest);
    ShortUnchanged(rest);
  }

  lemma DottedThenRest(s: string)
    requires IsTimeAt(s, 0)
    ensures IsTimeAt(s[..12], 0)
    ensures Dotted(s[..12]) + s[12..] == s[..8] + "." + s[9..]
  {
    var t := s[..12];
    assert forall k :: 0 <= k < 12 ==> t[k] == s[k];
  }

  /** Scanning that result again converts the second match. */
  lemma SecondScanOfOverlap(s: string)
    requires |s| == 22 && IsTimeAt(s, 0) && IsTimeAt(s, 10)
    ensures ReplaceTimes(s[..8] + "." + s[9..]) == s[..8] + "." + s[9..18] + "." + s[19..]
  {
    var u := s[..8] + "." + s[9..];
    assert forall k :: 0 <= k < 22 && k != 8 ==> u[k] == s[k];
    forall j: nat | j < 10 ensures !IsTimeAt(u, j) {
      assert u[j + 8] != ',';
    }
    assert IsTimeAt(u, 10);
    IsolatedMatchReplaced(u, 10);
    var r := ReplaceTimes(u);
    OnlyMatchCommasReplaced(u);
    var v := s[..8] + "." + s[9..18] + "." + s[19..];
    forall k | 0 <= k < |u| ensures r[k] == v[k] {
      if k != 18 { assert u[k] != ','; }
    }
    assert r == v;
  }

  /** The conversion is not idempotent. When a second match starts inside the
      first one (as in `11:22:33,444:55:66,777`), one scan converts only the
      first comma, and converting the result again converts the second. */
  lemma {:induction false} ReplaceTimesNotIdempotent(s: string)
    requires |s| == 22 && IsTimeAt(s, 0) && IsTimeAt(s, 10)
    ensures ReplaceTimes(s) == s[..8] + "." + s[9..]
    ensures ReplaceTimes(ReplaceTimes(s)) == s[..8] + "." + s[9..18] + "." + s[19..]
    ensures ReplaceTimes(ReplaceTimes(s)) != ReplaceTimes(s)
  {
    MatchThenShort(s);
    SecondScanOfOverlap(s);
    assert ReplaceTimes(ReplaceTimes(s))[18] == '.';
    assert ReplaceTimes(s)[18] == ',';
  }
}
