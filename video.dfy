/** The clip bounds of the video player (src/renderer/components/VideoPlayer.tsx):
    parsing a subtitle timestamp, widening the word's subtitle interval by a
    one-second roll on each side, and rewinding playback when it runs past
    the end of the clip. Times are whole milliseconds. */
module Video {
  import opened Wrappers
  import opened Strings

  /** `Number(part)`, and `parseInt(part)`, for a non-empty string of decimal
      digits. Any other part (empty, signed, with spaces or other characters)
      yields `None`: this model does not follow JavaScript's conversions there. */
  function DecimalValue(part: string): (v: Option<nat>)
    ensures v.Some? <==> part != [] && AllDigits(part)
    ensures v.Some? ==> v.value == DigitsValue(part)
  {
    if part != [] && AllDigits(part) then Some(DigitsValue(part)) else None
  }

  /** `timestampToSeconds`, in milliseconds. The text before the first comma
      is split at colons and its first three fields are hours, minutes and
      seconds; the text after the first comma, when present and non-empty,
      counts as milliseconds (`parseInt(ms) / 1000` seconds), and otherwise
      contributes nothing. Fewer than three fields leave a field undefined,
      which converts to NaN: `None`. */
  function TimestampToMillis(timestamp: string): (ms: Option<nat>)
    ensures |Split(Split(timestamp, ',')[0], ':')| < 3 ==> ms.None?
  {
    var pieces := Split(timestamp, ',');
    var fraction := if |pieces| > 1 && pieces[1] != [] then DecimalValue(pieces[1]) else Some(0);
    ClockMillis(Split(pieces[0], ':'), fraction)
  }

  /** Hours, minutes and seconds from the first three clock fields, plus the
      milliseconds of the fraction. */
  function ClockMillis(fields: seq<string>, fraction: Option<nat>): (ms: Option<nat>)
    ensures |fields| < 3 || fraction.None? ==> ms.None?
  {
    if |fields| < 3 || fraction.None? then None
    else
      var hours, minutes, seconds := DecimalValue(fields[0]), DecimalValue(fields[1]), DecimalValue(fields[2]);
      if hours.None? || minutes.None? || seconds.None? then None
      else Some(hours.value * 3_600_000 + minutes.value * 60_000 + seconds.value * 1000 + fraction.value)
  }

  /** The text `h:m:s`, split at colons, gives the three fields. */
  lemma {:induction false} SplitClock(h: string, m: string, s: string)
    requires ':' !in h && ':' !in m && ':' !in s
    ensures Split(h + ":" + m + ":" + s, ':') == [h, m, s]
  {
    assert h + ":" + m + ":" + s == h + [':'] + (m + [':'] + s);
    SplitAtFirst(h, ':', m + [':'] + s);
    SplitAtFirst(m, ':', s);
    SplitWithoutSeparator(s, ':');
  }

  lemma DigitsHaveNoSeparator(d: string)
    requires AllDigits(d)
    ensures ':' !in d && ',' !in d
  {
    forall k | 0 <= k < |d| ensures d[k] != ':' && d[k] != ',' {
      assert IsDigit(d[k]);
    }
  }

  lemma ClockHasNoComma(h: string, m: string, s: string)
    requires AllDigits(h) && AllDigits(m) && AllDigits(s)
    ensures ',' !in h + ":" + m + ":" + s
    ensures Split(h + ":" + m + ":" + s, ':') == [h, m, s]
  {
    DigitsHaveNoSeparator(h);
    DigitsHaveNoSeparator(m);
    DigitsHaveNoSeparator(s);
    SplitClock(h, m, s);
  }

  /** The value of three digit-string clock fields and a fraction. */
  lemma ValueOfFields(h: string, m: string, s: string, fraction: nat)
    requires h != [] && m != [] && s != []
    requires AllDigits(h) && AllDigits(m) && AllDigits(s)
    ensures ClockMillis([h, m, s], Some(fraction))
         == Some(((DigitsValue(h) * 60 + DigitsValue(m)) * 60 + DigitsValue(s)) * 1000 + fraction)
  {
    var hv, mv, sv := DigitsValue(h), DigitsValue(m), DigitsValue(s);
    assert hv * 3_600_000 + mv * 60_000 + sv * 1000 == ((hv * 60 + mv) * 60 + sv) * 1000;
  }

  /** The value of three digit-string clock fields with no fraction. */
  lemma ValueOfClock(h: string, m: string, s: string)
    requires h != [] && m != [] && s != []
    requires AllDigits(h) && AllDigits(m) && AllDigits(s)
    ensures ClockMillis([h, m, s], Some(0))
         == Some(((DigitsValue(h) * 60 + DigitsValue(m)) * 60 + DigitsValue(s)) * 1000)
  {
    var hv, mv, sv := DigitsValue(h), DigitsValue(m), DigitsValue(s);
    assert hv * 3_600_000 + mv * 60_000 + sv * 1000 + 0 == ((hv * 60 + mv) * 60 + sv) * 1000;
  }

  /** A clock `h:m:s` followed by a comma and a digit part `f` (possibly
      empty) splits at the comma into the clock and `f`. */
  lemma {:induction false} SplitTimestamp(h: string, m: string, s: string, f: string)
    requires AllDigits(h) && AllDigits(m) && AllDigits(s) && AllDigits(f)
    ensures Split(h + ":" + m + ":" + s + "," + f, ',') == [h + ":" + m + ":" + s, f]
    ensures Split(h + ":" + m + ":" + s, ':') == [h, m, s]
  {
    var clock := h + ":" + m + ":" + s;
    ClockHasNoComma(h, m, s);
    DigitsHaveNoSeparator(f);
    assert h + ":" + m + ":" + s + "," + f == clock + [','] + f;
    SplitAtFirst(clock, ',', f);
    SplitWithoutSeparator(f, ',');
  }

  /** Milliseconds of a well-formed timestamp `H:M:S,mmm` (digit fields of any
      width): ((H * 60 + M) * 60 + S) * 1000 + mmm. */
  lemma {:induction false} TimestampValue(h: string, m: string, s: string, f: string)
    requires h != [] && m != [] && s != [] && f != []
    requires AllDigits(h) && AllDigits(m) && AllDigits(s) && AllDigits(f)
    ensures TimestampToMillis(h + ":" + m + ":" + s + "," + f)
         == Some(((DigitsValue(h) * 60 + DigitsValue(m)) * 60 + DigitsValue(s)) * 1000 + DigitsValue(f))
  {
    SplitTimestamp(h, m, s, f);
    FractionPieces(h + ":" + m + ":" + s + "," + f, [h, m, s], f);
    ValueOfFields(h, m, s, DigitsValue(f));
  }

  /** A timestamp without a millisecond part counts whole seconds:
      ((H * 60 + M) * 60 + S) * 1000. */
  lemma {:induction false} TimestampWithoutMillis(h: string, m: string, s: string)
    requires h != [] && m != [] && s != []
    requires AllDigits(h) && AllDigits(m) && AllDigits(s)
    ensures TimestampToMillis(h + ":" + m + ":" + s)
         == Some(((DigitsValue(h) * 60 + DigitsValue(m)) * 60 + DigitsValue(s)) * 1000)
  {
    var clock := h + ":" + m + ":" + s;
    ClockHasNoComma(h, m, s);
    SplitWithoutSeparator(clock, ',');
    ValueOfClock(h, m, s);
  }

  /** An empty millisecond part after the comma counts as none. */
  lemma {:induction false} TimestampWithEmptyMillis(h: string, m: string, s: string)
    requires h != [] && m != [] && s != []
    requires AllDigits(h) && AllDigits(m) && AllDigits(s)
    ensures TimestampToMillis(h + ":" + m + ":" + s + ",")
         == Some(((DigitsValue(h) * 60 + DigitsValue(m)) * 60 + DigitsValue(s)) * 1000)
  {
    var clock := h + ":" + m + ":" + s;
    var t := clock + ",";
    ClockHasNoComma(h, m, s);
    assert t == clock + [','] + [];
    SplitAtFirst(clock, ',', []);
    SplitWithoutSeparator([], ',');
    EmptyFractionPieces(t, [h, m, s]);
    ValueOfClock(h, m, s);
  }

  /** A timestamp whose text after the comma is a digit string reads its
      clock fields with that many milliseconds. */
  lemma FractionPieces(t: string, fields: seq<string>, f: string)
    requires |Split(t, ',')| == 2 && Split(t, ',')[1] == f
    requires f != [] && AllDigits(f)
    requires Split(Split(t, ',')[0], ':') == fields
    ensures TimestampToMillis(t) == ClockMillis(fields, Some(DigitsValue(f)))
  { }

  /** A timestamp whose text after the comma is empty reads its clock fields
      with no milliseconds. */
  lemma EmptyFractionPieces(t: string, fields: seq<string>)
    requires |Split(t, ',')| == 2 && Split(t, ',')[1] == []
    requires Split(Split(t, ',')[0], ':') == fields
    ensures TimestampToMillis(t) == ClockMillis(fields, Some(0))
  { }

  /** One timestamp worked out: `01:02:03,456` is 3723.456 seconds. */
  lemma TimestampExample()
    ensures TimestampToMillis("01:02:03,456") == Some(3_723_456)
  {
    ExampleFields();
    TimestampValue("01", "02", "03", "456");
  }

  lemma ExampleFields()
    ensures "01:02:03,456" == "01" + ":" + "02" + ":" + "03" + "," + "456"
    ensures AllDigits("01") && AllDigits("02") && AllDigits("03") && AllDigits("456")
    ensures DigitsValue("01") == 1 && DigitsValue("02") == 2 && DigitsValue("03") == 3
    ensures DigitsValue("456") == 456
  {
  }

  /** The run-up before and the run-out after the subtitle interval. */
  const RollMillis: nat := 1000

  /** `Math.max(0, begin - 1)`: one second before the interval, but never
      before the start of the video. */
  function ClipStart(beginMs: nat): (start: nat)
    ensures start <= beginMs
    ensures beginMs <= start + RollMillis
    ensures start == 0 || start + RollMillis == beginMs
  {
    if beginMs - RollMillis > 0 then beginMs - RollMillis else 0
  }

  /** `end + 1`: one second after the interval. */
  function ClipEnd(endMs: nat): (end: nat)
    ensures endMs < end
    ensures RollMillis <= end
    ensures end - endMs == RollMillis
  {
    endMs + RollMillis
  }

  /** The played clip of one word. */
  datatype Window = Window(start: nat, end: nat)

  /** The clip for a subtitle interval: it starts no later and ends strictly
      later than the interval, and for an interval that does not run
      backwards it is non-empty and contains the whole interval. */
  function ClipWindow(beginMs: nat, endMs: nat): (w: Window)
    ensures w.start <= beginMs && endMs < w.end
    ensures beginMs <= endMs ==> w.start < w.end
  {
    Window(ClipStart(beginMs), ClipEnd(endMs))
  }

  /** The playback state the `timeupdate` handler inspects and changes: the
      clip, the current position in milliseconds and whether it is paused. */
  class Player {
    const window: Window
    var position: nat
    var paused: bool

    /** A fresh autoplaying player for the clip of `[beginMs, endMs]`. */
    constructor (beginMs: nat, endMs: nat)
      ensures window == ClipWindow(beginMs, endMs)
      ensures position == 0 && !paused
    {
      window := ClipWindow(beginMs, endMs);
      position := 0;
      paused := false;
    }

    /** The `loadedmetadata` handler: seek to the clip start. */
    method OnLoadedMetadata()
      modifies this
      ensures position == window.start && paused == old(paused)
    {
      position := window.start;
    }

    /** The `timeupdate` handler: a non-zero position at or past the clip end
        pauses playback and rewinds to the clip start; otherwise nothing
        changes. For a non-empty clip the position is inside it afterwards. */
    method OnTimeUpdate()
      modifies this
      ensures old(position) != 0 && old(position) >= window.end ==>
        paused && position == window.start
      ensures !(old(position) != 0 && old(position) >= window.end) ==>
        position == old(position) && paused == old(paused)
      ensures window.start < window.end ==> position < window.end
    {
      var currentTime := position;
      if currentTime != 0 && currentTime >= window.end {
        paused := true;
        position := window.start;
      }
    }
  }
}
