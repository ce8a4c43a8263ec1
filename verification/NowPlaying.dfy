/** The status line of the xbar "now playing" plugin: duration formatting,
    text truncation, projection of the helper's elapsed-time snapshot to the
    present, and assembly of the single output line. The helper's decoded
    output and the current time are inputs. */
module NowPlaying {
  import opened Wrappers
  import opened Decimal
  import opened Whitespace

  const MicrosPerMinute: int := 60000000
  const MicrosPerSecond: int := 1000000
  /** The bound `limit` is called with for both title and artist. */
  const MaxTextLength: int := 64

  const Ellipsis: char := '\U{2026}'
  /** U+FE58 SMALL EM DASH, the character the script puts between the two times. */
  const TimeSeparator: char := '\U{FE58}'
  const PlayingIcon: char := '\U{25B6}'
  const PausedIcon: char := '\U{23F8}'
  const NoMediaIcon: char := '\U{25FC}'
  const NoMediaLine: string := [NoMediaIcon] + " No media"
  /** " – " (EN DASH between spaces), between title and artist. */
  const TitleArtistSeparator: string := " \U{2013} "

  // ---------------------------------------------------------------------------
  // Duration formatting
  // ---------------------------------------------------------------------------

  /** Minutes and seconds of a clock display. */
  datatype Clock = Clock(minutes: int, seconds: nat)

  /** `f"{n:02d}"` for a non-negative n: zero-padded to two digits. */
  function PadTwo(n: nat): (r: string)
    ensures AllDigits(r)
    ensures n < 100 ==> r == [DigitChar(n / 10), DigitChar(n % 10)]
  {
    if n < 10 then
      "0" + NatToDecimal(n)
    else
      assert n < 100 ==> NatToDecimal(n) == NatToDecimal(n / 10) + [DigitChar(n % 10)];
      NatToDecimal(n)
  }

  /** The clock fields of a microsecond count, with floor division as in
      Python (Dafny's `/` and `%` agree with it for positive divisors). */
  function ClockOf(duration: int): (c: Clock)
    ensures c.seconds < 60
    ensures c.minutes * 60 + c.seconds == duration / MicrosPerSecond
  {
    MinutesOfWholeSeconds(duration);
    Clock(duration / MicrosPerMinute, (duration / MicrosPerSecond) % 60)
  }

  /** `format(duration)`: whole minutes, unpadded (with a '-' when negative),
      then ':', then the seconds within the minute as exactly two digits. */
  function FormatDuration(duration: int): (r: string)
    ensures |r| >= 4 && r[|r| - 3] == ':'
    ensures '0' <= r[|r| - 2] <= '5' && IsDigit(r[|r| - 1])
  {
    IntToDecimal(duration / MicrosPerMinute) + ":" + PadTwo((duration / MicrosPerSecond) % 60)
  }

  /** A display is made of digits, '-' and ':' only, with a single ':' before the seconds. */
  lemma FormatDurationAlphabet(duration: int)
    ensures var r := FormatDuration(duration);
      && (forall k :: 0 <= k < |r| ==> IsDigit(r[k]) || r[k] == '-' || r[k] == ':')
      && ':' !in r[..|r| - 3]
  {
    var r := FormatDuration(duration);
    assert r[..|r| - 3] == IntToDecimal(duration / MicrosPerMinute);
  }

  /** Reads an `M:SS` display back: a rendered integer, ':', two digits. */
  function ParseClock(s: string): (r: Option<Clock>)
    ensures r.Some? ==> r.value.seconds < 100
  {
    if |s| < 4 || s[|s| - 3] != ':' || !IsDigit(s[|s| - 2]) || !IsDigit(s[|s| - 1]) then
      None
    else
      match ParseInt(s[..|s| - 3])
      case Some(m) => Some(Clock(m, 10 * DigitValue(s[|s| - 2]) + DigitValue(s[|s| - 1])))
      case None => None
  }

  lemma DivUnique(x: int, k: int, q: int, r: int)
    requires k > 0 && x == q * k + r && 0 <= r < k
    ensures x / k == q && x % k == r
  {
    var q', r' := x / k, x % k;
    assert (q - q') * k == r' - r;
    if q > q' {
      MulAtLeast(q - q', k);
    } else if q < q' {
      MulAtLeast(q' - q, k);
    }
  }

  lemma MulAtLeast(a: int, k: int)
    requires a >= 1 && k > 0
    ensures a * k >= k
  {
  }

  /** The whole minutes of a duration are its whole seconds divided by 60,
      both rounded down, for every duration, negative ones included. */
  lemma MinutesOfWholeSeconds(duration: int)
    ensures duration / MicrosPerMinute == (duration / MicrosPerSecond) / 60
  {
    var q := duration / MicrosPerSecond;
    var r := duration % MicrosPerSecond;
    var a := q / 60;
    var b := q % 60;
    assert duration == a * MicrosPerMinute + (b * MicrosPerSecond + r);
    DivUnique(duration, MicrosPerMinute, a, b * MicrosPerSecond + r);
  }

  /** Reading the display back yields exactly the minutes and seconds fields. */
  lemma FormatDurationRoundTrip(duration: int)
    ensures ParseClock(FormatDuration(duration)) == Some(ClockOf(duration))
  {
    var c := ClockOf(duration);
    var s := FormatDuration(duration);
    var m := IntToDecimal(c.minutes);
    var p := PadTwo(c.seconds);
    assert s == m + ":" + p;
    IntToDecimalRoundTrip(c.minutes);
    assert s[..|s| - 3] == m;
    assert s[|s| - 2] == DigitChar(c.seconds / 10) && s[|s| - 1] == DigitChar(c.seconds % 10);
    assert DigitValue(s[|s| - 2]) == c.seconds / 10;
    assert DigitValue(s[|s| - 1]) == c.seconds % 10;
  }

  /** What the display shows is the duration's whole seconds, split as the
      source splits it. */
  lemma FormatDurationShowsWholeSeconds(duration: int)
    ensures ParseClock(FormatDuration(duration)).Some?
    ensures var c := ParseClock(FormatDuration(duration)).value;
      c.seconds < 60 && c.minutes * 60 + c.seconds == duration / MicrosPerSecond
  {
    FormatDurationRoundTrip(duration);
  }

  /** Two durations display alike exactly when they have the same whole seconds. */
  lemma FormatDurationSameDisplay(d1: int, d2: int)
    ensures FormatDuration(d1) == FormatDuration(d2) <==> d1 / MicrosPerSecond == d2 / MicrosPerSecond
  {
    if FormatDuration(d1) == FormatDuration(d2) {
      FormatDurationShowsWholeSeconds(d1);
      FormatDurationShowsWholeSeconds(d2);
    }
    if d1 / MicrosPerSecond == d2 / MicrosPerSecond {
      SameWholeSecondsSameClock(d1, d2);
    }
  }

  lemma SameWholeSecondsSameClock(d1: int, d2: int)
    requires d1 / MicrosPerSecond == d2 / MicrosPerSecond
    ensures ClockOf(d1) == ClockOf(d2)
  {
    var q := d1 / MicrosPerSecond;
    DivUnique(q, 60, ClockOf(d1).minutes, ClockOf(d1).seconds);
    DivUnique(q, 60, ClockOf(d2).minutes, ClockOf(d2).seconds);
  }

  lemma FormatDurationExamples()
    ensures FormatDuration(0) == "0:00"
    ensures FormatDuration(59000000) == "0:59"
    ensures FormatDuration(60000000) == "1:00"
    ensures FormatDuration(3661000000) == "61:01"
    ensures FormatDuration(-1) == "-1:59"
  {
    FormatZero();
    FormatFiftyNineSeconds();
    FormatOneMinute();
    FormatOverAnHour();
    FormatJustBelowZero();
  }

  lemma FormatZero() ensures FormatDuration(0) == "0:00" {}
  lemma FormatFiftyNineSeconds() ensures FormatDuration(59000000) == "0:59" {}
  lemma FormatOneMinute() ensures FormatDuration(60000000) == "1:00" {}
  lemma FormatOverAnHour() ensures FormatDuration(3661000000) == "61:01" {
    assert NatToDecimal(61) == "61";
  }
  lemma FormatJustBelowZero() ensures FormatDuration(-1) == "-1:59" {}

  // ---------------------------------------------------------------------------
  // Text truncation
  // ---------------------------------------------------------------------------

  /** Python's `s[:n]`: the first n characters, or for a negative n all but
      the last -n characters. */
  function PrefixSlice(s: string, n: int): (r: string)
    ensures |r| <= |s| && r == s[..|r|]
    ensures 0 <= n ==> |r| == if n < |s| then n else |s|
    ensures n < 0 ==> |r| == if -n < |s| then |s| + n else 0
  {
    if n >= 0 then
      if n < |s| then s[..n] else s
    else
      if -n < |s| then s[..|s| + n] else []
  }

  /** `limit(text, max_length)`: text that fits is returned unchanged; longer
      text is cut to max_length characters, its trailing whitespace removed,
      and an ellipsis appended. */
  function Limit(text: string, maxLength: int): (r: string)
    ensures |text| <= maxLength ==> r == text
    ensures |text| > maxLength ==> |r| >= 1 && r[|r| - 1] == Ellipsis
    ensures |text| > maxLength ==>
      var p := r[..|r| - 1];
      var cut := PrefixSlice(text, maxLength);
      |p| <= |cut| && p == text[..|p|] && NoTrailingWhitespace(p) && WhitespaceBetween(cut, |p|, |cut|)
    ensures 0 <= maxLength < |text| ==> |r| <= maxLength + 1
  {
    if |text| > maxLength then RStrip(PrefixSlice(text, maxLength)) + [Ellipsis] else text
  }

  /** The truncated result is determined by its properties: any prefix of the
      first max_length characters that has no trailing whitespace and is
      followed there only by whitespace is what Limit keeps. */
  lemma LimitUnique(text: string, maxLength: nat, p: string)
    requires maxLength < |text|
    requires |p| <= maxLength && p == text[..|p|]
    requires NoTrailingWhitespace(p) && WhitespaceBetween(text, |p|, maxLength)
    ensures Limit(text, maxLength) == p + [Ellipsis]
  {
    var cut := text[..maxLength];
    assert p == cut[..|p|];
    assert cut[|p|..] == text[|p|..maxLength];
    RStripUnique(cut, p);
  }

  /** A title or artist as shown: limited to 64 characters, then stripped at
      both ends. */
  function DisplayText(text: string): (r: string)
    ensures |r| <= MaxTextLength + 1
    ensures NoLeadingWhitespace(r) && NoTrailingWhitespace(r)
    ensures |text| <= MaxTextLength ==> r == Strip(text)
    ensures |text| > MaxTextLength ==> r != [] && r[|r| - 1] == Ellipsis
    ensures |text| > MaxTextLength ==> r == Strip(text[..MaxTextLength]) + [Ellipsis]
  {
    var limited := Limit(text, MaxTextLength);
    if |text| > MaxTextLength then
      var p := RStrip(text[..MaxTextLength]);
      assert limited == p + [Ellipsis];
      StripKeepsLastNonWhitespace(limited);
      assert !IsWhitespace(Ellipsis);
      LStripAppend(p, [Ellipsis]);
      Strip(limited)
    else
      Strip(limited)
  }

  // ---------------------------------------------------------------------------
  // Elapsed-time projection
  // ---------------------------------------------------------------------------

  /** The helper's decoded record (JSON `null` is `None` at the call site). */
  datatype PlaybackState = PlaybackState(
    title: string,
    artist: string,
    playing: bool,
    elapsedTimeMicros: int,
    durationMicros: int,
    timestampEpochMicros: int)

  /** `elapsedTimeMicros + playing * (now - timestampEpochMicros)`, with the
      boolean used as 0 or 1. */
  function ProjectedElapsed(state: PlaybackState, now: int): (total: int)
    ensures !state.playing ==> total == state.elapsedTimeMicros
    ensures state.playing ==> total == state.elapsedTimeMicros + (now - state.timestampEpochMicros)
  {
    state.elapsedTimeMicros + (if state.playing then 1 else 0) * (now - state.timestampEpochMicros)
  }

  /** At the moment of the snapshot the projection is the snapshot itself. */
  lemma ProjectionAtSnapshot(state: PlaybackState)
    ensures ProjectedElapsed(state, state.timestampEpochMicros) == state.elapsedTimeMicros
  {
  }

  /** While playing, the projection advances one for one with the clock;
      while paused, it does not move. */
  lemma ProjectionFollowsClock(state: PlaybackState, now: int, later: int)
    ensures state.playing ==> ProjectedElapsed(state, later) - ProjectedElapsed(state, now) == later - now
    ensures !state.playing ==> ProjectedElapsed(state, later) == ProjectedElapsed(state, now)
  {
  }

  // ---------------------------------------------------------------------------
  // Line assembly
  // ---------------------------------------------------------------------------

  /** The start of a line with media: the play icon, two spaces and the two
      times, or the pause icon alone. */
  function Head(state: PlaybackState, now: int): (head: string)
    ensures |head| > 0
    ensures head[0] == if state.playing then PlayingIcon else PausedIcon
  {
    if state.playing then PlayingHead(ProjectedElapsed(state, now), state.durationMicros) else [PausedIcon]
  }

  /** The play icon, two spaces, the elapsed time, the separator and the duration. */
  function PlayingHead(elapsed: int, duration: int): (head: string)
    ensures |head| == 3 + |FormatDuration(elapsed)| + 1 + |FormatDuration(duration)|
    ensures head[..3] == [PlayingIcon] + "  "
    ensures head[3 + |FormatDuration(elapsed)|] == TimeSeparator
    ensures var i := 3 + |FormatDuration(elapsed)|;
      TimeSeparator !in head[..i] && TimeSeparator !in head[i + 1..]
    ensures IsDigit(head[|head| - 1])
  {
    var h, a, b := [PlayingIcon] + "  ", FormatDuration(elapsed), FormatDuration(duration);
    NoSeparatorInClock(elapsed);
    NoSeparatorInClock(duration);
    SeparatorOnce(h, a, b);
    h + a + [TimeSeparator] + b
  }

  lemma NoSeparatorInClock(duration: int)
    ensures TimeSeparator !in FormatDuration(duration)
  {
    FormatDurationAlphabet(duration);
  }

  /** A separator placed between two separator-free strings is the only one. */
  lemma SeparatorOnce(h: string, a: string, b: string)
    requires TimeSeparator !in h && TimeSeparator !in a && TimeSeparator !in b
    ensures var s := h + a + [TimeSeparator] + b;
      var i := |h| + |a|;
      && |s| == i + 1 + |b| && s[..|h|] == h && s[i] == TimeSeparator
      && TimeSeparator !in s[..i] && TimeSeparator !in s[i + 1..]
  {
    var s := h + a + [TimeSeparator] + b;
    assert s[..|h| + |a|] == h + a;
    assert s[|h| + |a| + 1..] == b;
  }

  /** The end of a line with media: title, " – ", artist. */
  function TitleAndArtist(state: PlaybackState): (credits: string)
    ensures |credits| <= 2 * (MaxTextLength + 1) + |TitleArtistSeparator|
  {
    DisplayText(state.title) + TitleArtistSeparator + DisplayText(state.artist)
  }

  /** The one line printed per run, given the decoded helper output and the
      current time in microseconds since the epoch. */
  function StatusLine(data: Option<PlaybackState>, now: int): (line: string)
    ensures |line| > 0
    ensures line[0] == NoMediaIcon <==> data.None?
    ensures line[0] == PausedIcon <==> data.Some? && !data.value.playing
    ensures line[0] == PlayingIcon <==> data.Some? && data.value.playing
  {
    match data
    case None => NoMediaLine
    case Some(state) => Head(state, now) + "  " + TitleAndArtist(state)
  }

  /** With no media the line is exactly "◼ No media". */
  lemma NoMediaStatusLine(now: int)
    ensures StatusLine(None, now) == "\U{25FC} No media"
  {
  }

  /** A paused line carries no time: it is the pause icon and the title and
      artist, whatever the clock, the snapshot, the elapsed time and the
      duration. */
  lemma PausedLineHasNoTimes(state: PlaybackState, other: PlaybackState, now: int, otherNow: int)
    requires !state.playing && !other.playing
    requires state.title == other.title && state.artist == other.artist
    ensures StatusLine(Some(state), now) == StatusLine(Some(other), otherNow)
    ensures StatusLine(Some(state), now) == [PausedIcon] + "  " + TitleAndArtist(state)
  {
  }

  /** A playing line is the play icon and the two times, followed by exactly
      what follows the pause icon in the paused line of the same track. */
  lemma PlayingLineShape(state: PlaybackState, now: int)
    requires state.playing
    ensures StatusLine(Some(state), now)
      == PlayingHead(ProjectedElapsed(state, now), state.durationMicros) + "  " + TitleAndArtist(state)
    ensures StatusLine(Some(state.(playing := false)), now) == [PausedIcon] + "  " + TitleAndArtist(state)
  {
  }

  // ---------------------------------------------------------------------------
  // Reading the times back from a line
  // ---------------------------------------------------------------------------

  /** Position of the first occurrence of c in s. */
  function IndexOf(s: string, c: char): (r: Option<nat>)
    ensures r.Some? ==> r.value < |s| && s[r.value] == c && c !in s[..r.value]
    ensures r.None? ==> c !in s
    decreases |s|
  {
    if s == [] then None
    else if s[0] == c then Some(0)
    else match IndexOf(s[1..], c)
      case Some(i) => Some(i + 1)
      case None => None
  }

  lemma IndexOfFirst(s: string, c: char, k: nat)
    requires k < |s| && s[k] == c && c !in s[..k]
    ensures IndexOf(s, c) == Some(k)
  {
    assert c in s;
    var i := IndexOf(s, c).value;
    assert forall t :: 0 <= t < k ==> s[..k][t] == s[t];
    assert forall t :: 0 <= t < i ==> s[..i][t] == s[t];
  }

  /** The elapsed and total clocks shown in a playing line, read from its
      text: after the play icon and two spaces, a clock, the separator, a
      clock, two spaces. Any other line shows no times. */
  function ReadTimes(line: string): Option<(Clock, Clock)> {
    if |line| < 3 || line[..3] != [PlayingIcon] + "  " then None else ReadClocks(line[3..])
  }

  /** Two clocks joined by the separator, the second followed by two spaces. */
  function ReadClocks(rest: string): Option<(Clock, Clock)> {
      match IndexOf(rest, TimeSeparator)
      case None => None
      case Some(i) =>
        match (ParseClock(rest[..i]), ReadClockBeforeGap(rest[i + 1..]))
        case (Some(elapsed), Some(duration)) => Some((elapsed, duration))
        case _ => None
  }

  /** A clock at the start of s that is followed by two spaces. */
  function ReadClockBeforeGap(s: string): Option<Clock> {
    match IndexOf(s, ':')
    case None => None
    case Some(j) =>
      if |s| < j + 5 || s[j + 3..j + 5] != "  " then None else ParseClock(s[..j + 3])
  }

  /** The first separator after a clock display is the one that follows it. */
  lemma SeparatorAfterClock(duration: int, more: string)
    ensures IndexOf(FormatDuration(duration) + [TimeSeparator] + more, TimeSeparator)
      == Some(|FormatDuration(duration)|)
  {
    var a := FormatDuration(duration);
    var s := a + [TimeSeparator] + more;
    assert s[..|a|] == a;
    FormatDurationAlphabet(duration);
    assert TimeSeparator !in a;
    IndexOfFirst(s, TimeSeparator, |a|);
  }

  /** The first ':' in a clock display is the one before its seconds. */
  lemma ColonInClock(duration: int, more: string)
    ensures IndexOf(FormatDuration(duration) + more, ':') == Some(|FormatDuration(duration)| - 3)
  {
    var b := FormatDuration(duration);
    var s := b + more;
    var j := |b| - 3;
    assert s[..j] == b[..j];
    FormatDurationAlphabet(duration);
    IndexOfFirst(s, ':', j);
  }

  lemma ReadClockBeforeGapOfClock(duration: int, more: string)
    requires |more| >= 2 && more[..2] == "  "
    ensures ReadClockBeforeGap(FormatDuration(duration) + more) == Some(ClockOf(duration))
  {
    var b := FormatDuration(duration);
    var s := b + more;
    ColonInClock(duration, more);
    assert s[|b|..|b| + 2] == more[..2];
    PrefixOfAppend(b, more);
    FormatDurationRoundTrip(duration);
  }

  /** ReadTimes recovers both clocks of a playing line, whatever follows them. */
  lemma ReadPlayingLine(elapsed: int, duration: int, tail: string)
    ensures ReadTimes(PlayingHead(elapsed, duration) + "  " + tail) == Some((ClockOf(elapsed), ClockOf(duration)))
  {
    var a, b := FormatDuration(elapsed), FormatDuration(duration);
    var rest := a + [TimeSeparator] + (b + ("  " + tail));
    var line := PlayingHead(elapsed, duration) + "  " + tail;
    assert line == [PlayingIcon] + "  " + a + [TimeSeparator] + b + "  " + tail;
    PlayingLineSplit(a, b, tail);
    PrefixOfAppend([PlayingIcon] + "  ", rest);
    ReadClocksOfClocks(elapsed, duration, "  " + tail);
  }

  lemma PlayingLineSplit(a: string, b: string, tail: string)
    ensures [PlayingIcon] + "  " + a + [TimeSeparator] + b + "  " + tail
      == ([PlayingIcon] + "  ") + (a + [TimeSeparator] + (b + ("  " + tail)))
  {
  }

  lemma ReadClocksOfClocks(elapsed: int, duration: int, more: string)
    requires |more| >= 2 && more[..2] == "  "
    ensures ReadClocks(FormatDuration(elapsed) + [TimeSeparator] + (FormatDuration(duration) + more))
      == Some((ClockOf(elapsed), ClockOf(duration)))
  {
    var a := FormatDuration(elapsed);
    var after := FormatDuration(duration) + more;
    var rest := a + [TimeSeparator] + after;
    SeparatorAfterClock(elapsed, after);
    assert rest[|a| + 1..] == after && rest[..|a|] == a;
    ReadClockBeforeGapOfClock(duration, more);
    FormatDurationRoundTrip(elapsed);
  }

  /** The times a playing line shows are the projected elapsed time and the
      track duration, each as minutes and seconds. */
  lemma PlayingLineShowsTimes(state: PlaybackState, now: int)
    requires state.playing
    ensures ReadTimes(StatusLine(Some(state), now))
      == Some((ClockOf(ProjectedElapsed(state, now)), ClockOf(state.durationMicros)))
  {
    ReadPlayingLine(ProjectedElapsed(state, now), state.durationMicros, TitleAndArtist(state));
  }

  /** A paused line and the no-media line show no times. */
  lemma OtherLinesShowNoTimes(data: Option<PlaybackState>, now: int)
    requires !(data.Some? && data.value.playing)
    ensures ReadTimes(StatusLine(data, now)) == None
  {
    ReadTimesNeedsPlayIcon(StatusLine(data, now));
  }

  lemma ReadTimesNeedsPlayIcon(line: string)
    requires |line| > 0 && line[0] != PlayingIcon
    ensures ReadTimes(line) == None
  {
    assert |line| >= 3 ==> line[..3][0] == line[0];
  }

  /** The playing example: 10 s elapsed at a snapshot taken 5 s ago, in a
      track of 200 s, whatever the title and artist. */
  lemma PlayingExample(state: PlaybackState, now: int)
    requires state.playing && state.elapsedTimeMicros == 10000000
    requires state.timestampEpochMicros == now - 5000000 && state.durationMicros == 200000000
    ensures var line := StatusLine(Some(state), now);
      var head := "\U{25B6}  0:15\U{FE58}3:20  ";
      |head| <= |line| && line[..|head|] == head
  {
    var line := StatusLine(Some(state), now);
    var head := PlayingHead(ProjectedElapsed(state, now), state.durationMicros) + "  ";
    assert line == head + TitleAndArtist(state) by {
      PlayingLineShape(state, now);
    }
    PrefixOfAppend(head, TitleAndArtist(state));
    PlayingExampleTimes(state, now);
  }

  lemma PlayingExampleTimes(state: PlaybackState, now: int)
    requires state.playing && state.elapsedTimeMicros == 10000000
    requires state.timestampEpochMicros == now - 5000000 && state.durationMicros == 200000000
    ensures PlayingHead(ProjectedElapsed(state, now), state.durationMicros) + "  "
      == "\U{25B6}  0:15\U{FE58}3:20  "
  {
    var e, d := ProjectedElapsed(state, now), state.durationMicros;
    assert e == 15000000 && d == 200000000;
    PlayingExampleHead();
  }

  lemma PrefixOfAppend(a: string, b: string)
    ensures |a| <= |a + b| && (a + b)[..|a|] == a
  {
  }

  lemma PlayingExampleHead()
    ensures PlayingHead(15000000, 200000000) + "  " == "\U{25B6}  0:15\U{FE58}3:20  "
  {
    FormatFifteenSeconds();
    FormatThreeMinutesTwenty();
  }

  lemma FormatFifteenSeconds() ensures FormatDuration(15000000) == "0:15" {}
  lemma FormatThreeMinutesTwenty() ensures FormatDuration(200000000) == "3:20" {}

  /** A title and an artist that fit in 64 characters and carry no surrounding
      whitespace appear in the paused line exactly as given, e.g.
      "⏸  Song – Artist". */
  lemma PausedLineOfPlainText(state: PlaybackState, now: int)
    requires !state.playing
    requires |state.title| <= MaxTextLength && NoLeadingWhitespace(state.title) && NoTrailingWhitespace(state.title)
    requires |state.artist| <= MaxTextLength && NoLeadingWhitespace(state.artist) && NoTrailingWhitespace(state.artist)
    ensures StatusLine(Some(state), now) == [PausedIcon] + "  " + state.title + " \U{2013} " + state.artist
  {
    var credits := TitleAndArtist(state);
    assert credits == state.title + " \U{2013} " + state.artist by {
      PlainTextShownAsIs(state.title);
      PlainTextShownAsIs(state.artist);
    }
    assert StatusLine(Some(state), now) == [PausedIcon] + "  " + credits by {
      PausedLineHasNoTimes(state, state, now, now);
    }
    AppendThree([PausedIcon] + "  ", state.title, " \U{2013} ", state.artist);
  }

  lemma AppendThree(a: string, b: string, c: string, d: string)
    ensures a + (b + c + d) == a + b + c + d
  {
  }

  lemma PlainTextShownAsIs(text: string)
    requires |text| <= MaxTextLength && NoLeadingWhitespace(text) && NoTrailingWhitespace(text)
    ensures DisplayText(text) == text
  {
    StripOfStripped(text);
  }

}
