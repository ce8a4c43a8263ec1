# Now-playing status line, modelled in Dafny

The xbar plugin `examples/xbar-now-playing.1s.py` of media-control runs the
`media-control get` helper once per tick. It decodes the helper's JSON
answer, which is `null` or a playback record. It then prints one line for the
menu bar:

- `◼ No media` when the helper reports no media (its answer is `null`);
- `⏸  <title> – <artist>` when the track is paused;
- `▶  <elapsed>﹘<duration>  <title> – <artist>` when it is playing.

In the playing line, the elapsed time is projected forward from the helper's
snapshot to the current time.

This project models that computation as pure Dafny functions of two inputs:
the decoded record (an `Option<PlaybackState>`) and the current time in
microseconds. The modules are:

- `Decimal` renders integers the way Python's `f"{n:01d}"` does, with a '-'
  sign and no leading zeros. It also has a reader, `ParseInt`, and the
  rendering is proved to be a bijection onto what the reader accepts.
- `Whitespace` models `str.rstrip()`, `str.lstrip()` and `str.strip()` over
  `IsWhitespace`, which is Python's `str.isspace` character set written out.
  Each strip function is characterised by its contract, and a uniqueness
  lemma shows that contract determines the result.
- `NowPlaying` holds `format` (`FormatDuration`), `limit` (`Limit`), the
  projection (`ProjectedElapsed`) and the line (`StatusLine`). It also has a
  reader, `ReadTimes`, which takes the two clocks back out of a line. The
  reader is built from `ReadClocks`, `ReadClockBeforeGap` and the search
  `IndexOf`. It is the partner used to state what a line shows, and is not
  part of the script.

Python's `//` and `%` with a positive divisor round toward negative infinity.
Dafny's Euclidean `/` and `%` give the same results there, so negative
durations are modelled exactly: `format(-1)` is `"-1:59"`.

Two facts about the code are worth stating:

- The separator between the two times is U+FE58 SMALL EM DASH, as line 37
  writes it.
- The record's integer fields may be negative, because nothing in the
  script checks them. The model does not assume otherwise.

## Model

| member | source | states |
|---|---|---|
| `Decimal.NatToDecimal` | examples/xbar-now-playing.1s.py:11 | the digits of a natural number are non-empty, all decimal digits, and begin with '0' exactly when the number is 0 |
| `Decimal.IntToDecimal` | examples/xbar-now-playing.1s.py:11 | the rendering of `minutes` starts with '-' exactly when the value is negative, and is otherwise all digits |
| `Decimal.IntToDecimalRoundTrip` | examples/xbar-now-playing.1s.py:11 | reading the rendered integer back gives the same integer |
| `Decimal.ParseIntIsCanonical` | examples/xbar-now-playing.1s.py:11 | every string the reader accepts is exactly the rendering of the value it reads, so the rendering is one-to-one and canonical |
| `Whitespace.RStrip` | examples/xbar-now-playing.1s.py:16 | `rstrip()` returns a prefix with no trailing whitespace, and everything it removed is whitespace |
| `Whitespace.RStripUnique` | examples/xbar-now-playing.1s.py:16 | any prefix with no trailing whitespace that is followed only by whitespace is exactly what `rstrip()` returns |
| `Whitespace.LStrip` | examples/xbar-now-playing.1s.py:42-44 | the leading half of `strip()` returns a suffix with no leading whitespace, and everything it removed is whitespace |
| `Whitespace.LStripUnique` | examples/xbar-now-playing.1s.py:42-44 | any suffix with no leading whitespace that is preceded only by whitespace is exactly what the left strip returns |
| `Whitespace.Strip` | examples/xbar-now-playing.1s.py:42-44 | `strip()` returns a slice of the text with no whitespace at either end, and only whitespace lies before and after that slice |
| `Whitespace.StripUnique` | examples/xbar-now-playing.1s.py:42-44 | any slice with no whitespace at either end and only whitespace around it is exactly what `strip()` returns |
| `Whitespace.StripOfStripped` | examples/xbar-now-playing.1s.py:42-44 | text with no surrounding whitespace is unchanged by `strip()` |
| `Whitespace.StripIdempotent` | examples/xbar-now-playing.1s.py:42-44 | stripping twice is the same as stripping once |
| `Whitespace.StripKeepsLastNonWhitespace` | examples/xbar-now-playing.1s.py:16 | text ending in a non-whitespace character, such as the ellipsis `limit` appends, keeps that last character under `strip()` |
| `NowPlaying.PadTwo` | examples/xbar-now-playing.1s.py:11 | `{seconds:02d}` of a value below 100 is exactly its tens digit followed by its units digit |
| `NowPlaying.FormatDuration` | examples/xbar-now-playing.1s.py:8-11 | the display ends in ':' and then two digits, and the first of those is at most '5' |
| `NowPlaying.FormatDurationAlphabet` | examples/xbar-now-playing.1s.py:11 | a display holds only digits, '-' and ':', and its only ':' is the one before the seconds |
| `NowPlaying.ClockOf` | examples/xbar-now-playing.1s.py:9-10 | for every integer duration, negative ones included, `seconds` is in 0..59 and `minutes * 60 + seconds == duration // 1000000` |
| `NowPlaying.MinutesOfWholeSeconds` | examples/xbar-now-playing.1s.py:9-10 | line 9's minutes equal line 10's whole seconds floor-divided by 60, for every integer duration |
| `NowPlaying.FormatDurationRoundTrip` | examples/xbar-now-playing.1s.py:8-11 | reading a display back yields exactly `(duration // 60000000, (duration // 1000000) % 60)` |
| `NowPlaying.FormatDurationShowsWholeSeconds` | examples/xbar-now-playing.1s.py:8-11 | the minutes and seconds shown always make up the duration's whole seconds, with seconds below 60 |
| `NowPlaying.FormatDurationSameDisplay` | examples/xbar-now-playing.1s.py:8-11 | two durations give the same display exactly when they have the same whole seconds |
| `NowPlaying.FormatDurationExamples` | examples/xbar-now-playing.1s.py:8-11 | 0 gives "0:00", 59000000 gives "0:59", 60000000 gives "1:00", 3661000000 gives "61:01", and -1 gives "-1:59" |
| `NowPlaying.PrefixSlice` | examples/xbar-now-playing.1s.py:16 | `text[:n]` is a prefix of length min(n, len) for n >= 0, and drops the last -n characters for n < 0 |
| `NowPlaying.Limit` | examples/xbar-now-playing.1s.py:14-17 | text that fits is returned unchanged; longer text becomes p + "…", where p is a prefix of `text[:max_length]` with no trailing whitespace and only whitespace follows p within the cut; for max_length >= 0 the result has at most max_length + 1 characters |
| `NowPlaying.LimitUnique` | examples/xbar-now-playing.1s.py:16 | for truncated text, any prefix of the first max_length characters that has no trailing whitespace and is followed there only by whitespace is exactly what `limit` keeps before the ellipsis |
| `NowPlaying.DisplayText` | examples/xbar-now-playing.1s.py:42-44 | a shown title or artist has at most 65 characters and no surrounding whitespace; text of at most 64 characters is just stripped; longer text shows its first 64 characters stripped at both ends, followed by the ellipsis |
| `NowPlaying.PlainTextShownAsIs` | examples/xbar-now-playing.1s.py:42-44 | a title or artist of at most 64 characters with no surrounding whitespace is shown exactly as given |
| `NowPlaying.ProjectedElapsed` | examples/xbar-now-playing.1s.py:31-33 | paused: the total is `elapsedTimeMicros`, whatever the time; playing: it is `elapsedTimeMicros + (now - timestampEpochMicros)` |
| `NowPlaying.ProjectionAtSnapshot` | examples/xbar-now-playing.1s.py:32-33 | at the snapshot's own timestamp the projection equals the snapshot's elapsed time |
| `NowPlaying.ProjectionFollowsClock` | examples/xbar-now-playing.1s.py:31-33 | while playing the projection advances one for one with the clock; while paused it does not move |
| `NowPlaying.Head` | examples/xbar-now-playing.1s.py:36-40 | the line with media starts with the play icon when playing and the pause icon otherwise |
| `NowPlaying.PlayingHead` | examples/xbar-now-playing.1s.py:37 | the playing head is "▶" and two spaces, the elapsed display, one U+FE58 that occurs nowhere else in it, and the duration display ending in a digit |
| `NowPlaying.ReadPlayingLine` | examples/xbar-now-playing.1s.py:37 | reading the playing head back, followed by two spaces and any text, gives both clocks shown in it: those of the elapsed time and the duration |
| `NowPlaying.TitleAndArtist` | examples/xbar-now-playing.1s.py:41-44 | the title – artist part is at most 133 characters: two shown texts of at most 65 and the three-character separator |
| `NowPlaying.StatusLine` | examples/xbar-now-playing.1s.py:28-45 | the first character is '◼' exactly when there is no media, '⏸' exactly when the track is paused, and '▶' exactly when it is playing |
| `NowPlaying.NoMediaStatusLine` | examples/xbar-now-playing.1s.py:28-29 | with no media the line is exactly "◼ No media" |
| `NowPlaying.PausedLineHasNoTimes` | examples/xbar-now-playing.1s.py:36-44 | the paused line is "⏸", two spaces, then title – artist; it is the same whatever the clock, elapsed time, duration and timestamp |
| `NowPlaying.PlayingLineShape` | examples/xbar-now-playing.1s.py:36-44 | the playing line is "▶  ", the projected time, U+FE58 and the duration, followed by exactly the text that follows the pause icon in the paused line |
| `NowPlaying.PausedLineOfPlainText` | examples/xbar-now-playing.1s.py:36-44 | a paused track whose title and artist fit and carry no surrounding whitespace gives "⏸  " + title + " – " + artist |
| `NowPlaying.PlayingLineShowsTimes` | examples/xbar-now-playing.1s.py:37 | reading a playing line gives back the projected elapsed time and the duration, each as (minutes, seconds) |
| `NowPlaying.OtherLinesShowNoTimes` | examples/xbar-now-playing.1s.py:28-40 | neither the paused line nor the no-media line shows any time |
| `NowPlaying.PlayingExample` | examples/xbar-now-playing.1s.py:31-41 | 10 s elapsed at a snapshot 5 s old, in a 200 s track, gives a line starting "▶  0:15﹘3:20  " |

## Left out

- The `media-control get` subprocess call (lines 20-26), with its exception
  handler, error printout and `exit(1)`. This is process I/O against an
  external binary.
- `json.loads` (line 27). Its result is an input of type `Option<PlaybackState>`,
  which holds only records with all six keys: a boolean `playing` and
  integer times. Other records are not representable and are not modelled.
  Some of them crash the script, such as a missing title or artist, or
  non-integer times while playing. Others print a line, such as a paused
  record with no `durationMicros`, since line 37 is evaluated only while
  playing, or an integer `playing`, which line 33 multiplies in.
- `time.time()` and the conversion of a float to integer microseconds (line
  31). The current time is an integer parameter, `now`.
- `print` (lines 29, 35). The model returns the line as a string.
- The `icon` variable (line 34), which is computed but never used.
- Python strings may hold lone surrogate code points. Dafny's `char` is a
  Unicode scalar value, so such titles cannot be represented.
- `Whitespace.IsWhitespace` lists the characters Python's `str.isspace` accepts
  as of current CPython. The model is exact only relative to that list.
- NowPlaying.TitleAndArtist: its own contract gives only the length bound.
  What each half shows is stated by `DisplayText`, and how the halves join
  the line is stated by `PausedLineHasNoTimes` and `PausedLineOfPlainText`.
