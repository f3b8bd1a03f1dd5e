/**
 * The three timed effects of the menu (quick countdown, progress demo, spinner),
 * reduced to the frames they write and the delays they sleep.
 */
module Effects {
  import opened Wrappers
  import opened JavaText

  // ---------------------------------------------------------------- countdown

  /** Math.max(1, n): the countdown starts at the parsed value, but never below 1. */
  function CountdownStart(n: int): (s: int)
    ensures s >= 1 && s >= n
    ensures s == n || s == 1
  {
    if n < 1 then 1 else n
  }

  /**
   * quickCountdown on the line it reads: the counts it shows, `s` down to 1, or None
   * when the trimmed line is not a number ("That didn't look like a number").
   */
  method QuickCountdown(line: string) returns (frames: Option<seq<int>>)
    ensures frames.None? <==> ParseInt(Trim(line)).None?
    ensures frames.Some? ==>
      var s := CountdownStart(ParseInt(Trim(line)).value);
      |frames.value| == s && forall k :: 0 <= k < s ==> frames.value[k] == s - k
  {
    var parsed := ParseInt(Trim(line));
    if parsed.None? {
      return None;
    }
    var s := CountdownStart(parsed.value);
    var counts: seq<int> := [];
    var i := s;
    while i >= 1
      invariant 0 <= i <= s
      invariant |counts| == s - i
      invariant forall k :: 0 <= k < |counts| ==> counts[k] == s - k
    {
      counts := counts + [i];
      i := i - 1;
    }
    return Some(counts);
  }

  /** The frames of a countdown strictly decrease, from its start down to exactly 1. */
  lemma CountdownDecreases(frames: seq<int>, s: int)
    requires s >= 1 && |frames| == s && forall k :: 0 <= k < s ==> frames[k] == s - k
    ensures frames[0] == s && frames[|frames| - 1] == 1
    ensures forall k, m :: 0 <= k < m < |frames| ==> frames[k] > frames[m]
  {
  }

  /** " 5 " counts 5, 4, 3, 2, 1. */
  method CountdownFive() returns (frames: Option<seq<int>>)
    ensures frames == Some([5, 4, 3, 2, 1])
  {
    TrimPadded(" ", "5", " ");
    assert " " + "5" + " " == " 5 ";
    assert ParseInt("5") == Some(5);
    frames := QuickCountdown(" 5 ");
    assert frames.value == [5, 4, 3, 2, 1];
  }

  /** A number below 1 still counts once. */
  method CountdownClamped() returns (frames: Option<seq<int>>)
    ensures frames == Some([1])
  {
    TrimPadded([], "-3", []);
    assert [] + "-3" + [] == "-3";
    ParseNegativeDecimal(3);
    assert "-" + Decimal(3) == "-3";
    frames := QuickCountdown("-3");
    assert frames.value == [1];
  }

  /** A word is rejected: no frames at all. */
  method CountdownRejected() returns (frames: Option<seq<int>>)
    ensures frames == None
  {
    TrimPadded([], "five", []);
    assert [] + "five" + [] == "five";
    ParseRejectsNonDigit("five", 0);
    frames := QuickCountdown("five");
  }

  // ---------------------------------------------------------------- progress demo

  /** The progress demo's fixed number of units, and the width of its bar. */
  const Total: int := 30
  const Width: int := 20

  /** Integer percentage shown at unit `i`. */
  function Percent(i: int): (p: int)
    requires 0 <= i <= Total
    ensures 0 <= p <= 100
  {
    i * 100 / Total
  }

  /** Number of filled slots at unit `i`. */
  function Bars(i: int): (b: int)
    requires 0 <= i <= Total
    ensures 0 <= b <= Width
  {
    i * Width / Total
  }

  lemma DivMonotone(x: int, y: int)
    requires 0 <= x <= y
    ensures x / Total <= y / Total
  {
  }

  /** Percentage and filled slots never go down as the demo advances. */
  lemma ProgressMonotone(i: int, j: int)
    requires 0 <= i <= j <= Total
    ensures Percent(i) <= Percent(j) && Bars(i) <= Bars(j)
  {
    DivMonotone(i * 100, j * 100);
    DivMonotone(i * Width, j * Width);
  }

  /** The demo starts empty, is half way at unit 15 and full exactly at the last unit. */
  lemma ProgressMilestones()
    ensures Percent(0) == 0 && Bars(0) == 0
    ensures Percent(15) == 50 && Bars(15) == 10
    ensures Percent(Total) == 100 && Bars(Total) == Width
    ensures forall i :: 0 <= i < Total ==> Percent(i) < 100
  {
  }

  /** `n` copies of `c`. */
  function Repeat(c: char, n: nat): (s: string)
    ensures |s| == n && forall k :: 0 <= k < n ==> s[k] == c
  {
    if n == 0 then [] else Repeat(c, n - 1) + [c]
  }

  /** `s` right-justified in a field of `width` characters, as %<width>d pads it. */
  function PadLeft(s: string, width: nat): (r: string)
    ensures |r| == if |s| < width then width else |s|
    ensures r[|r| - |s|..] == s && forall k :: 0 <= k < |r| - |s| ==> r[k] == ' '
  {
    if |s| < width then Repeat(' ', width - |s|) + s else s
  }

  /**
   * String.format("%3d%%", p) in a locale with ASCII digits: the decimal digits of `p`
   * right-justified in a field of three, then '%'.
   */
  function PercentLabel(p: nat): (s: string)
    ensures |s| == (if |Decimal(p)| < 3 then 3 else |Decimal(p)|) + 1 && s[|s| - 1..] == "%"
    ensures s[|s| - 1 - |Decimal(p)|..|s| - 1] == Decimal(p)
    ensures s[..|s| - 1 - |Decimal(p)|] == Repeat(' ', |s| - 1 - |Decimal(p)|)
  {
    PadLeft(Decimal(p), 3) + "%"
  }

  /** Every percentage the demo can show takes exactly four characters. */
  lemma PercentLabelWidth(p: nat)
    requires p <= 100
    ensures |PercentLabel(p)| == 4 && PercentLabel(p)[3] == '%'
  {
    DecimalLength(p);
  }

  /** The bracketed bar with `bars` filled slots out of `Width`, and the space after it. */
  function Bar(bars: int): (s: string)
    requires 0 <= bars <= Width
    ensures |s| == Width + 3 && s[..1] == "[" && s[Width + 1..] == "] "
  {
    "[" + Repeat('=', bars) + Repeat(' ', Width - bars) + "] "
  }

  /** The bar is 23 characters: '[', the first `bars` slots '=', the rest ' ', then "] ". */
  lemma BarLayout(bars: int)
    requires 0 <= bars <= Width
    ensures |Bar(bars)| == Width + 3
    ensures Bar(bars)[0] == '[' && Bar(bars)[Width + 1] == ']' && Bar(bars)[Width + 2] == ' '
    ensures forall k :: 1 <= k <= Width ==> Bar(bars)[k] == if k <= bars then '=' else ' '
  {
    var filled, empty := Repeat('=', bars), Repeat(' ', Width - bars);
    var bar := Bar(bars);
    assert bar == "[" + filled + empty + "] ";
    forall k | 1 <= k <= Width
      ensures bar[k] == if k <= bars then '=' else ' '
    {
      if k <= bars {
        assert bar[k] == filled[k - 1];
      } else {
        assert bar[k] == empty[k - 1 - bars];
      }
    }
  }

  /** The text of frame `i`: the bar with `Bars(i)` filled slots, then the percentage. */
  function Frame(i: int): (f: string)
    requires 0 <= i <= Total
    ensures |f| == 27 && f[..23] == Bar(Bars(i)) && f[23..] == PercentLabel(Percent(i))
  {
    LineLayout(Bars(i), Percent(i));
    Line(Bars(i), Percent(i))
  }

  /** A frame's text for `bars` filled slots and percentage `p`. */
  function Line(bars: int, p: int): string
    requires 0 <= bars <= Width && 0 <= p <= 100
  {
    Bar(bars) + PercentLabel(p)
  }

  lemma LineLayout(bars: int, p: int)
    requires 0 <= bars <= Width && 0 <= p <= 100
    ensures |Line(bars, p)| == 27
    ensures Line(bars, p)[0] == '[' && Line(bars, p)[21..23] == "] "
    ensures forall k :: 1 <= k <= Width ==> Line(bars, p)[k] == if k <= bars then '=' else ' '
    ensures Line(bars, p)[23..] == PercentLabel(p)
  {
    var bar, text := Bar(bars), PercentLabel(p);
    BarLayout(bars);
    PercentLabelWidth(p);
    var line := Line(bars, p);
    assert line == bar + text;
    forall k | 1 <= k <= Width
      ensures line[k] == if k <= bars then '=' else ' '
    {
      assert line[k] == bar[k];
    }
    assert line[21..23] == "] " by {
      assert line[21] == bar[21] && line[22] == bar[22];
    }
    assert line[23..] == text;
  }

  /**
   * Frame `i` is 27 characters: '[', then `Bars(i)` '=' followed by spaces up to 20
   * slots, then "] " and the right-justified percentage.
   */
  lemma FrameLayout(i: int)
    requires 0 <= i <= Total
    ensures |Frame(i)| == 27
    ensures Frame(i)[0] == '[' && Frame(i)[21..23] == "] "
    ensures forall k :: 1 <= k <= Width ==> Frame(i)[k] == if k <= Bars(i) then '=' else ' '
    ensures Frame(i)[23..] == PercentLabel(Percent(i))
  {
    LineLayout(Bars(i), Percent(i));
  }

  /** The last frame shows the bar with all 20 slots filled, and "100%". */
  lemma FinalFrame()
    ensures Frame(Total) == Line(Width, 100) && PercentLabel(100) == "100%"
  {
    assert Percent(Total) == 100 && Bars(Total) == Width;
    assert Decimal(10) == Decimal(1) + [DigitChar(0)];
  }

  /** Builds frame `i` the way the demo's StringBuilder does. */
  method BuildFrame(i: int) returns (frame: string)
    requires 0 <= i <= Total
    ensures frame == Frame(i)
  {
    var percent := i * 100 / Total;
    var bars := i * 20 / Total;
    var sb := "[";
    for j := 0 to bars
      invariant sb == "[" + Repeat('=', j)
    {
      sb := sb + "=";
    }
    for j := bars to 20
      invariant sb == "[" + Repeat('=', bars) + Repeat(' ', j - bars)
    {
      sb := sb + " ";
    }
    sb := sb + "] ";
    sb := sb + PercentLabel(percent);
    frame := sb;
  }

  /** Milliseconds the demo sleeps after a frame, for the random draw `r` in [0, 120). */
  function ProgressDelay(r: int): (ms: int)
    requires 0 <= r < 120
    ensures 60 <= ms < 180
  {
    60 + r
  }

  /** Appending frame `|frames|` to the frames before it keeps every frame in place. */
  lemma FramesExtend(frames: seq<string>, frame: string)
    requires |frames| <= Total && frame == Frame(|frames|)
    requires forall k :: 0 <= k < |frames| ==> frames[k] == Frame(k)
    ensures forall k :: 0 <= k <= |frames| ==> (frames + [frame])[k] == Frame(k)
  {
  }

  /** Appending the delay for draw `|delays|` keeps every delay in place. */
  lemma DelaysExtend(delays: seq<int>, delay: int, draws: seq<int>)
    requires |delays| < |draws| && delay == 60 + draws[|delays|] && 60 <= delay < 180
    requires forall k :: 0 <= k < |delays| ==> delays[k] == 60 + draws[k] && 60 <= delays[k] < 180
    ensures forall k :: 0 <= k <= |delays| ==> (delays + [delay])[k] == 60 + draws[k] && 60 <= (delays + [delay])[k] < 180
  {
  }

  /**
   * progressDemo: the 31 frames for units 0 to 30 and, given the random draw for
   * each frame, the delay after it.
   */
  method ProgressDemo(draws: seq<int>) returns (frames: seq<string>, delays: seq<int>)
    requires |draws| == Total + 1
    requires forall k :: 0 <= k < |draws| ==> 0 <= draws[k] < 120
    ensures |frames| == Total + 1 && forall i :: 0 <= i <= Total ==> frames[i] == Frame(i)
    ensures |delays| == Total + 1
    ensures forall i :: 0 <= i <= Total ==> delays[i] == 60 + draws[i] && 60 <= delays[i] < 180
  {
    frames, delays := [], [];
    for i := 0 to Total + 1
      invariant |frames| == i && forall k :: 0 <= k < i ==> frames[k] == Frame(k)
      invariant |delays| == i && forall k :: 0 <= k < i ==> delays[k] == 60 + draws[k] && 60 <= delays[k] < 180
    {
      var frame := BuildFrame(i);
      var delay := ProgressDelay(draws[i]);
      FramesExtend(frames, frame);
      DelaysExtend(delays, delay, draws);
      frames, delays := frames + [frame], delays + [delay];
    }
  }

  // ---------------------------------------------------------------- spinner

  /** The spinner's four glyphs, and how many frames it shows. */
  const Glyphs: seq<char> := ['|', '/', '-', '\\']
  const SpinnerLength: nat := 30

  /** spin[i % spin.length]: the glyph of frame `i`, always one of the four. */
  function Glyph(i: nat): (c: char)
    ensures c in Glyphs
  {
    Glyphs[i % |Glyphs|]
  }

  /** The glyphs repeat with period four, in the order |, /, -, \. */
  lemma GlyphCycle(i: nat)
    ensures Glyph(i + 4) == Glyph(i)
    ensures Glyph(4 * i) == '|' && Glyph(4 * i + 1) == '/' && Glyph(4 * i + 2) == '-' && Glyph(4 * i + 3) == '\\'
  {
  }

  /** spinnerDemo: the 30 frames "Working " followed by the frame's glyph. */
  method SpinnerDemo() returns (frames: seq<string>)
    ensures |frames| == SpinnerLength
    ensures forall i :: 0 <= i < SpinnerLength ==> frames[i] == "Working " + [Glyph(i)]
  {
    frames := [];
    for i := 0 to SpinnerLength
      invariant |frames| == i && forall k :: 0 <= k < i ==> frames[k] == "Working " + [Glyph(k)]
    {
      frames := frames + ["Working " + [Glyphs[i % |Glyphs|]]];
    }
  }
}
