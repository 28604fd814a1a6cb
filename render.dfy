/** The progress fields of `cereja/display.py` (and their copies in
    `lab/console.py`): each state turns the progress metrics into a short
    text fragment, either its in-progress `display` form or its final `done`
    form, and a progress line is those fragments joined with " - ". */
module Render {
  import opened Text
  import opened Errors
  import opened Utils

  /** The state singletons a progress line can hold. Python compares states
      by identity and each class has one instance, so a constructor here
      stands for that instance. */
  datatype StateKind = Loading | Awaiting | Bar | Percent | Time

  /** The keyword arguments every `display`/`done` call receives. */
  datatype Metrics = Metrics(current: real, maxValue: real, percent: real, timeIt: real, nTimes: int)

  /** The time field reads the wall clock through helpers that are not part
      of this model, so it is a function supplied from outside: it maps
      (rendering `done`?, metrics) to the fragment. */
  type TimeRenderer = (bool, Metrics) -> string

  const Brackets: set<char> := {'[', ']'}

  // ---------------------------------------------------------------------------
  // Loading and Awaiting
  // ---------------------------------------------------------------------------

  /** Loading's `display`: phase `n_times % 3` shows the first phase + 1 dots,
      padded with spaces to width 3, between brackets. */
  function LoadingDisplay(nTimes: int): (r: string)
    ensures |r| == 5 && r[0] == '[' && r[4] == ']'
    ensures forall i :: 1 <= i <= 3 ==> r[i] == if i <= nTimes % 3 + 1 then '.' else ' '
  {
    "[" + Fill(Repeat('.', nTimes % 3 + 1), 3) + "]"
  }

  /** Loading's `done`: the field full of dots, whatever the arguments
      (`nTimes` stands for them; `done` reads none of them). */
  function LoadingDone(nTimes: int): (r: string)
    ensures r == "[...]"
  {
    "[" + Repeat('.', 3) + "]"
  }

  /** The animation repeats every three calls. */
  lemma LoadingPeriodic(n: int)
    ensures LoadingDisplay(n + 3) == LoadingDisplay(n)
  {
    assert (n + 3) % 3 == n % 3;
  }

  /** The last phase of the animation looks exactly like the finished field,
      and no other phase does. */
  lemma LoadingLooksDoneIff(n: int)
    ensures LoadingDisplay(n) == LoadingDone(n) <==> n % 3 == 2
  {
    var r := LoadingDisplay(n);
    if n % 3 != 2 {
      assert r[3] == ' ';
    }
  }

  lemma {:induction false} StripBracketed(inner: string)
    requires |inner| >= 1 && inner[0] !in Brackets && inner[|inner| - 1] !in Brackets
    ensures Strip("[" + inner + "]", Brackets) == inner
  {
    var s := "[" + inner + "]";
    var l := StripLeft(s, Brackets);
    assert s[1..] == inner + "]";
    assert StripLeft(s[1..], Brackets) == inner + "]";
    assert l == inner + "]";
    assert (inner + "]")[..|inner|] == inner;
    assert StripRight(inner + "]", Brackets) == StripRight(inner, Brackets);
  }

  /** Awaiting's `display`: the word "Awaiting" followed by Loading's field
      with its brackets stripped. */
  function AwaitingDisplay(nTimes: int): (r: string)
    ensures r == "Awaiting" + LoadingDisplay(nTimes)[1..4]
  {
    var loading := LoadingDisplay(nTimes);
    assert loading == "[" + loading[1..4] + "]";
    StripBracketed(loading[1..4]);
    "Awaiting" + Strip(loading, Brackets)
  }

  /** Awaiting's `done`: Loading's finished field without brackets, then
      " Done!". */
  function AwaitingDone(nTimes: int): (r: string)
    ensures r == "Awaiting" + LoadingDone(nTimes)[1..4] + " Done!"
  {
    var loading := LoadingDone(nTimes);
    assert loading == "[" + loading[1..4] + "]";
    StripBracketed(loading[1..4]);
    "Awaiting" + Strip(loading, Brackets) + " Done!"
  }

  // ---------------------------------------------------------------------------
  // Bar
  // ---------------------------------------------------------------------------

  const BarSize := 30

  /** Python's `int(x)` on a float: truncation toward zero. */
  function Trunc(x: real): (r: int)
    ensures 0.0 <= x ==> r >= 0 && r as real <= x < r as real + 1.0
    ensures x < 0.0 ==> r <= 0 && r as real - 1.0 < x <= r as real
  {
    if x >= 0.0 then x.Floor else -((-x).Floor)
  }

  lemma TruncMonotone(x: real, y: real)
    requires x <= y
    ensures Trunc(x) <= Trunc(y)
  {
  }

  /** The number of `=` the bar shows: `int(proportional(percent, 30))`. */
  function BarLevel(percent: real): int {
    Trunc(Proportional(percent, BarSize as real))
  }

  /** Bar's `display`: the filled part, the arrow, then TWO spaces for each
      unit left (so the field narrows as it fills). */
  function BarDisplay(percent: real): string {
    ArrowBar(BarLevel(percent))
  }

  /** Bar's `done`: the field full of `=`, without the arrow. */
  function BarDone(): string {
    "[" + Repeat('=', BarSize) + "]"
  }

  function Clamp0(k: int): nat {
    if k < 0 then 0 else k
  }

  /** Bar's `display` shows `int(0.3 * percent)` (at least 0) `=` signs, then
      exactly one arrow, then two spaces per unit of the 29 - k left. */
  lemma BarDisplayShape(percent: real)
    ensures var k := BarLevel(percent);
            var r := BarDisplay(percent);
            && |r| == 3 + Clamp0(k) + 2 * Clamp0(BarSize - 1 - k)
            && r[0] == '[' && r[|r| - 1] == ']'
            && (forall i :: 1 <= i <= Clamp0(k) ==> r[i] == '=')
            && r[Clamp0(k) + 1] == '>'
            && Count(r, '=') == Clamp0(k)
            && Count(r, '>') == 1
            && Count(r, ' ') == 2 * Clamp0(BarSize - 1 - k)
  {
    ArrowBarShape(BarLevel(percent));
  }

  /** The in-progress bar with `k` units filled. */
  function ArrowBar(k: int): string {
    "[" + Repeat('=', k) + ">" + Repeat(' ', 2 * (BarSize - k - 1)) + "]"
  }

  lemma ArrowBarShape(k: int)
    ensures var r := ArrowBar(k);
            && |r| == 3 + Clamp0(k) + 2 * Clamp0(BarSize - 1 - k)
            && r[0] == '[' && r[|r| - 1] == ']'
            && (forall i :: 1 <= i <= Clamp0(k) ==> r[i] == '=')
            && r[Clamp0(k) + 1] == '>'
            && Count(r, '=') == Clamp0(k)
            && Count(r, '>') == 1
            && Count(r, ' ') == 2 * Clamp0(BarSize - 1 - k)
  {
    ArrowBarLayout(k);
    ArrowBarCounts(k);
  }

  lemma ArrowBarLayout(k: int)
    ensures var r := ArrowBar(k);
            && |r| == 3 + Clamp0(k) + 2 * Clamp0(BarSize - 1 - k)
            && r[0] == '[' && r[|r| - 1] == ']'
            && (forall i :: 1 <= i <= Clamp0(k) ==> r[i] == '=')
            && r[Clamp0(k) + 1] == '>'
  {
    var eq := Repeat('=', k);
    var sp := Repeat(' ', 2 * (BarSize - k - 1));
    var r := ArrowBar(k);
    assert r == "[" + eq + ">" + sp + "]";
    assert r[Clamp0(k) + 1] == '>' by {
      assert ("[" + eq + ">")[Clamp0(k) + 1] == '>';
    }
    forall i | 1 <= i <= Clamp0(k) ensures r[i] == '=' {
      assert r[i] == eq[i - 1];
    }
  }

  lemma ArrowBarCounts(k: int)
    ensures var r := ArrowBar(k);
            && Count(r, '=') == Clamp0(k)
            && Count(r, '>') == 1
            && Count(r, ' ') == 2 * Clamp0(BarSize - 1 - k)
  {
    var eq := Repeat('=', k);
    var sp := Repeat(' ', 2 * (BarSize - k - 1));
    BarPartsCount(eq, sp, '=');
    BarPartsCount(eq, sp, '>');
    BarPartsCount(eq, sp, ' ');
    CountRepeat('=', k, '=');
    CountRepeat('=', k, '>');
    CountRepeat('=', k, ' ');
    CountRepeat(' ', 2 * (BarSize - k - 1), '=');
    CountRepeat(' ', 2 * (BarSize - k - 1), '>');
    CountRepeat(' ', 2 * (BarSize - k - 1), ' ');
  }

  lemma BarPartsCount(eq: string, sp: string, c: char)
    ensures Count("[" + eq + ">" + sp + "]", c) == Count("[", c) + Count(eq, c) + Count(">", c) + Count(sp, c) + Count("]", c)
  {
    CountAppend("[", eq, c);
    CountAppend("[" + eq, ">", c);
    CountAppend("[" + eq + ">", sp, c);
    CountAppend("[" + eq + ">" + sp, "]", c);
  }

  lemma {:induction false} FullBarShape(n: nat)
    ensures var r := "[" + Repeat('=', n) + "]";
            |r| == n + 2 && Count(r, '=') == n && Count(r, '>') == 0 &&
            r[0] == '[' && r[n + 1] == ']' && forall i :: 1 <= i <= n ==> r[i] == '='
  {
    var eq := Repeat('=', n);
    var r := "[" + eq + "]";
    CountAppend("[", eq, '=');
    CountAppend("[" + eq, "]", '=');
    CountAppend("[", eq, '>');
    CountAppend("[" + eq, "]", '>');
    CountRepeat('=', n, '=');
    CountRepeat('=', n, '>');
    assert forall i :: 1 <= i <= n ==> r[i] == eq[i - 1];
  }

  /** Bar's `done` is 30 `=` between brackets, with no arrow. */
  lemma BarDoneShape()
    ensures var r := BarDone();
            |r| == BarSize + 2 && Count(r, '=') == BarSize && Count(r, '>') == 0 &&
            r[0] == '[' && r[BarSize + 1] == ']' && forall i :: 1 <= i <= BarSize ==> r[i] == '='
  {
    FullBarShape(BarSize);
  }

  /** No percentage makes the in-progress bar look finished: it always
      carries the arrow. */
  lemma BarDisplayNeverDone(percent: real)
    ensures BarDisplay(percent) != BarDone()
  {
    BarDisplayShape(percent);
    BarDoneShape();
  }

  /** A larger percentage never shows fewer `=`. */
  lemma BarMonotone(p: real, q: real)
    requires p <= q
    ensures Count(BarDisplay(p), '=') <= Count(BarDisplay(q), '=')
  {
    BarDisplayShape(p);
    BarDisplayShape(q);
    TruncMonotone(Proportional(p, BarSize as real), Proportional(q, BarSize as real));
  }

  // ---------------------------------------------------------------------------
  // Percent
  // ---------------------------------------------------------------------------

  /** Rounding to the nearest integer, ties to even, as `format` rounds. */
  function RoundHalfEven(x: real): (r: int)
    ensures x - 0.5 <= r as real <= x + 0.5
    ensures x - x.Floor as real == 0.5 ==> r % 2 == 0
  {
    var f := x.Floor;
    var d := x - f as real;
    if d < 0.5 then f
    else if d > 0.5 then f + 1
    else if f % 2 == 0 then f
    else f + 1
  }

  /** Two decimal digits, with a leading zero. */
  function TwoDigits(n: nat): (s: string)
    requires n < 100
    ensures |s| == 2 && AllDigits(s) && DigitsValue(s) == n
  {
    var s := [DigitChar(n / 10), DigitChar(n % 10)];
    assert s[..1] == [DigitChar(n / 10)] && s[..1][..0] == [];
    assert DigitsValue(s[..1]) == n / 10;
    s
  }

  /** `f"{x:.2f}"` for a value of `h` hundredths. */
  function DecimalText(h: int): string {
    var a := if h < 0 then -h else h;
    (if h < 0 then "-" else "") + NatToString(a / 100) + "." + TwoDigits(a % 100)
  }

  /** Percent's text for `h` hundredths: zeros in front up to six characters
      before the `%`. */
  function PercentText(h: int): string {
    var value := DecimalText(h);
    Repeat('0', 6 - |value|) + value + "%"
  }

  /** Percent's `display`: the percentage to two decimals. */
  function PercentDisplay(percent: real): string {
    PercentText(RoundHalfEven(percent * 100.0))
  }

  /** Percent's `done`: `f"{100:.2f}%"`. */
  function PercentDone(): (r: string)
    ensures r == "100.00%"
  {
    NatToStringValue(100);
    DecimalText(10000) + "%"
  }

  /** The finished field reads exactly what the display shows at 100%. */
  lemma PercentDoneIsFull()
    ensures PercentDone() == PercentDisplay(100.0)
  {
    assert RoundHalfEven(100.0 * 100.0) == 10000;
  }

  /** Reads a Percent field back into hundredths: digits, a dot, two digits
      and `%`. */
  function ParsePercent(s: string): Option<int> {
    if |s| < 5 || s[|s| - 1] != '%' || s[|s| - 4] != '.' then None
    else ParseHundredths(s[..|s| - 4], s[|s| - 3..|s| - 1])
  }

  /** The hundredths written as integer digits `ip` and two decimals `fp`. */
  function ParseHundredths(ip: string, fp: string): Option<int> {
    if |ip| >= 1 && AllDigits(ip) && AllDigits(fp) then Some(DigitsValue(ip) * 100 + DigitsValue(fp))
    else None
  }

  lemma {:induction false} LeadingZeros(z: nat, x: string)
    requires AllDigits(x)
    ensures AllDigits(Repeat('0', z) + x)
    ensures DigitsValue(Repeat('0', z) + x) == DigitsValue(x)
    decreases |x|
  {
    var zs := Repeat('0', z);
    if |x| == 0 {
      assert zs + x == zs;
      AllZerosValue(zs);
    } else {
      var init := x[..|x| - 1];
      LeadingZeros(z, init);
      assert (zs + x)[..|zs + x| - 1] == zs + init;
    }
  }

  lemma {:induction false} AllZerosValue(s: string)
    requires forall i :: 0 <= i < |s| ==> s[i] == '0'
    ensures AllDigits(s) && DigitsValue(s) == 0
    decreases |s|
  {
    if |s| > 0 {
      AllZerosValue(s[..|s| - 1]);
    }
  }

  lemma ParsePercentOf(ip: string, t: string)
    requires |ip| >= 1 && AllDigits(ip) && |t| == 2 && AllDigits(t)
    ensures ParsePercent(ip + "." + t + "%") == ParseHundredths(ip, t)
  {
    var s := ip + "." + t + "%";
    assert |s| == |ip| + 4;
    assert s[|s| - 1] == '%' && s[|s| - 4] == '.';
    assert s[..|s| - 4] == ip;
    assert s[|s| - 3..|s| - 1] == t;
  }

  /** The number of zeros Percent puts in front of `h` hundredths. */
  function PercentZeros(h: nat): nat {
    var w := |DecimalText(h)|;
    if 6 - w < 0 then 0 else 6 - w
  }

  lemma PercentTextParts(h: nat)
    ensures PercentText(h) == (Repeat('0', PercentZeros(h)) + NatToString(h / 100)) + "." + TwoDigits(h % 100) + "%"
  {
    assert DecimalText(h) == NatToString(h / 100) + "." + TwoDigits(h % 100);
  }

  /** For a non-negative percentage the field reads back as the same number
      of hundredths. */
  lemma PercentRoundTrip(h: nat)
    ensures ParsePercent(PercentText(h)) == Some(h)
  {
    var ip := Repeat('0', PercentZeros(h)) + NatToString(h / 100);
    PercentTextParts(h);
    LeadingZeros(PercentZeros(h), NatToString(h / 100));
    ParsePercentOf(ip, TwoDigits(h % 100));
    NatToStringValue(h / 100);
  }

  lemma {:induction false} NatToStringShort(n: nat, width: nat)
    requires n < Pow10(width)
    ensures |NatToString(n)| <= if width == 0 then 1 else width
  {
    if n >= 10 {
      assert width >= 2;
      NatToStringShort(n / 10, width - 1);
    }
  }

  function Pow10(k: nat): (p: nat)
    ensures p >= 1
  {
    if k == 0 then 1 else 10 * Pow10(k - 1)
  }

  /** Below 1000% the field always has the same width: six characters and
      the `%`. */
  lemma PercentFixedWidth(h: nat)
    requires h < 100000
    ensures |PercentText(h)| == 7
  {
    assert Pow10(3) == 1000;
    NatToStringShort(h / 100, 3);
  }

  // ---------------------------------------------------------------------------
  // One fragment per state, and the composed line
  // ---------------------------------------------------------------------------

  /** `percent(for_value, max_value)`: the share of the maximum, in percent
      (0 when the maximum is 0). */
  function PercentOf(value: real, maxValue: real): real {
    if maxValue == 0.0 then 0.0 else value / maxValue * 100.0
  }

  /** The share scales back to the value: `percent * max == value * 100`,
      and the share of a zero maximum is 0. */
  lemma PercentOfScales(value: real, maxValue: real)
    ensures maxValue != 0.0 ==> PercentOf(value, maxValue) * maxValue == value * 100.0
    ensures maxValue == 0.0 ==> PercentOf(value, maxValue) == 0.0
  {
  }

  /** `proportional` undoes `percent`: that share of the maximum is the value. */
  lemma ProportionalUndoesPercent(value: real, maxValue: real)
    requires maxValue != 0.0
    ensures Proportional(maxValue, PercentOf(value, maxValue)) == value
  {
  }

  /** The completion rule of `_states_view`: a value one below the maximum
      already counts as finished. */
  predicate IsComplete(current: real, maxValue: real) {
    current >= maxValue - 1.0
  }

  /** One state's `done` or `display` fragment. */
  function RenderState(k: StateKind, m: Metrics, done: bool, time: TimeRenderer): string {
    match k
    case Loading => if done then LoadingDone(m.nTimes) else LoadingDisplay(m.nTimes)
    case Awaiting => if done then AwaitingDone(m.nTimes) else AwaitingDisplay(m.nTimes)
    case Bar => if done then BarDone() else BarDisplay(m.percent)
    case Percent => if done then PercentDone() else PercentDisplay(m.percent)
    case Time => time(done, m)
  }

  /** Every state's fragment, in the order of the states. */
  function RenderAll(states: seq<StateKind>, m: Metrics, done: bool, time: TimeRenderer): (r: seq<string>)
    ensures |r| == |states| && forall i :: 0 <= i < |states| ==> r[i] == RenderState(states[i], m, done, time)
  {
    seq(|states|, i requires 0 <= i < |states| => RenderState(states[i], m, done, time))
  }

  const Separator := " - "

  const CheckMark: char := '\U{2705}'

  /** The marker appended to a finished line. */
  function DoneMarker(): string {
    "Done! " + [CheckMark]
  }

  /** The fragments of a line: every state's `done` form and the marker when
      the value is complete, every state's `display` form otherwise. */
  function LineFields(states: seq<StateKind>, m: Metrics, time: TimeRenderer): seq<string> {
    var done := IsComplete(m.current, m.maxValue);
    RenderAll(states, m, done, time) + (if done then [DoneMarker()] else [])
  }

  /** The text `_states_view` returns. */
  function ComposeLine(states: seq<StateKind>, m: Metrics, time: TimeRenderer): string {
    JoinWith(LineFields(states, m, time), Separator)
  }

  /** A fragment with no space directly followed by a dash cannot hide a
      separator, even next to one. */
  predicate NoSpaceDash(f: string) {
    forall i :: 0 <= i < |f| - 1 ==> !(f[i] == ' ' && f[i + 1] == '-')
  }

  lemma {:induction false} SplitAfterField(f: string, t: string)
    requires NoSpaceDash(f)
    ensures SplitSep(f + Separator + t, Separator) == [f] + SplitSep(t, Separator)
    decreases |f|
  {
    var s := f + Separator + t;
    if |f| == 0 {
      assert s == Separator + t;
      assert s[..3] == Separator;
      assert s[3..] == t;
    } else {
      assert s[..3] != Separator by {
        if f[0] != ' ' {
          assert s[..3][0] == f[0];
        } else if |f| >= 2 {
          assert s[..3][1] == f[1] && f[1] != '-';
        } else {
          assert s[..3][1] == ' ';
        }
      }
      assert s[1..] == f[1..] + Separator + t;
      SplitAfterField(f[1..], t);
      assert [f[0]] + f[1..] == f;
    }
  }

  lemma {:induction false} SplitLastField(f: string)
    requires NoSpaceDash(f)
    ensures SplitSep(f, Separator) == [f]
    decreases |f|
  {
    if |f| >= 3 {
      assert f[..3] != Separator by {
        if f[0] == ' ' { assert f[1] != '-'; }
      }
      SplitLastField(f[1..]);
      assert [f[0]] + f[1..] == f;
    }
  }

  /** Joining clean fragments with " - " and splitting the line on " - "
      gives the fragments back, in order. */
  lemma {:induction false} SplitJoined(parts: seq<string>)
    requires |parts| >= 1
    requires forall i :: 0 <= i < |parts| ==> NoSpaceDash(parts[i])
    ensures SplitSep(JoinWith(parts, Separator), Separator) == parts
  {
    if |parts| == 1 {
      SplitLastField(parts[0]);
    } else {
      SplitJoined(parts[1..]);
      SplitAfterField(parts[0], JoinWith(parts[1..], Separator));
    }
  }

  lemma NoDashClean(f: string)
    requires '-' !in f
    ensures NoSpaceDash(f)
  {
    forall i | 0 <= i < |f| - 1 ensures !(f[i] == ' ' && f[i + 1] == '-') {
      assert f[i + 1] in f;
    }
  }

  lemma NoSpaceClean(f: string)
    requires ' ' !in f
    ensures NoSpaceDash(f)
  {
    forall i | 0 <= i < |f| - 1 ensures !(f[i] == ' ' && f[i + 1] == '-') {
      assert f[i] in f;
    }
  }

  lemma RepeatOnly(c: char, n: int, x: char)
    requires x != c
    ensures x !in Repeat(c, n)
  {
  }

  lemma DigitsOnly(s: string, x: char)
    requires AllDigits(s) && !IsDigit(x)
    ensures x !in s
  {
  }

  lemma LoadingClean(n: int, done: bool)
    ensures NoSpaceDash(if done then LoadingDone(n) else LoadingDisplay(n))
  {
    var r := if done then LoadingDone(n) else LoadingDisplay(n);
    assert forall i :: 0 <= i < |r| ==> r[i] != '-';
    NoDashClean(r);
  }

  lemma AwaitingClean(n: int, done: bool)
    ensures NoSpaceDash(if done then AwaitingDone(n) else AwaitingDisplay(n))
  {
    if done {
      AwaitingDoneClean(n);
    } else {
      AwaitingDisplayClean(n);
    }
  }

  lemma AwaitingDoneClean(n: int)
    ensures NoSpaceDash(AwaitingDone(n))
  {
    var loading := LoadingDone(n);
    var inner := loading[1..4];
    assert '-' !in loading;
    assert forall i :: 0 <= i < |inner| ==> inner[i] in loading;
    NoDashClean("Awaiting" + inner + " Done!");
  }

  lemma AwaitingDisplayClean(n: int)
    ensures NoSpaceDash(AwaitingDisplay(n))
  {
    var inner := LoadingDisplay(n)[1..4];
    var r := "Awaiting" + inner;
    assert forall i :: 0 <= i < |r| ==> r[i] != '-' by {
      forall i | 0 <= i < |r| ensures r[i] != '-' {
        if i >= 8 {
          assert r[i] == inner[i - 8];
        }
      }
    }
    NoDashClean(r);
  }

  lemma BarClean(p: real, done: bool)
    ensures NoSpaceDash(if done then BarDone() else BarDisplay(p))
  {
    var k := BarLevel(p);
    RepeatOnly('=', k, '-');
    RepeatOnly(' ', 2 * (BarSize - k - 1), '-');
    RepeatOnly('=', BarSize, '-');
    NoDashClean(if done then BarDone() else BarDisplay(p));
  }

  lemma PercentClean(p: real, done: bool)
    ensures NoSpaceDash(if done then PercentDone() else PercentDisplay(p))
  {
    if done {
      NoSpaceClean(PercentDone());
    } else {
      var h := RoundHalfEven(p * 100.0);
      var a := if h < 0 then -h else h;
      DigitsOnly(NatToString(a / 100), ' ');
      DigitsOnly(TwoDigits(a % 100), ' ');
      RepeatOnly('0', 6 - |DecimalText(h)|, ' ');
      NoSpaceClean(PercentDisplay(p));
    }
  }

  /** Every built-in fragment is clean. */
  lemma BuiltinFragmentClean(k: StateKind, m: Metrics, done: bool, time: TimeRenderer)
    requires k != Time
    ensures NoSpaceDash(RenderState(k, m, done, time))
  {
    match k {
      case Loading => LoadingClean(m.nTimes, done);
      case Awaiting => AwaitingClean(m.nTimes, done);
      case Bar => BarClean(m.percent, done);
      case Percent => PercentClean(m.percent, done);
    }
  }

  lemma MarkerClean()
    ensures NoSpaceDash(DoneMarker())
  {
    NoDashClean(DoneMarker());
  }

  /** A composed line splits on " - " into exactly its fragments: every
      state's `done` form followed by the "Done!" marker when the value is
      complete, every state's `display` form otherwise, in the order of the
      states. (The time field is supplied from outside, so its fragment is
      required to be clean.) */
  lemma ComposeLineFields(states: seq<StateKind>, m: Metrics, time: TimeRenderer)
    requires |states| >= 1
    requires Time in states ==> NoSpaceDash(time(IsComplete(m.current, m.maxValue), m))
    ensures var done := IsComplete(m.current, m.maxValue);
            SplitSep(ComposeLine(states, m, time), Separator) ==
              RenderAll(states, m, done, time) + (if done then [DoneMarker()] else [])
  {
    var done := IsComplete(m.current, m.maxValue);
    var parts := LineFields(states, m, time);
    forall i | 0 <= i < |parts| ensures NoSpaceDash(parts[i]) {
      if i < |states| {
        if states[i] != Time {
          BuiltinFragmentClean(states[i], m, done, time);
        }
      } else {
        MarkerClean();
      }
    }
    SplitJoined(parts);
  }

  /** The line has one more field than there are states exactly when the
      value is complete, and that extra field is the "Done!" marker. */
  lemma CompletionMarkedIff(states: seq<StateKind>, m: Metrics, time: TimeRenderer)
    requires |states| >= 1
    requires Time in states ==> NoSpaceDash(time(IsComplete(m.current, m.maxValue), m))
    ensures var fields := SplitSep(ComposeLine(states, m, time), Separator);
            (|fields| == |states| + 1 <==> IsComplete(m.current, m.maxValue)) &&
            (IsComplete(m.current, m.maxValue) ==> fields[|states|] == DoneMarker())
  {
    ComposeLineFields(states, m, time);
  }
}
