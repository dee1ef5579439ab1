/** The pure part of the counter animation: reading a counter's text, choosing
    its duration, and the eased value each animation frame shows. */
module Counter {
  import opened Wrappers
  import opened Decimal

  // ----- parseNumber -----

  /** The characters a JavaScript regular expression's `.` does not match. */
  predicate IsLineTerminator(c: char) {
    c == '\n' || c == '\r' || c == '\U{2028}' || c == '\U{2029}'
  }

  predicate NoLineTerminator(s: string) {
    forall i :: 0 <= i < |s| ==> !IsLineTerminator(s[i])
  }

  /** The length of the run of digits that starts `s`. */
  function DigitRun(s: string): (n: nat)
    ensures n <= |s| && AllDigits(s[..n])
    ensures n < |s| ==> !IsDigit(s[n])
  {
    if s == [] || !IsDigit(s[0]) then 0
    else
      var n := 1 + DigitRun(s[1..]);
      assert s[..n] == [s[0]] + s[1..][..n - 1];
      n
  }

  /** `text.match(/^(\d+)(.*)$/)`: the two groups, or `None` when it fails.
      The greedy `\d+` takes the whole leading run of digits; `.` stops at a
      line terminator and `$` needs the end of the text. */
  function Match(text: string): (r: Option<(string, string)>)
    ensures r.Some? ==> text == r.value.0 + r.value.1
    ensures r.Some? ==> |r.value.0| > 0 && AllDigits(r.value.0) && NoLineTerminator(r.value.1)
  {
    var n := DigitRun(text);
    if n > 0 && NoLineTerminator(text[n..]) then Some((text[..n], text[n..])) else None
  }

  /** The result of `parseNumber`. */
  datatype Parsed = Parsed(value: nat, suffix: string)

  /** `parseNumber`: the leading number and what follows it, or `(0, "")`. */
  function ParseNumber(text: string): (r: Parsed)
    ensures r.suffix == [] || !IsDigit(r.suffix[0])
    ensures NoLineTerminator(r.suffix)
    ensures r.value > 0 ==> |text| > 0 && IsDigit(text[0])
  {
    match Match(text)
    case Some((digits, rest)) => Parsed(Value(digits), rest)
    case None => Parsed(0, "")
  }

  /** `text` splits as the regular expression demands: digits, then any text
      without a line terminator. */
  ghost predicate RegexSplit(text: string, digits: string, rest: string) {
    text == digits + rest && |digits| > 0 && AllDigits(digits) && NoLineTerminator(rest)
  }

  /** A run of digits at the start lies within the leading digit run. */
  lemma {:induction false} DigitPrefixWithinRun(s: string, k: nat)
    requires k <= |s| && AllDigits(s[..k])
    ensures k <= DigitRun(s)
  {
    if k > 0 {
      assert IsDigit(s[..k][0]);
      assert s[1..][..k - 1] == s[..k][1..];
      DigitPrefixWithinRun(s[1..], k - 1);
    }
  }

  /** `Match` succeeds exactly when the text splits as the regular expression
      demands, and then it returns the split with the longest digit group. */
  lemma MatchIsGreedyRegexMatch(text: string)
    ensures Match(text).Some? <==> exists d, r :: RegexSplit(text, d, r)
    ensures Match(text).Some? ==> RegexSplit(text, Match(text).value.0, Match(text).value.1)
    ensures Match(text).Some? ==>
              forall d, r :: RegexSplit(text, d, r) ==> |d| <= |Match(text).value.0|
  {
    var m := Match(text);
    if m.Some? {
      assert RegexSplit(text, m.value.0, m.value.1);
    }
    forall d, r | RegexSplit(text, d, r)
      ensures Match(text).Some? && |d| <= DigitRun(text)
    {
      assert text[..|d|] == d;
      DigitPrefixWithinRun(text, |d|);
      var n := DigitRun(text);
      assert text[n..] == r[n - |d|..];
    }
  }

  /** The digit run of digits followed by a non-digit is exactly the digits. */
  lemma {:induction false} DigitRunOf(digits: string, rest: string)
    requires AllDigits(digits)
    requires rest == [] || !IsDigit(rest[0])
    ensures DigitRun(digits + rest) == |digits|
  {
    if digits == [] {
      assert digits + rest == rest;
    } else {
      assert (digits + rest)[1..] == digits[1..] + rest;
      DigitRunOf(digits[1..], rest);
    }
  }

  /** Digits followed by a suffix that starts with a non-digit and holds no
      line terminator parse to the digits' value and that suffix. */
  lemma ParseDigitsThenSuffix(digits: string, suffix: string)
    requires |digits| > 0 && AllDigits(digits)
    requires suffix == [] || !IsDigit(suffix[0])
    requires NoLineTerminator(suffix)
    ensures ParseNumber(digits + suffix) == Parsed(Value(digits), suffix)
  {
    DigitRunOf(digits, suffix);
    assert (digits + suffix)[..|digits|] == digits;
    assert (digits + suffix)[|digits|..] == suffix;
  }

  /** Writing a number and a suffix and parsing the text gives both back. */
  lemma ParseShow(n: nat, suffix: string)
    requires suffix == [] || !IsDigit(suffix[0])
    requires NoLineTerminator(suffix)
    ensures ParseNumber(Show(n) + suffix) == Parsed(n, suffix)
  {
    ParseDigitsThenSuffix(Show(n), suffix);
    ValueShow(n);
  }

  /** Writing out what was parsed and parsing again gives the same result. */
  lemma ParseNumberStable(text: string)
    ensures ParseNumber(Show(ParseNumber(text).value) + ParseNumber(text).suffix)
         == ParseNumber(text)
  {
    var p := ParseNumber(text);
    ParseShow(p.value, p.suffix);
  }

  /** Text that does not start with a digit parses to `(0, "")`. */
  lemma ParseNoLeadingDigit(text: string)
    requires text == [] || !IsDigit(text[0])
    ensures ParseNumber(text) == Parsed(0, "")
  {
  }

  /** Examples: "99+" is 99 with suffix "+"; a line break after the digits
      defeats the match. */
  lemma ParseNumberExamples()
    ensures ParseNumber("99+") == Parsed(99, "+")
    ensures ParseNumber("10") == Parsed(10, "")
    ensures ParseNumber("7\n") == Parsed(0, "")
  {
    ParseDigitsThenSuffix("99", "+");
    assert "99" + "+" == "99+";
    ParseDigitsThenSuffix("10", "");
    assert "10" + "" == "10";
    assert DigitRun("7\n") == 1;
    assert IsLineTerminator("7\n"[1..][0]);
  }

  // ----- duration -----

  /** The duration used when the element has no `data-counter-duration`. */
  const DefaultDuration: int := 2000

  /** `parseInt(element.dataset.counterDuration || '2000', 10)`, with the
      attribute already read as an integer (`None`: absent or empty). */
  function BaseDuration(counterDuration: Option<int>): (d: int)
    ensures counterDuration.None? ==> d == DefaultDuration
    ensures counterDuration.Some? ==> d == counterDuration.value
  {
    counterDuration.GetOr(DefaultDuration)
  }

  function Min(a: int, b: int): int {
    if a <= b then a else b
  }

  /** The cap on a counter's duration: smaller numbers animate faster. */
  function DurationCap(value: nat): (cap: int)
    ensures 600 <= cap <= 2000
  {
    if value <= 5 then 600
    else if value <= 20 then 800
    else Min(value * 50, 2000)
  }

  /** The duration `initCounterAnimations` gives a counter of `value`: the
      base duration, capped by `DurationCap`. */
  function CounterDuration(value: nat, counterDuration: Option<int>): (d: int)
    ensures d <= BaseDuration(counterDuration) && d <= 2000
    ensures value <= 5 ==> d <= 600
    ensures value <= 20 ==> d <= 800
    ensures d == BaseDuration(counterDuration) || d == DurationCap(value)
    ensures d <= DurationCap(value)
  {
    var base := BaseDuration(counterDuration);
    if value <= 5 then Min(base, 600)
    else if value <= 20 then Min(base, 800)
    else Min(base, Min(value * 50, 2000))
  }

  /** Without an override the cap alone decides: 3 takes 600, 15 takes 800,
      30 takes 1500 and 100 takes 2000. */
  lemma DefaultDurations()
    ensures forall v: nat :: CounterDuration(v, None) == DurationCap(v)
    ensures CounterDuration(3, None) == 600 && CounterDuration(15, None) == 800
    ensures CounterDuration(30, None) == 1500 && CounterDuration(100, None) == 2000
  {
  }

  /** A larger number never animates faster. */
  lemma DurationMonotone(v: nat, w: nat, counterDuration: Option<int>)
    requires v <= w
    ensures CounterDuration(v, counterDuration) <= CounterDuration(w, counterDuration)
  {
  }

  // ----- animateCounter frames -----

  function RealMin(a: real, b: real): real {
    if a <= b then a else b
  }

  function Sq(x: real): real {
    x * x
  }

  /** `Math.pow(x, 4)`. */
  function Pow4(x: real): real {
    Sq(Sq(x))
  }

  /** `1 - Math.pow(1 - progress, 4)`, over the reals. */
  function EaseOutQuart(progress: real): (eased: real)
    ensures eased <= 1.0
  {
    1.0 - Pow4(1.0 - progress)
  }

  /** `Math.min(elapsed / duration, 1)`. */
  function Progress(elapsed: real, duration: int): (p: real)
    requires duration != 0
    ensures p <= 1.0
  {
    RealMin(elapsed / duration as real, 1.0)
  }

  /** `Math.floor(target * easeOutQuart)` at `progress`, or the exact target
      once the progress reaches 1. */
  function EasedValue(target: nat, progress: real): (v: int)
    ensures v <= target
  {
    if progress < 1.0 then
      ScaledFloorAtMost(target, EaseOutQuart(progress));
      (target as real * EaseOutQuart(progress)).Floor
    else
      target
  }

  /** The number a frame shows `elapsed` milliseconds after the start. */
  function ShownValue(target: nat, duration: int, elapsed: real): (v: int)
    requires duration != 0
    ensures v <= target
  {
    EasedValue(target, Progress(elapsed, duration))
  }

  /** What one `updateCounter` call does: the text it leaves and whether it
      asks for another frame. */
  datatype Frame = Frame(text: string, again: bool)

  /** One `updateCounter` call, `elapsed` milliseconds after the start (the
      frame's timestamp may precede the start, so `elapsed` may be negative).
      With a zero duration `elapsed / duration` is Infinity, NaN at 0 or
      -Infinity before the start: the first two end the animation with the
      target; the last eases to -Infinity, which scaled by the target is
      -Infinity, or NaN when the target is 0 (`0 * -Infinity`), and that text
      stays while another frame is requested. */
  function CounterFrame(target: nat, duration: int, suffix: string, elapsed: real): (f: Frame)
    ensures !f.again ==> f.text == Show(target) + suffix
  {
    if duration == 0 then
      if elapsed < 0.0 then Frame((if target == 0 then "NaN" else "-Infinity") + suffix, true)
      else Frame(Show(target) + suffix, false)
    else if Progress(elapsed, duration) < 1.0 then
      Frame(ShowInt(ShownValue(target, duration, elapsed)) + suffix, true)
    else
      Frame(Show(target) + suffix, false)
  }

  lemma MulMonotone(a: real, b: real, c: real, d: real)
    requires 0.0 <= a <= b && 0.0 <= c <= d
    ensures a * c <= b * d
  {
    assert a * c <= b * c;
    assert b * c <= b * d;
  }

  lemma MulStrict(a: real, b: real, d: real)
    requires a < b && d > 0.0
    ensures a * d < b * d
  {
  }

  /** Dividing by `d` and multiplying back gives the number. */
  lemma DivMul(a: real, d: real)
    requires d != 0.0
    ensures (a / d) * d == a
  {
  }

  /** A square is not negative, positive off 0, below 1 strictly between
      0 and 1 and above 1 beyond 1. */
  lemma SqBounds(x: real)
    ensures Sq(x) >= 0.0
    ensures x != 0.0 ==> Sq(x) > 0.0
    ensures 0.0 <= x < 1.0 ==> Sq(x) < 1.0
    ensures x > 1.0 ==> Sq(x) > 1.0
  {
    if x < 0.0 {
      calc {
        Sq(x);
        == x * x;
        > 0.0;
      }
    } else if x > 0.0 {
      MulStrict(0.0, x, x);
      calc {
        Sq(x);
        == x * x;
        > 0.0 * x;
        == 0.0;
      }
      if x < 1.0 {
        MulStrict(x, 1.0, x);
        calc {
          Sq(x);
          == x * x;
          < 1.0 * x;
          < 1.0;
        }
      } else if x > 1.0 {
        MulStrict(1.0, x, x);
        calc {
          Sq(x);
          == x * x;
          > 1.0 * x;
          > 1.0;
        }
      }
    }
  }

  /** Squaring keeps the order of non-negative numbers. */
  lemma SqMonotone(x: real, y: real)
    requires 0.0 <= x <= y
    ensures Sq(x) <= Sq(y)
  {
    MulMonotone(x, y, x, y);
  }

  /** The easing never exceeds 1, reaches 1 only at progress 1, lies in
      [0, 1] on [0, 1] and is negative before 0. */
  lemma EaseOutQuartBounds(p: real)
    ensures EaseOutQuart(p) <= 1.0
    ensures EaseOutQuart(p) == 1.0 <==> p == 1.0
    ensures 0.0 <= p <= 1.0 ==> 0.0 <= EaseOutQuart(p)
    ensures p < 0.0 ==> EaseOutQuart(p) < 0.0
  {
    var q := 1.0 - p;
    SqBounds(q);
    SqBounds(Sq(q));
  }

  /** The easing never decreases up to progress 1. */
  lemma EaseOutQuartMonotone(p: real, p': real)
    requires p <= p' <= 1.0
    ensures EaseOutQuart(p) <= EaseOutQuart(p')
  {
    var q, q' := 1.0 - p, 1.0 - p';
    SqMonotone(q', q);
    SqBounds(q');
    SqMonotone(Sq(q'), Sq(q));
  }

  /** Dividing by a positive number keeps the order. */
  lemma QuotientMonotone(a: real, b: real, d: real)
    requires d > 0.0 && a <= b
    ensures a / d <= b / d
  {
    DivMul(a, d);
    DivMul(b, d);
  }

  /** A quotient by a positive `d` reaches 1 exactly when the dividend reaches
      `d`, and is negative exactly when the dividend is. */
  lemma QuotientReachesOne(a: real, d: real)
    requires d > 0.0
    ensures a / d >= 1.0 <==> a >= d
    ensures a / d < 0.0 <==> a < 0.0
  {
    DivMul(a, d);
  }

  /** Progress never exceeds 1, grows with the elapsed time, reaches 1 exactly
      when the duration has elapsed and is negative before the start. */
  lemma ProgressBounds(elapsed: real, elapsed': real, duration: int)
    requires duration > 0 && elapsed <= elapsed'
    ensures Progress(elapsed, duration) <= Progress(elapsed', duration) <= 1.0
    ensures Progress(elapsed, duration) == 1.0 <==> elapsed >= duration as real
    ensures Progress(elapsed, duration) < 0.0 <==> elapsed < 0.0
  {
    var d := duration as real;
    QuotientMonotone(elapsed, elapsed', d);
    QuotientReachesOne(elapsed, d);
  }

  /** From the start on, the shown value stays within [0, target]. */
  lemma ShownValueBounds(target: nat, duration: int, elapsed: real)
    requires duration > 0 && elapsed >= 0.0
    ensures 0 <= ShownValue(target, duration, elapsed) <= target
  {
    var p := Progress(elapsed, duration);
    ProgressBounds(elapsed, elapsed, duration);
    EaseOutQuartBounds(p);
    MulMonotone(0.0, target as real, 0.0, EaseOutQuart(p));
    MulMonotone(target as real, target as real, EaseOutQuart(p), 1.0);
  }

  /** Scaling by a non-negative number and rounding down keeps the order. */
  lemma ScaledFloorMonotone(target: nat, a: real, b: real)
    requires a <= b
    ensures (target as real * a).Floor <= (target as real * b).Floor
  {
    assert target as real * a <= target as real * b;
  }

  /** A fraction of at most 1 of the target, rounded down, is at most the target. */
  lemma ScaledFloorAtMost(target: nat, a: real)
    requires a <= 1.0
    ensures (target as real * a).Floor <= target
  {
    assert target as real * a <= target as real;
  }

  /** The eased value never decreases as the progress grows. */
  lemma EasedValueMonotone(target: nat, p: real, p': real)
    requires p <= p' <= 1.0
    ensures EasedValue(target, p) <= EasedValue(target, p')
  {
    if p' < 1.0 {
      EaseOutQuartMonotone(p, p');
      ScaledFloorMonotone(target, EaseOutQuart(p), EaseOutQuart(p'));
    }
  }

  /** The shown value never decreases as time goes on. */
  lemma ShownValueMonotone(target: nat, duration: int, elapsed: real, elapsed': real)
    requires duration > 0 && elapsed <= elapsed'
    ensures ShownValue(target, duration, elapsed) <= ShownValue(target, duration, elapsed')
  {
    ProgressBounds(elapsed, elapsed', duration);
    EasedValueMonotone(target, Progress(elapsed, duration), Progress(elapsed', duration));
  }


  /** With a positive duration the animation completes exactly once the
      duration has elapsed; the last frame shows the target and its suffix,
      and no earlier frame shows the target of a positive counter. */
  lemma CounterFrameCompletes(target: nat, duration: int, suffix: string, elapsed: real)
    requires duration > 0
    ensures !CounterFrame(target, duration, suffix, elapsed).again <==> elapsed >= duration as real
    ensures !CounterFrame(target, duration, suffix, elapsed).again ==>
              CounterFrame(target, duration, suffix, elapsed).text == Show(target) + suffix
    ensures target > 0 && elapsed < duration as real ==>
              ShownValue(target, duration, elapsed) < target
  {
    var p := Progress(elapsed, duration);
    ProgressBounds(elapsed, elapsed, duration);
    EaseOutQuartBounds(p);
    if p < 1.0 && target > 0 {
      MulStrict(EaseOutQuart(p), 1.0, target as real);
      var y := target as real * EaseOutQuart(p);
      assert y < target as real;
      assert ShownValue(target, duration, elapsed) == y.Floor;
    }
  }

  /** A frame stamped before the start of a positive counter shows a negative
      number: the easing of a negative progress is negative. */
  lemma FrameBeforeStartShowsNegative(target: nat, duration: int, suffix: string, elapsed: real)
    requires duration > 0 && elapsed < 0.0 && target > 0
    ensures ShownValue(target, duration, elapsed) < 0
    ensures CounterFrame(target, duration, suffix, elapsed).again
    ensures CounterFrame(target, duration, suffix, elapsed).text[0] == '-'
  {
    var p := Progress(elapsed, duration);
    ProgressBounds(elapsed, elapsed, duration);
    EaseOutQuartBounds(p);
    MulStrict(EaseOutQuart(p), 0.0, target as real);
  }

  /** A zero duration completes on the first frame stamped at or after the
      start, with the target; a frame stamped before it shows "-Infinity",
      or "NaN" for a target of 0, and asks for another. */
  lemma ZeroDurationFrames(target: nat, suffix: string, elapsed: real)
    ensures !CounterFrame(target, 0, suffix, elapsed).again <==> elapsed >= 0.0
    ensures !CounterFrame(target, 0, suffix, elapsed).again ==>
              CounterFrame(target, 0, suffix, elapsed).text == Show(target) + suffix
  {
  }

  /** A negative duration (a negative `data-counter-duration`) never completes
      from the start on: every frame asks for another and shows a number no
      greater than 0. */
  lemma NegativeDurationNeverCompletes(target: nat, duration: int, suffix: string, elapsed: real)
    requires duration < 0 && elapsed >= 0.0
    ensures CounterFrame(target, duration, suffix, elapsed).again
    ensures ShownValue(target, duration, elapsed) <= 0
  {
    var d := duration as real;
    var p := elapsed / d;
    DivMul(elapsed, d);
    if p > 0.0 {
      MulStrict(d, 0.0, p);
    }
    assert p <= 0.0;
    EaseOutQuartBounds(p);
    MulMonotone(0.0, target as real, 0.0, -EaseOutQuart(p));
  }

  /** The text the last frame leaves parses back to what the counter's
      original text parsed to. */
  lemma FinalTextReparses(original: string, duration: int, elapsed: real)
    requires !CounterFrame(ParseNumber(original).value, duration, ParseNumber(original).suffix, elapsed).again
    ensures ParseNumber(CounterFrame(ParseNumber(original).value, duration,
                                     ParseNumber(original).suffix, elapsed).text)
         == ParseNumber(original)
  {
    ParseNumberStable(original);
  }
}
