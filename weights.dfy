/** A weight's trip through `round(val, prec)` and `str(...)`.

    A weight is the exact value of the host's floating-point number, held as a
    `real`. `round(val, prec)` is kept as the integer `k` of units of 10^-prec it
    rounds to; the printed text is that of the number k / 10^prec. */
module Weights {
  import opened Decimal

  /** 10^prec as a real. */
  function Scale(prec: nat): (s: real)
    ensures s >= 1.0
  {
    Pow10(prec) as real
  }

  /** `round(w, prec)`, as a count of units of 10^-prec (see RoundIsNearest). */
  function Round(prec: nat, w: real): int {
    var x := w * Scale(prec);
    var f := x.Floor;
    var d := x - f as real;
    if d < 0.5 then f
    else if d > 0.5 then f + 1
    else if f % 2 == 0 then f
    else f + 1
  }

  /** Round gives the nearest integer to w * 10^prec, an exact half going to
      the even neighbour. */
  lemma RoundIsNearest(prec: nat, w: real)
    ensures var k := Round(prec, w);
      -0.5 <= w * Scale(prec) - k as real <= 0.5 &&
      (w * Scale(prec) - k as real == 0.5 ==> k % 2 == 0) &&
      (w * Scale(prec) - k as real == -0.5 ==> k % 2 == 0)
  {
  }

  /** `smallest = 1 / 10**precision`, the export threshold. */
  function Smallest(prec: nat): (t: real)
    ensures 0.0 < t <= 1.0
    ensures t * Scale(prec) == 1.0
  {
    1.0 / Scale(prec)
  }

  /** A weight above the export threshold never rounds to zero, so the encoder's
      zero-drop never fires on exported data. */
  lemma AboveThresholdRoundsNonZero(prec: nat, w: real)
    requires w > Smallest(prec)
    ensures Round(prec, w) >= 1
  {
    var s := Scale(prec);
    assert w * s > Smallest(prec) * s;
    assert Smallest(prec) * s == 1.0;
  }

  /** The threshold is stricter than the zero-drop: at precision 3 the weight
      0.0008 rounds to 0.001, yet it is not above 1/10^3 and is never exported. */
  lemma ThresholdDropsSomeNonZeroRoundings()
    ensures 0.0008 <= Smallest(3) && Round(3, 0.0008) == 1
  {
  }

  /** Characters that may occur in a printed weight. */
  predicate IsNumberChar(c: char) {
    IsDigit(c) || c == '.' || c == '-' || c == '+' || c == 'e'
  }

  predicate NumberText(s: string) {
    |s| >= 1 && forall i :: 0 <= i < |s| ==> IsNumberChar(s[i])
  }

  /** `str(x)` for x = k / 10^prec: the shortest decimal of the value, in fixed
      notation when its leading digit sits at 10^-4 up to 10^15, otherwise in
      scientific notation with an exponent of at least two digits. */
  function RenderWeight(prec: nat, k: int): (r: string)
    ensures NumberText(r)
  {
    if k == 0 then "0.0"
    else if k < 0 then "-" + RenderMagnitude(prec, -k)
    else RenderMagnitude(prec, k)
  }

  function RenderMagnitude(prec: nat, a: nat): (r: string)
    requires a > 0
    ensures NumberText(r)
  {
    var (m, z) := StripTrailingZeros(a);
    var digits := NatToString(m);
    var places := prec - z;
    var exp := |digits| - 1 - places;
    if -4 <= exp < 16 then FixedNotation(digits, places) else Scientific(digits, exp)
  }

  /** digits * 10^-places written out, with at least one digit after the point. */
  function FixedNotation(digits: string, places: int): (r: string)
    requires |digits| >= 1 && AllDigits(digits)
    ensures NumberText(r)
  {
    if places <= 0 then digits + Zeros(-places) + ".0"
    else if |digits| > places then digits[..|digits| - places] + "." + digits[|digits| - places..]
    else "0." + Zeros(places - |digits|) + digits
  }

  /** d.ddd e±XX, for a leading digit at 10^exp. */
  function Scientific(digits: string, exp: int): (r: string)
    requires |digits| >= 1 && AllDigits(digits)
    ensures NumberText(r)
  {
    var magnitude := if exp < 0 then -exp else exp;
    var expText := if magnitude < 10 then "0" + NatToString(magnitude) else NatToString(magnitude);
    digits[..1] + (if |digits| > 1 then "." + digits[1..] else "")
      + "e" + (if exp < 0 then "-" else "+") + expText
  }

  /** `str(round(w, prec))` of a weight with trailing zeros: they are dropped,
      and a whole number keeps its ".0". */
  lemma RenderTrailingZeroExamples()
    ensures RenderWeight(4, 5000) == "0.5"
    ensures RenderWeight(4, 10000) == "1.0"
  {
    assert StripTrailingZeros(5) == (5, 0);
    assert StripTrailingZeros(50) == (5, 1);
    assert StripTrailingZeros(500) == (5, 2);
    assert StripTrailingZeros(5000) == (5, 3);
    assert NatToString(5) == "5";
    assert StripTrailingZeros(1) == (1, 0);
    assert StripTrailingZeros(10) == (1, 1);
    assert StripTrailingZeros(100) == (1, 2);
    assert StripTrailingZeros(1000) == (1, 3);
    assert StripTrailingZeros(10000) == (1, 4);
    assert NatToString(1) == "1";
  }

  /** `str(round(w, prec))` in fixed notation down to 10^-4, with leading zeros
      after the point. */
  lemma RenderFixedExamples()
    ensures RenderWeight(4, 1) == "0.0001"
    ensures RenderWeight(3, 125) == "0.125"
  {
    assert StripTrailingZeros(1) == (1, 0);
    assert NatToString(1) == "1";
    assert Zeros(3) == "000";
    assert StripTrailingZeros(125) == (125, 0);
    assert NatToString(12) == "12";
    assert NatToString(125) == "125";
  }

  /** Below 10^-4 `str` switches to scientific notation with a two-digit exponent. */
  lemma RenderScientificExamples()
    ensures RenderWeight(5, 1) == "1e-05"
    ensures RenderWeight(6, 15) == "1.5e-05"
  {
    assert StripTrailingZeros(1) == (1, 0);
    assert NatToString(1) == "1";
    assert NatToString(5) == "5";
    assert StripTrailingZeros(15) == (15, 0);
    assert NatToString(15) == "15";
  }
}
