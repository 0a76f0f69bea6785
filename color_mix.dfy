/**
 * `generateColorMix` of src/index.ts: the integer scale 0..1000 laid over the
 * eleven standard stops 50, 100, 200, ..., 900, 950, producing either a direct
 * reference to a stop or an oklch `color-mix()` of two colorants.
 */
module ColorMix {
  import opened Decimal

  /** DEFAULT_SCALE, in ascending order. */
  const DefaultScale: seq<int> := [50, 100, 200, 300, 400, 500, 600, 700, 800, 900, 950]

  /** The CSS value the generator builds, before it is printed. */
  datatype Expr =
    | Direct(color: string, stop: nat)
      // var(--color-C-S)
    | MixWhite(color: string, weight: nat)
      // color-mix(in oklch,var(--color-C-50) P%,white)
    | MixBlack(color: string, weight: nat)
      // color-mix(in oklch,black P%,var(--color-C-950))
    | Mix(color: string, upper: nat, weight: nat, lower: nat)
      // color-mix(in oklch,var(--color-C-U) P%,var(--color-C-L))

  function ColorVar(color: string, stop: string): string {
    "var(--color-" + color + "-" + stop + ")"
  }

  /** The template strings of generateColorMix. */
  function Render(e: Expr): string {
    match e
    case Direct(c, s) => ColorVar(c, ToDecimal(s))
    case MixWhite(c, p) =>
      "color-mix(in oklch," + ColorVar(c, "50") + " " + ToDecimal(p) + "%,white)"
    case MixBlack(c, p) =>
      "color-mix(in oklch,black " + ToDecimal(p) + "%," + ColorVar(c, "950") + ")"
    case Mix(c, u, p, l) =>
      "color-mix(in oklch," + ColorVar(c, ToDecimal(u)) + " " + ToDecimal(p) + "%,"
        + ColorVar(c, ToDecimal(l)) + ")"
  }

  /** `Array.prototype.findIndex(s => s >= x)`: the first index whose element is at least x, or -1. */
  function FirstAtLeast(s: seq<int>, x: int): (r: int)
    ensures -1 <= r < |s|
    ensures r == -1 <==> forall i | 0 <= i < |s| :: s[i] < x
    ensures r >= 0 ==> s[r] >= x && forall i | 0 <= i < r :: s[i] < x
  {
    if s == [] then -1
    else if s[0] >= x then 0
    else
      var k := FirstAtLeast(s[1..], x);
      if k == -1 then -1 else k + 1
  }

  /**
   * generateColorMix(color, scale). The branches follow the source one for
   * one, the two fall-backs for a failed search included; the percentage is
   * computed exactly (BetweenStops shows the division leaves no remainder).
   */
  function GenerateColorMix(color: string, scale: nat): (r: Expr)
    ensures r.color == color
  {
    if scale < 50 then MixWhite(color, scale * 2)
    else if scale > 950 then MixBlack(color, (scale - 950) * 2)
    else
      var upperIndex := FirstAtLeast(DefaultScale, scale);
      if upperIndex == -1 then Direct(color, 950)
      else
        var upper := DefaultScale[upperIndex];
        if scale == upper then Direct(color, upper)
        else
          var lower := if upperIndex == 0 then 50 else DefaultScale[upperIndex - 1];
          var range := upper - lower;
          var offset := scale - lower;
          var percentage := if lower == 50 && upper == 100 then offset * 2 else offset * 100 / range;
          Mix(color, upper, percentage, lower)
  }

  /** The scale an expression stands for: the inverse of GenerateColorMix. */
  function ScaleOf(e: Expr): nat {
    match e
    case Direct(_, s) => s
    case MixWhite(_, p) => p / 2
    case MixBlack(_, p) => 950 + p / 2
    case Mix(_, u, p, l) => if u < l then 0 else l + p * (u - l) / 100
  }

  /** DEFAULT_SCALE holds eleven stops in strictly ascending order, from 50 to 950. */
  lemma DefaultScaleAscending()
    ensures |DefaultScale| == 11 && DefaultScale[0] == 50 && DefaultScale[10] == 950
    ensures forall i, j | 0 <= i < j < |DefaultScale| :: DefaultScale[i] < DefaultScale[j]
  {
  }

  /** Every gap between adjacent stops is 50 or 100. */
  lemma GapSize(i: int)
    requires 1 <= i < |DefaultScale|
    ensures DefaultScale[i] - DefaultScale[i - 1] in {50, 100}
    ensures DefaultScale[i] - DefaultScale[i - 1] == 50 <==> i == 1 || i == 10
  {
  }

  /**
   * Within 50..950 the search always succeeds, and it hits index 0 only at
   * scale 50, where the result is direct: the `upperIndex === -1` branch and
   * the `upperIndex === 0` fall-back for `lower` are dead code.
   */
  lemma SearchFallbacksUnreachable(scale: nat)
    requires 50 <= scale <= 950
    ensures FirstAtLeast(DefaultScale, scale) >= 0
    ensures FirstAtLeast(DefaultScale, scale) == 0 ==> scale == DefaultScale[0]
  {
    assert DefaultScale[10] == 950;
  }

  /** Every scale in 50..950 that is not a stop lies strictly between two adjacent stops. */
  lemma StopBracket(scale: nat) returns (i: int)
    requires 50 <= scale <= 950 && scale !in DefaultScale
    ensures 1 <= i < |DefaultScale|
    ensures DefaultScale[i - 1] < scale < DefaultScale[i]
    ensures i == FirstAtLeast(DefaultScale, scale)
  {
    SearchFallbacksUnreachable(scale);
    i := FirstAtLeast(DefaultScale, scale);
  }

  /** Below the first stop: a mix of stop 50 with white, stop 50 weighted 2 * scale percent. */
  lemma BelowFirstStop(color: string, scale: nat)
    requires scale < 50
    ensures GenerateColorMix(color, scale) == MixWhite(color, 2 * scale)
    ensures Render(GenerateColorMix(color, scale))
         == "color-mix(in oklch,var(--color-" + color + "-50) " + ToDecimal(2 * scale) + "%,white)"
  {
  }

  /** Above the last stop: black weighted 2 * (scale - 950) percent, mixed with stop 950. */
  lemma AboveLastStop(color: string, scale: nat)
    requires scale > 950
    ensures GenerateColorMix(color, scale) == MixBlack(color, 2 * (scale - 950))
    ensures Render(GenerateColorMix(color, scale))
         == "color-mix(in oklch,black " + ToDecimal(2 * (scale - 950)) + "%,var(--color-" + color + "-950))"
  {
  }

  /** A scale that is a stop is a plain reference to that stop, with no mixing. */
  lemma AtStop(color: string, i: int)
    requires 0 <= i < |DefaultScale|
    ensures GenerateColorMix(color, DefaultScale[i]) == Direct(color, DefaultScale[i])
    ensures Render(GenerateColorMix(color, DefaultScale[i]))
         == "var(--color-" + color + "-" + ToDecimal(DefaultScale[i]) + ")"
  {
    DefaultScaleAscending();
    var s := DefaultScale[i];
    var k := FirstAtLeast(DefaultScale, s);
    assert k <= i;
    assert DefaultScale[k] == s;
  }

  /** The expression is a direct reference exactly when the scale is one of the stops. */
  lemma DirectIffStop(color: string, scale: nat)
    ensures GenerateColorMix(color, scale).Direct? <==> scale in DefaultScale
  {
    if scale in DefaultScale {
      var i :| 0 <= i < |DefaultScale| && DefaultScale[i] == scale;
      AtStop(color, i);
    } else if 50 <= scale <= 950 {
      var i := StopBracket(scale);
      BetweenStops(color, scale, i);
    }
  }

  /**
   * Strictly between the adjacent stops `lower` and `upper`: a mix of the two,
   * `upper` weighted (scale - lower) / (upper - lower) of the whole, which is
   * an integer strictly between 0 and 100; on 50..100 it is 2 * (scale - 50).
   */
  lemma BetweenStops(color: string, scale: nat, i: int)
    requires 1 <= i < |DefaultScale|
    requires DefaultScale[i - 1] < scale < DefaultScale[i]
    ensures var r := GenerateColorMix(color, scale);
      && r.Mix?
      && r.upper == DefaultScale[i] && r.lower == DefaultScale[i - 1]
      && r.weight * (r.upper - r.lower) == (scale - r.lower) * 100
      && 0 < r.weight < 100
      && (i == 1 ==> r.weight == 2 * (scale - 50))
      && (r.upper - r.lower == 50 ==> r.weight == 2 * (scale - r.lower))
      && (r.upper - r.lower == 100 ==> r.weight == scale - r.lower)
  {
    var k := FirstAtLeast(DefaultScale, scale);
    assert k == i;
    GapSize(i);
    var lower, upper := DefaultScale[i - 1], DefaultScale[i];
    var offset := scale - lower;
    if upper - lower == 50 {
      assert offset * 100 / 50 == offset * 2;
    } else {
      assert offset * 100 / 100 == offset;
    }
  }

  /** For every scale the generator accepts, each emitted weight lies in 0..100. */
  lemma WeightInRange(color: string, scale: nat)
    requires scale <= 1000
    ensures var r := GenerateColorMix(color, scale);
      !r.Direct? ==> 0 <= r.weight <= 100
  {
    if scale < 50 {
      BelowFirstStop(color, scale);
    } else if scale > 950 {
      AboveLastStop(color, scale);
    } else if scale in DefaultScale {
      DirectIffStop(color, scale);
    } else {
      var i := StopBracket(scale);
      BetweenStops(color, scale, i);
    }
  }

  /** ScaleOf undoes GenerateColorMix: no two scales produce the same expression. */
  lemma ScaleOfGenerate(color: string, scale: nat)
    ensures ScaleOf(GenerateColorMix(color, scale)) == scale
  {
    if scale < 50 {
      BelowFirstStop(color, scale);
    } else if scale > 950 {
      AboveLastStop(color, scale);
    } else if scale in DefaultScale {
      var i :| 0 <= i < |DefaultScale| && DefaultScale[i] == scale;
      AtStop(color, i);
    } else {
      var i := StopBracket(scale);
      BetweenStops(color, scale, i);
      var r := GenerateColorMix(color, scale);
      assert r.weight * (r.upper - r.lower) == (scale - r.lower) * 100;
      assert (scale - r.lower) * 100 / 100 == scale - r.lower;
    }
  }

  /** Distinct (color, scale) requests give distinct expressions. */
  lemma GenerateColorMixInjective(c1: string, s1: nat, c2: string, s2: nat)
    requires GenerateColorMix(c1, s1) == GenerateColorMix(c2, s2)
    ensures c1 == c2 && s1 == s2
  {
    ScaleOfGenerate(c1, s1);
    ScaleOfGenerate(c2, s2);
  }

  /** Between the same two stops, a larger scale puts more weight on the upper stop. */
  lemma WeightMonotone(color: string, s1: nat, s2: nat, i: int)
    requires 1 <= i < |DefaultScale|
    requires DefaultScale[i - 1] < s1 < s2 < DefaultScale[i]
    ensures var r1, r2 := GenerateColorMix(color, s1), GenerateColorMix(color, s2);
      r1.Mix? && r2.Mix? && r1.weight < r2.weight
  {
    BetweenStops(color, s1, i);
    BetweenStops(color, s2, i);
    GapSize(i);
    var r1, r2 := GenerateColorMix(color, s1), GenerateColorMix(color, s2);
    var lower, upper := DefaultScale[i - 1], DefaultScale[i];
    assert r1.lower == lower && r1.upper == upper && r2.lower == lower && r2.upper == upper;
    if upper - lower == 50 {
      assert r1.weight == 2 * (s1 - lower) && r2.weight == 2 * (s2 - lower);
    } else {
      assert r1.weight == s1 - lower && r2.weight == s2 - lower;
    }
  }
}
