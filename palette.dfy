/** The temperature palette of the trail renderer: a table of (temperature,
    colour) control points and a piecewise-linear lookup that blends the
    colours of the first consecutive pair whose interval holds the
    temperature, falling back to white when no pair does. */
module Palette {

  /** An RGB colour; channels are 0..255 in the palette, kept as reals. */
  datatype Rgb = Rgb(r: real, g: real, b: real)

  datatype ControlPoint = ControlPoint(temp: real, color: Rgb)

  const White: Rgb := Rgb(255.0, 255.0, 255.0)

  /** The palette, from dark green at -30 to dark purple at 50. */
  const Colors: seq<ControlPoint> := [
    ControlPoint(-30.0, Rgb(0.0, 100.0, 0.0)),     // dark green
    ControlPoint(-20.0, Rgb(0.0, 175.0, 0.0)),     // green
    ControlPoint(-10.0, Rgb(0.0, 255.0, 0.0)),     // green
    ControlPoint(0.0, Rgb(255.0, 255.0, 0.0)),     // yellow
    ControlPoint(10.0, Rgb(255.0, 165.0, 0.0)),    // orange
    ControlPoint(20.0, Rgb(255.0, 69.0, 0.0)),     // red
    ControlPoint(30.0, Rgb(255.0, 0.0, 255.0)),    // magenta
    ControlPoint(40.0, Rgb(128.0, 0.0, 128.0)),    // purple
    ControlPoint(50.0, Rgb(75.0, 0.0, 130.0))      // dark purple
  ]

  /** Control temperatures strictly increase from one point to the next. */
  predicate Increasing(p: seq<ControlPoint>) {
    forall i :: 0 <= i < |p| - 1 ==> p[i].temp < p[i + 1].temp
  }

  /** The palette has at least one pair and temp lies between its ends. */
  predicate Covers(p: seq<ControlPoint>, temp: real) {
    |p| >= 2 && p[0].temp <= temp <= p[|p| - 1].temp
  }

  /** Pair i is the first pair whose closed interval holds temp: for an
      increasing palette either it is the first pair or temp is strictly above
      its lower end (an exact control temperature belongs to the pair below). */
  predicate FirstPair(p: seq<ControlPoint>, i: int, temp: real) {
    0 <= i < |p| - 1 && p[i].temp <= temp <= p[i + 1].temp && (i == 0 || p[i].temp < temp)
  }

  /** Linear interpolation from start to stop by amt. */
  function Lerp(start: real, stop: real, amt: real): real {
    amt * (stop - start) + start
  }

  /** The colour between c1 and c2 at temp: each channel interpolated by
      (temp - t1) / (t2 - t1). */
  function Blend(c1: ControlPoint, c2: ControlPoint, temp: real): Rgb
    requires c1.temp < c2.temp
  {
    var t := (temp - c1.temp) / (c2.temp - c1.temp);
    Rgb(Lerp(c1.color.r, c2.color.r, t), Lerp(c1.color.g, c2.color.g, t), Lerp(c1.color.b, c2.color.b, t))
  }

  /** Scans the consecutive pairs of p in order and blends the first one whose
      interval holds temp; white when none does. */
  function LookUp(p: seq<ControlPoint>, temp: real): (c: Rgb)
    requires Increasing(p)
    ensures !Covers(p, temp) ==> c == White
    decreases |p|
  {
    if |p| < 2 then White
    else if p[0].temp <= temp <= p[1].temp then
      Monotone(p, 1, |p| - 1);
      Blend(p[0], p[1], temp)
    else LookUp(p[1..], temp)
  }

  function TempToColor(temp: real): Rgb {
    LookUp(Colors, temp)
  }

  lemma ColorsIncreasing()
    ensures Increasing(Colors)
  {
  }

  /** The lookup picks the first matching pair. */
  lemma {:induction false} LookUpFirstPair(p: seq<ControlPoint>, i: int, temp: real)
    requires Increasing(p) && FirstPair(p, i, temp)
    ensures LookUp(p, temp) == Blend(p[i], p[i + 1], temp)
    decreases i
  {
    if i > 0 {
      Monotone(p, 1, i);
      assert Increasing(p[1..]);
      LookUpFirstPair(p[1..], i - 1, temp);
    }
  }

  /** Control temperatures of an increasing palette are ordered by index. */
  lemma {:induction false} Monotone(p: seq<ControlPoint>, j: int, i: int)
    requires Increasing(p) && 0 <= j <= i < |p|
    ensures p[j].temp <= p[i].temp
    decreases i - j
  {
    if j < i {
      Monotone(p, j + 1, i);
    }
  }

  /** Every temperature the palette covers has a first matching pair. */
  lemma {:induction false} CoveredHasFirstPair(p: seq<ControlPoint>, temp: real)
    requires Increasing(p) && Covers(p, temp)
    ensures exists i :: FirstPair(p, i, temp)
    decreases |p|
  {
    if !(temp <= p[1].temp) {
      var q := p[1..];
      assert Increasing(q) && Covers(q, temp);
      CoveredHasFirstPair(q, temp);
      var j :| FirstPair(q, j, temp);
      assert FirstPair(p, j + 1, temp);
    } else {
      assert FirstPair(p, 0, temp);
    }
  }

  /** Inside a pair's interval each channel lies between the two control
      channels. */
  lemma BlendBetween(c1: ControlPoint, c2: ControlPoint, temp: real)
    requires c1.temp <= temp <= c2.temp && c1.temp < c2.temp
    ensures Between(Blend(c1, c2, temp).r, c1.color.r, c2.color.r)
    ensures Between(Blend(c1, c2, temp).g, c1.color.g, c2.color.g)
    ensures Between(Blend(c1, c2, temp).b, c1.color.b, c2.color.b)
  {
    var t := (temp - c1.temp) / (c2.temp - c1.temp);
    UnitFraction(temp - c1.temp, c2.temp - c1.temp);
    LerpBetween(c1.color.r, c2.color.r, t);
    LerpBetween(c1.color.g, c2.color.g, t);
    LerpBetween(c1.color.b, c2.color.b, t);
  }

  lemma UnitFraction(n: real, d: real)
    requires 0.0 <= n <= d && d > 0.0
    ensures 0.0 <= n / d <= 1.0
  {
    assert n / d * d == n;
  }

  lemma MulNonNegative(x: real, y: real)
    requires x >= 0.0 && y >= 0.0
    ensures x * y >= 0.0
  {
  }

  predicate Between(v: real, a: real, b: real) {
    (a <= v <= b) || (b <= v <= a)
  }

  lemma LerpBetween(a: real, b: real, t: real)
    requires 0.0 <= t <= 1.0
    ensures Between(Lerp(a, b, t), a, b)
  {
    if a <= b {
      MulNonNegative(t, b - a);
      MulNonNegative(1.0 - t, b - a);
    } else {
      MulNonNegative(t, a - b);
      MulNonNegative(1.0 - t, a - b);
    }
  }

  /** v has moved from w towards b no less than a would: when the channel runs
      up from a to b, v <= w, and when it runs down, v >= w. */
  predicate Toward(v: real, w: real, a: real, b: real) {
    (a <= b ==> v <= w) && (b <= a ==> w <= v)
  }

  lemma LerpMonotone(start: real, stop: real, s: real, t: real)
    requires s <= t
    ensures Toward(Lerp(start, stop, s), Lerp(start, stop, t), start, stop)
  {
    assert Lerp(start, stop, t) - Lerp(start, stop, s) == (t - s) * (stop - start);
    if start <= stop {
      MulNonNegative(t - s, stop - start);
    }
    if stop <= start {
      MulNonNegative(t - s, start - stop);
    }
  }

  /** Within a pair's interval each channel moves monotonically from the lower
      control colour towards the upper one as the temperature rises. */
  lemma BlendMonotone(c1: ControlPoint, c2: ControlPoint, a: real, b: real)
    requires c1.temp <= a <= b <= c2.temp && c1.temp < c2.temp
    ensures Toward(Blend(c1, c2, a).r, Blend(c1, c2, b).r, c1.color.r, c2.color.r)
    ensures Toward(Blend(c1, c2, a).g, Blend(c1, c2, b).g, c1.color.g, c2.color.g)
    ensures Toward(Blend(c1, c2, a).b, Blend(c1, c2, b).b, c1.color.b, c2.color.b)
  {
    var d := c2.temp - c1.temp;
    var s, t := (a - c1.temp) / d, (b - c1.temp) / d;
    assert t - s == (b - a) / d;
    UnitFraction(b - a, d);
    LerpMonotone(c1.color.r, c2.color.r, s, t);
    LerpMonotone(c1.color.g, c2.color.g, s, t);
    LerpMonotone(c1.color.b, c2.color.b, s, t);
  }

  /** Between two consecutive control points of the palette, each channel of
      the colour moves monotonically from the lower point's channel towards
      the upper one's as the temperature rises. */
  lemma TempToColorMonotone(i: int, a: real, b: real)
    requires 0 <= i < |Colors| - 1 && Colors[i].temp <= a <= b <= Colors[i + 1].temp
    ensures Toward(TempToColor(a).r, TempToColor(b).r, Colors[i].color.r, Colors[i + 1].color.r)
    ensures Toward(TempToColor(a).g, TempToColor(b).g, Colors[i].color.g, Colors[i + 1].color.g)
    ensures Toward(TempToColor(a).b, TempToColor(b).b, Colors[i].color.b, Colors[i + 1].color.b)
  {
    ColorsIncreasing();
    var lo, hi := Colors[i], Colors[i + 1];
    if a == lo.temp {
      // the lower end is that control point's own colour, and the colour at
      // b lies between the two control colours
      ControlPointColor(i);
      if b == lo.temp {
      } else {
        assert FirstPair(Colors, i, b);
        LookUpFirstPair(Colors, i, b);
        BlendBetween(lo, hi, b);
      }
    } else {
      assert FirstPair(Colors, i, a) && FirstPair(Colors, i, b);
      LookUpFirstPair(Colors, i, a);
      LookUpFirstPair(Colors, i, b);
      BlendMonotone(lo, hi, a, b);
    }
  }

  /** Full characterisation of the palette lookup: white outside [-30, 50];
      inside, the blend of the first matching pair, whose channels lie between
      the pair's channels. */
  lemma TempToColorSpec(temp: real)
    ensures temp < -30.0 || temp > 50.0 ==> TempToColor(temp) == White
    ensures -30.0 <= temp <= 50.0 ==>
              exists i :: FirstPair(Colors, i, temp)
                && TempToColor(temp) == Blend(Colors[i], Colors[i + 1], temp)
                && Between(TempToColor(temp).r, Colors[i].color.r, Colors[i + 1].color.r)
                && Between(TempToColor(temp).g, Colors[i].color.g, Colors[i + 1].color.g)
                && Between(TempToColor(temp).b, Colors[i].color.b, Colors[i + 1].color.b)
  {
    ColorsIncreasing();
    if -30.0 <= temp <= 50.0 {
      CoveredHasFirstPair(Colors, temp);
      var i :| FirstPair(Colors, i, temp);
      LookUpFirstPair(Colors, i, temp);
      BlendBetween(Colors[i], Colors[i + 1], temp);
    }
  }

  /** Lerp is start at amount 0 and stop at amount 1. */
  lemma LerpEnds(start: real, stop: real)
    ensures Lerp(start, stop, 0.0) == start && Lerp(start, stop, 1.0) == stop
  {
  }

  /** A blend is the lower colour at the lower control temperature and the
      upper colour at the upper one. */
  lemma BlendEnds(c1: ControlPoint, c2: ControlPoint)
    requires c1.temp < c2.temp
    ensures Blend(c1, c2, c1.temp) == c1.color
    ensures Blend(c1, c2, c2.temp) == c2.color
  {
    var d := c2.temp - c1.temp;
    assert (c1.temp - c1.temp) / d == 0.0;
    assert (c2.temp - c1.temp) / d == 1.0 by {
      assert d / d * d == d;
    }
    LerpEnds(c1.color.r, c2.color.r);
    LerpEnds(c1.color.g, c2.color.g);
    LerpEnds(c1.color.b, c2.color.b);
  }

  /** In an increasing palette an exact control temperature gives that
      point's colour: the first point through the first pair at amount 0,
      every later one through the pair below it at amount 1. */
  lemma ControlPointLookUp(p: seq<ControlPoint>, k: int)
    requires Increasing(p) && |p| >= 2 && 0 <= k < |p|
    ensures LookUp(p, p[k].temp) == p[k].color
  {
    if k == 0 {
      LookUpFirstPair(p, 0, p[0].temp);
      BlendEnds(p[0], p[1]);
    } else {
      assert FirstPair(p, k - 1, p[k].temp);
      LookUpFirstPair(p, k - 1, p[k].temp);
      BlendEnds(p[k - 1], p[k]);
    }
  }

  /** Every exact control temperature of the palette gives that control
      colour. */
  lemma ControlPointColor(k: int)
    requires 0 <= k < |Colors|
    ensures TempToColor(Colors[k].temp) == Colors[k].color
  {
    ColorsIncreasing();
    ControlPointLookUp(Colors, k);
  }

  /** The control temperatures named in the palette's comments: -30 through
      the first pair at amount 0, and 0, 10 and 50 through the pair below at
      amount 1. */
  lemma ControlTemperatures()
    ensures TempToColor(-30.0) == Rgb(0.0, 100.0, 0.0)
    ensures TempToColor(0.0) == Rgb(255.0, 255.0, 0.0)
    ensures TempToColor(10.0) == Rgb(255.0, 165.0, 0.0)
    ensures TempToColor(50.0) == Rgb(75.0, 0.0, 130.0)
  {
    ControlPointColor(0);
    ControlPointColor(3);
    ControlPointColor(4);
    ControlPointColor(8);
  }
}
