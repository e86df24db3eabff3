/** The colour scale of templates.go: a normalised value in [0,1] picks a
    background on a green-yellow-red ramp and a black or white text colour. */
module Colors {

  /** A colour as three channel values. */
  datatype Rgb = Rgb(r: int, g: int, b: int)

  const Green := Rgb(16, 185, 129)
  const Yellow := Rgb(251, 191, 36)
  const Red := Rgb(239, 68, 68)

  const White: string := "#ffffff"
  const Black: string := "#000000"

  /** Above this normalised value the text turns white. */
  const WhiteTextAbove: real := 0.6

  /** `math.Round` on exact reals: the nearest integer, halves away from zero. */
  function Round(x: real): (n: int)
    ensures x >= 0.0 ==> x - 0.5 < n as real <= x + 0.5
    ensures x < 0.0 ==> x - 0.5 <= n as real < x + 0.5
  {
    if x >= 0.0 then (x + 0.5).Floor else -((0.5 - x).Floor)
  }

  /** A point part of the way from `a` to `b` lies between them. */
  lemma PartWayBetween(a: int, b: int, factor: real)
    ensures 0.0 <= factor <= 1.0 && a <= b ==> a as real <= a as real + factor * (b - a) as real <= b as real
    ensures 0.0 <= factor <= 1.0 && b <= a ==> b as real <= a as real + factor * (b - a) as real <= a as real
  {
    if 0.0 <= factor <= 1.0 {
      var d := (b - a) as real;
      assert (1.0 - factor) * d == d - factor * d;
      if a <= b {
        assert (1.0 - factor) * d >= 0.0;
        assert factor * d >= 0.0;
      } else {
        assert (1.0 - factor) * d <= 0.0;
        assert factor * d <= 0.0;
      }
    }
  }

  /** One channel of `interpolateColor`: the rounded point at `factor` of
      the way from `a` to `b`. */
  function Blend(a: int, b: int, factor: real): (c: int)
    ensures factor == 0.0 ==> c == a
    ensures factor == 1.0 ==> c == b
    ensures 0.0 <= factor <= 1.0 && a <= b ==> a <= c <= b
    ensures 0.0 <= factor <= 1.0 && b <= a ==> b <= c <= a
  {
    var x := a as real + factor * (b - a) as real;
    PartWayBetween(a, b, factor);
    Round(x)
  }

  /** Every channel of `c` lies between the matching channels of `from`
      and `to`. */
  predicate Within(from: Rgb, to: Rgb, c: Rgb) {
    && (from.r <= c.r <= to.r || to.r <= c.r <= from.r)
    && (from.g <= c.g <= to.g || to.g <= c.g <= from.g)
    && (from.b <= c.b <= to.b || to.b <= c.b <= from.b)
  }

  /** Every channel fits the two hex digits the page prints. */
  predicate IsByteColor(c: Rgb) {
    0 <= c.r <= 255 && 0 <= c.g <= 255 && 0 <= c.b <= 255
  }

  /** `interpolateColor`. */
  function Interpolate(from: Rgb, to: Rgb, factor: real): (c: Rgb)
    ensures factor == 0.0 ==> c == from
    ensures factor == 1.0 ==> c == to
    ensures 0.0 <= factor <= 1.0 ==> Within(from, to, c)
  {
    Rgb(Blend(from.r, to.r, factor), Blend(from.g, to.g, factor), Blend(from.b, to.b, factor))
  }

  /** `getColorForValue` before hex formatting: values below one half are
      placed on the green-to-yellow segment, the rest on yellow-to-red. */
  function ColorForValue(v: real): (c: Rgb)
    ensures v == 0.0 ==> c == Green
    ensures v == 0.5 ==> c == Yellow
    ensures v == 1.0 ==> c == Red
    ensures 0.0 <= v < 0.5 ==> Within(Green, Yellow, c)
    ensures 0.5 <= v <= 1.0 ==> Within(Yellow, Red, c)
    ensures 0.0 <= v <= 1.0 ==> IsByteColor(c)
  {
    if v < 0.5 then Interpolate(Green, Yellow, v * 2.0)
    else Interpolate(Yellow, Red, (v - 0.5) * 2.0)
  }

  /** `getTextColor`: white text on the darker end of the scale. */
  function TextColor(v: real): (t: string)
    ensures t == White <==> v > WhiteTextAbove
    ensures t == Black <==> v <= WhiteTextAbove
  {
    if v > WhiteTextAbove then White else Black
  }

  /** White text only ever sits on the yellow-to-red half of the scale,
      never on green. */
  lemma WhiteTextOnWarmSide(v: real)
    requires 0.0 <= v <= 1.0 && TextColor(v) == White
    ensures Within(Yellow, Red, ColorForValue(v))
    ensures ColorForValue(v).g < Yellow.g
  {
    var c := ColorForValue(v);
    var f := (v - 0.5) * 2.0;
    assert f > 0.0;
    assert c.g == Blend(Yellow.g, Red.g, f);
    assert Yellow.g as real + f * (Red.g - Yellow.g) as real < Yellow.g as real - 0.5;
  }
}
