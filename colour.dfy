/** Colour arithmetic of utils.js: a colour is a number read as a 24-bit RGB integer,
    split into channels with `Math.floor` and JavaScript's `%`, and rebuilt per channel
    when a colour tween interpolates. `getLuminance` uses the same split. */
module Colour {

  const RedUnit: real := 65536.0    // 0x010000
  const GreenUnit: real := 256.0    // 0x000100

  /** JavaScript's `%` on numbers: the remainder of the quotient truncated toward zero,
      so it takes the sign of the dividend (unlike Dafny's Euclidean `%`). */
  function JsRem(x: real, m: real): (r: real)
    requires m > 0.0
    ensures x >= 0.0 ==> 0.0 <= r < m
  {
    var q := x / m;
    var t := if q >= 0.0 then q.Floor else -((-q).Floor);
    RemainderBound(x, m, t);
    x - m * t as real
  }

  lemma RemainderBound(x: real, m: real, t: int)
    requires m > 0.0
    requires t == if x / m >= 0.0 then (x / m).Floor else -((-(x / m)).Floor)
    ensures x >= 0.0 ==> 0.0 <= x - m * t as real < m
  {
    if x >= 0.0 {
      var q := x / m;
      assert t as real <= q < t as real + 1.0;
      assert x == m * q;
      MulMono(m, t as real, q);
      MulMono(m, q, t as real + 1.0);
      calc {
        x;
      ==
        m * q;
      <
        m * (t as real + 1.0);
      ==
        m * t as real + m;
      }
    }
  }

  lemma MulMono(m: real, a: real, b: real)
    requires m > 0.0 && a <= b
    ensures m * a <= m * b && (a < b ==> m * a < m * b)
  {
  }

  /** `Math.round`: halves round toward positive infinity. */
  function JsRound(x: real): (r: int)
    ensures x - 0.5 < r as real <= x + 0.5
  {
    (x + 0.5).Floor
  }

  /** The channel split used by `start`, `reverseProps` and `getLuminance`. */
  datatype Rgb = Rgb(r: int, g: int, b: int)

  function Channels(c: real): Rgb {
    Rgb((c / RedUnit).Floor, (JsRem(c, RedUnit) / GreenUnit).Floor, JsRem(c, GreenUnit).Floor)
  }

  /** Per-channel increments from `start` to `end` (`incR`, `incG`, `incB`). */
  function Delta(start: real, end: real): Rgb {
    var s, e := Channels(start), Channels(end);
    Rgb(e.r - s.r, e.g - s.g, e.b - s.b)
  }

  /** One frame of a colour tween: every channel advances by its own floored step and the sum is rounded. */
  function Step(start: real, inc: Rgb, percent: real): real {
    JsRound(start + (inc.r as real * percent).Floor as real * RedUnit
                  + (inc.g as real * percent).Floor as real * GreenUnit
                  + (inc.b as real * percent).Floor as real) as real
  }

  lemma FloorIs(x: real, k: int)
    requires k as real <= x < k as real + 1.0
    ensures x.Floor == k
  {
  }

  /** Dividing a natural by a positive integer divisor as reals and flooring is integer division,
      and the truncated remainder is the integer remainder. */
  lemma {:induction false} DivAsReal(n: nat, d: nat)
    requires d > 0
    ensures (n as real / d as real).Floor == n / d
    ensures JsRem(n as real, d as real) == (n % d) as real
  {
    var q, r := n / d, n % d;
    assert n as real == d as real * q as real + r as real;
    var x := n as real / d as real;
    assert x == q as real + r as real / d as real;
    assert 0.0 <= r as real / d as real < 1.0;
    FloorIs(x, q);
  }

  /** On a non-negative integer the split is the base-256 digits of the colour, and they rebuild it. */
  lemma {:induction false} ChannelsOfNat(n: nat)
    ensures Channels(n as real) == Rgb(n / 65536, (n % 65536) / 256, n % 256)
    ensures n == (n / 65536) * 65536 + ((n % 65536) / 256) * 256 + n % 256
  {
    DivAsReal(n, 65536);
    DivAsReal(n % 65536, 256);
    DivAsReal(n, 256);
    assert Channels(n as real).b == n % 256;
    ByteDigits(n);
  }

  lemma ByteDigits(n: nat)
    ensures n % 256 == (n % 65536) % 256
    ensures n == (n / 65536) * 65536 + ((n % 65536) / 256) * 256 + n % 256
  {
    var q, rem := n / 65536, n % 65536;
    var g, b := rem / 256, rem % 256;
    assert n == q * 65536 + g * 256 + b;
    assert n == (q * 256 + g) * 256 + b;
  }

  /** For colours written as non-negative integers, interpolation starts exactly on the start
      colour and ends exactly on the end colour. */
  lemma {:induction false} StepEndpoints(s: nat, e: nat)
    ensures Step(s as real, Delta(s as real, e as real), 0.0) == s as real
    ensures Step(s as real, Delta(s as real, e as real), 1.0) == e as real
  {
    ChannelsOfNat(s);
    ChannelsOfNat(e);
    var d := Delta(s as real, e as real);
    assert (d.r as real * 1.0).Floor == d.r;
    assert (d.g as real * 1.0).Floor == d.g;
    assert (d.b as real * 1.0).Floor == d.b;
    assert (d.r as real * 0.0).Floor == 0;
    assert (d.g as real * 0.0).Floor == 0;
    assert (d.b as real * 0.0).Floor == 0;
    FloorIs(s as real + 0.5, s);
    FloorIs(e as real + 0.5, e);
  }

  /** 0x00ffff towards 0xff0000 at a quarter: red rises by floor(63.75), green and blue fall
      by floor(-63.75) each, giving 0x3fbfbf rather than a scalar blend. */
  lemma QuarterWayCyanToRed()
    ensures Step(65535.0, Delta(65535.0, 16711680.0), 0.25) == 4177855.0
  {
    ChannelsOfNat(65535);
    ChannelsOfNat(16711680);
    var d := Delta(65535.0, 16711680.0);
    assert d == Rgb(255, -255, -255);
    FloorIs(255.0 * 0.25, 63);
    FloorIs(-255.0 * 0.25, -64);
    FloorIs(4177855.5, 4177855);
  }

  /** `getLuminance`: the HSL lightness, in percent, of the colour's channels. */
  function GetLuminance(color: real): real {
    var c := Channels(color);
    var maxC := Max(Max(c.r, c.g), c.b);
    var minC := Min(Min(c.r, c.g), c.b);
    (maxC + minC) as real * 100.0 / 255.0 / 2.0
  }

  function Max(a: int, b: int): int { if a >= b then a else b }
  function Min(a: int, b: int): int { if a <= b then a else b }

  /** Every channel of a colour in [0, 0xffffff] is a byte. */
  lemma ChannelBounds(color: real)
    requires 0.0 <= color < 16777216.0
    ensures var c := Channels(color); 0 <= c.r < 256 && 0 <= c.g < 256 && 0 <= c.b < 256
  {
    FloorIs(color / RedUnit, (color / RedUnit).Floor);
  }

  /** The luminance of a 24-bit colour is a percentage, and a grey's is its level scaled to 100. */
  lemma LuminanceRange(color: real)
    requires 0.0 <= color < 16777216.0
    ensures 0.0 <= GetLuminance(color) <= 100.0
    ensures var c := Channels(color);
      c.r == c.g == c.b ==> GetLuminance(color) == c.r as real * 100.0 / 255.0
  {
    ChannelBounds(color);
  }
}
