/** Pixel-to-glyph quantisation of the ASCII art converter.

    A pixel's brightness is sqrt(0.241 R² + 0.691 G² + 0.068 B²); it is
    scaled by (N-1)/255 for a ramp of N glyphs, rounded half to even (the
    default of .NET's Math.Round) and used as an index into the ramp.
    The model is exact: brightness is never computed, only compared through
    its square, and the weights are the rationals 241/1000, 691/1000 and
    68/1000. */
module Luminance {
  import Arithmetic

  /** One 8-bit colour channel. */
  type Channel = c: int | 0 <= c <= 255

  datatype Pixel = Pixel(r: Channel, g: Channel, b: Channel)

  const Black := Pixel(0, 0, 0)
  const White := Pixel(255, 255, 255)

  /** The two glyph ramps the converter offers, darkest first. */
  const ColourRamp: string := " .-+*#&%$"
  const MonoRamp: string := " *"

  /** The weights, in thousandths; they add up to exactly one. */
  const WeightR := 241
  const WeightG := 691
  const WeightB := 68
  const WeightScale := 1000

  /** 1000 * 255², the scale that turns an index square into an integer ratio. */
  const Den := WeightScale * 255 * 255

  // ---------------------------------------------------------------------
  // Reference definitions, over the reals

  /** Brightness squared, with the weights written as the source writes them. */
  ghost function BrightnessSquared(p: Pixel): real
  {
    (p.r * p.r) as real * 0.241 + (p.g * p.g) as real * 0.691 + (p.b * p.b) as real * 0.068
  }

  /** The square of the unrounded index brightness / 255 * (n - 1). */
  ghost function IndexSquared(p: Pixel, n: nat): real
  {
    BrightnessSquared(p) / (255.0 * 255.0) * ((n - 1) * (n - 1)) as real
  }

  /** `k` is what rounding half to even gives for the non-negative number
      whose square is `sq`: that number lies strictly within half a unit of
      `k`, or exactly half a unit away and `k` is even. */
  ghost predicate IsRoundedRoot(sq: real, k: int)
  {
    k >= 0 && AboveLow(sq, k) && BelowHigh(sq, k)
  }

  /** The number whose square is `sq` is above k - 1/2, or exactly at it with k even. */
  ghost predicate AboveLow(sq: real, k: int)
  {
    var lo := k as real - 0.5;
    lo < 0.0 || lo * lo < sq || (lo * lo == sq && k % 2 == 0)
  }

  /** The number whose square is `sq` is below k + 1/2, or exactly at it with k even. */
  ghost predicate BelowHigh(sq: real, k: int)
  {
    var hi := k as real + 0.5;
    sq < hi * hi || (sq == hi * hi && k % 2 == 0)
  }

  // ---------------------------------------------------------------------
  // The computation, over the integers

  /** 1000 times the brightness squared. */
  function ScaledSquare(p: Pixel): (s: nat)
    ensures s <= WeightScale * 255 * 255
    ensures s == WeightScale * 255 * 255 <==> p == White
  {
    ChannelSquareBound(p.r);
    ChannelSquareBound(p.g);
    ChannelSquareBound(p.b);
    WeightR * (p.r * p.r) + WeightG * (p.g * p.g) + WeightB * (p.b * p.b)
  }

  /** The largest `j` not above `hi` with j² * den <= num. */
  function FloorRootBelow(num: nat, den: nat, hi: nat): (j: nat)
    requires den > 0
    requires num < (hi + 1) * (hi + 1) * den
    ensures j * j * den <= num < (j + 1) * (j + 1) * den
    decreases hi
  {
    if hi * hi * den <= num then hi else FloorRootBelow(num, den, hi - 1)
  }

  /** floor(sqrt(num / den)). */
  function FloorRoot(num: nat, den: nat): (j: nat)
    requires den > 0
    ensures j * j * den <= num < (j + 1) * (j + 1) * den
  {
    SquareTimesAtLeast(num + 1, den);
    FloorRootBelow(num, den, num)
  }

  /** The square of twice the unrounded index, as the ratio Twice(p, n) / Den. */
  function Twice(p: Pixel, n: nat): nat
  {
    4 * ((n - 1) * (n - 1)) * ScaledSquare(p)
  }

  /** The rounded index: `j` is floor(2x) for the unrounded index x, and the
      tie case is 2x == j exactly. */
  function GlyphIndex(p: Pixel, n: nat): (k: nat)
    requires n >= 1
    ensures k < n
    ensures IsRoundedRoot(IndexSquared(p, n), k)
  {
    var t := Twice(p, n);
    var j := FloorRoot(t, Den);
    var k := HalfEven(j, j * j * Den == t);
    TwiceBound(p, n);
    FloorRootAtMost(t, j, 2 * (n - 1));
    RoundedFromFloor(t, j, k);
    IndexSquaredIsRatio(p, n);
    k
  }

  /** Rounds x half to even, given j == floor(2x) and whether 2x == j. */
  function HalfEven(j: nat, tie: bool): nat
  {
    if j % 2 == 0 then j / 2
    else if tie && (j / 2) % 2 == 0 then j / 2
    else j / 2 + 1
  }

  /** The glyph a pixel is drawn as. */
  function Glyph(p: Pixel, ramp: string): (c: char)
    requires |ramp| >= 1
    ensures c in ramp
  {
    ramp[GlyphIndex(p, |ramp|)]
  }

  // ---------------------------------------------------------------------
  // Helpers

  lemma SquareMono(a: int, b: int)
    requires 0 <= a <= b
    ensures a * a <= b * b
  {
  }

  lemma ChannelSquareBound(c: Channel)
    ensures c * c <= 255 * 255
    ensures c * c == 255 * 255 <==> c == 255
  {
    SquareMono(c, 255);
    if c < 255 {
      assert c * c <= c * 254 <= 255 * 254;
    }
  }

  /** Twice(p, n) is at most (2(n-1))² * Den: the weights add up to one. */
  lemma TwiceBound(p: Pixel, n: nat)
    requires n >= 1
    ensures Twice(p, n) <= (2 * (n - 1)) * (2 * (n - 1)) * Den
  {
    var m := (n - 1) * (n - 1);
    var s := ScaledSquare(p);
    assert 4 * m * s <= 4 * m * (WeightScale * 255 * 255) by {
      assert s <= WeightScale * 255 * 255;
    }
  }

  lemma SquareTimesAtLeast(x: nat, d: nat)
    requires x >= 1 && d >= 1
    ensures x * x * d >= x
  {
    assert x * x >= x * 1;
    assert x * x * d >= x * x * 1;
  }

  lemma SquareStrict(a: int, b: int)
    requires 0 <= a < b
    ensures a * a * Den < b * b * Den
  {
    assert a * a < b * b;
  }

  /** A floor root exceeds no bound whose square (times Den) reaches num. */
  lemma FloorRootAtMost(num: nat, j: nat, b: nat)
    requires j * j * Den <= num <= b * b * Den
    ensures j <= b
  {
    if b < j {
      SquareStrict(b, j);
    }
  }

  /** (a/2)² compared with t / (4 Den), by comparing a² * Den with t. */
  lemma HalfSquare(a: int, t: nat)
    ensures (a as real / 2.0) * (a as real / 2.0) < t as real / (4 * Den) as real <==> a * a * Den < t
    ensures (a as real / 2.0) * (a as real / 2.0) == t as real / (4 * Den) as real <==> a * a * Den == t
  {
    var d := Den as real;
    assert (a as real / 2.0) * (a as real / 2.0) == (a * a) as real / 4.0;
    assert (a * a * Den) as real == (a * a) as real * d;
  }

  /** IsRoundedRoot of t / (4 Den), stated through integer comparisons. */
  lemma RoundedRootByIntegers(t: nat, k: nat)
    ensures IsRoundedRoot(t as real / (4 * Den) as real, k) <==> RoundsTwice(t, k)
  {
    LowByIntegers(t, k);
    HighByIntegers(t, k);
  }

  lemma LowByIntegers(t: nat, k: nat)
    ensures AboveLow(t as real / (4 * Den) as real, k) <==> LowTwice(t, k)
  {
    if k > 0 {
      var lo := k as real - 0.5;
      assert lo >= 0.0;
      ShiftedSquare(t, lo, 2 * k - 1);
    }
  }

  lemma HighByIntegers(t: nat, k: nat)
    ensures BelowHigh(t as real / (4 * Den) as real, k) <==> HighTwice(t, k)
  {
    ShiftedSquare(t, k as real + 0.5, 2 * k + 1);
  }

  /** HalfSquare for a number h given as a / 2. */
  lemma ShiftedSquare(t: nat, h: real, a: int)
    requires h == a as real / 2.0
    ensures h * h < t as real / (4 * Den) as real <==> a * a * Den < t
    ensures h * h == t as real / (4 * Den) as real <==> a * a * Den == t
  {
    HalfSquare(a, t);
  }

  /** The rounding rule applied to the floor of twice the index. */
  lemma RoundedFromFloor(t: nat, j: nat, k: nat)
    requires j * j * Den <= t < (j + 1) * (j + 1) * Den
    requires k == HalfEven(j, j * j * Den == t)
    ensures IsRoundedRoot(t as real / (4 * Den) as real, k)
  {
    RoundedRootByIntegers(t, k);
    if j % 2 == 0 {
      assert j + 1 == 2 * k + 1;
      if k >= 1 {
        SquareStrict(2 * k - 1, j);
      }
    } else if k == j / 2 {
      assert j == 2 * k + 1;
      if k >= 1 {
        SquareStrict(2 * k - 1, j);
      }
    } else {
      assert j == 2 * k - 1;
      SquareStrict(j + 1, 2 * k + 1);
    }
  }

  /** The real index square is the integer ratio that GlyphIndex works with. */
  lemma IndexSquaredIsRatio(p: Pixel, n: nat)
    requires n >= 1
    ensures IndexSquared(p, n) == Twice(p, n) as real / (4 * Den) as real
  {
    var m := ((n - 1) * (n - 1)) as real;
    var s := ScaledSquare(p) as real;
    assert BrightnessSquared(p) == s / 1000.0;
    assert Twice(p, n) as real == 4.0 * m * s;
  }

  lemma FloorRootAtLeast(num: nat, j: nat, b: nat)
    requires b * b * Den <= num < (j + 1) * (j + 1) * Den
    ensures b <= j
  {
    if j < b {
      SquareStrict(j, b);
      SquareMono(j + 1, b);
    }
  }

  // ---------------------------------------------------------------------
  // Properties of the quantisation

  /** The integer form of IsRoundedRoot(t / (4 Den), k), as RoundedRootByIntegers states it. */
  ghost predicate RoundsTwice(t: nat, k: nat)
  {
    LowTwice(t, k) && HighTwice(t, k)
  }

  ghost predicate LowTwice(t: nat, k: nat)
  {
    k == 0 || (2 * k - 1) * (2 * k - 1) * Den < t || ((2 * k - 1) * (2 * k - 1) * Den == t && k % 2 == 0)
  }

  ghost predicate HighTwice(t: nat, k: nat)
  {
    t < (2 * k + 1) * (2 * k + 1) * Den || (t == (2 * k + 1) * (2 * k + 1) * Den && k % 2 == 0)
  }

  /** Of two indices that both round t / (4 Den) half to even, neither is below the other. */
  lemma RoundsTwiceOrdered(t: nat, k1: nat, k2: nat)
    requires RoundsTwice(t, k1) && RoundsTwice(t, k2)
    ensures k2 <= k1
  {
    if k1 < k2 {
      if 2 * k1 + 1 < 2 * k2 - 1 {
        SquareStrict(2 * k1 + 1, 2 * k2 - 1);
      }
    }
  }

  /** The rounding rule determines the index: any k that rounds the
      unrounded index half to even is the one GlyphIndex returns. */
  lemma GlyphIndexIsRounding(p: Pixel, n: nat, k: nat)
    requires n >= 1
    requires IsRoundedRoot(IndexSquared(p, n), k)
    ensures GlyphIndex(p, n) == k
  {
    var t := Twice(p, n);
    IndexSquaredIsRatio(p, n);
    RoundedRootByIntegers(t, k);
    RoundedRootByIntegers(t, GlyphIndex(p, n));
    RoundsTwiceOrdered(t, k, GlyphIndex(p, n));
    RoundsTwiceOrdered(t, GlyphIndex(p, n), k);
  }

  /** A black pixel is drawn with the first glyph of the ramp. */
  lemma BlackIsFirstGlyph(n: nat)
    requires n >= 1
    ensures GlyphIndex(Black, n) == 0
  {
    assert ScaledSquare(Black) == 0;
    var j := FloorRoot(Twice(Black, n), Den);
    FloorRootAtMost(0, j, 0);
  }

  /** A white pixel is drawn with the last glyph of the ramp. */
  lemma WhiteIsLastGlyph(n: nat)
    requires n >= 1
    ensures GlyphIndex(White, n) == n - 1
  {
    var b := 2 * (n - 1);
    var t := Twice(White, n);
    assert t == b * b * Den by {
      assert ScaledSquare(White) == WeightScale * 255 * 255;
    }
    var j := FloorRoot(t, Den);
    FloorRootAtMost(t, j, b);
    FloorRootAtLeast(t, j, b);
  }

  /** A ramp of one glyph draws every pixel with that glyph. */
  lemma SingleGlyphRamp(p: Pixel)
    ensures GlyphIndex(p, 1) == 0
  {
    var j := FloorRoot(Twice(p, 1), Den);
    FloorRootAtMost(0, j, 0);
  }

  /** Rounding half to even, from the floor of twice the value, keeps order. */
  lemma HalfEvenMono(t1: nat, t2: nat, j1: nat, j2: nat)
    requires t1 <= t2
    requires j1 * j1 * Den <= t1 < (j1 + 1) * (j1 + 1) * Den
    requires j2 * j2 * Den <= t2 < (j2 + 1) * (j2 + 1) * Den
    ensures HalfEven(j1, j1 * j1 * Den == t1) <= HalfEven(j2, j2 * j2 * Den == t2)
  {
    FloorRootAtMost(t1, j1, j2 + 1);
    if j1 == j2 + 1 {
      SquareMono(j2 + 1, j1);
    }
  }

  /** A brighter pixel (in the weighted sense) never gets an earlier glyph. */
  lemma GlyphIndexMonotone(p: Pixel, q: Pixel, n: nat)
    requires n >= 1
    requires ScaledSquare(p) <= ScaledSquare(q)
    ensures GlyphIndex(p, n) <= GlyphIndex(q, n)
  {
    var t1, t2 := Twice(p, n), Twice(q, n);
    TwiceMono(p, q, n);
    HalfEvenMono(t1, t2, FloorRoot(t1, Den), FloorRoot(t2, Den));
  }

  lemma TwiceMono(p: Pixel, q: Pixel, n: nat)
    requires ScaledSquare(p) <= ScaledSquare(q)
    ensures Twice(p, n) <= Twice(q, n)
  {
    var m := 4 * ((n - 1) * (n - 1));
    Arithmetic.MulMono(m, ScaledSquare(p), ScaledSquare(q));
  }

  /** Raising any of R, G and B never moves a pixel to an earlier glyph. */
  lemma GlyphIndexMonotoneInChannels(p: Pixel, q: Pixel, n: nat)
    requires n >= 1
    requires p.r <= q.r && p.g <= q.g && p.b <= q.b
    ensures GlyphIndex(p, n) <= GlyphIndex(q, n)
  {
    SquareMono(p.r, q.r);
    SquareMono(p.g, q.g);
    SquareMono(p.b, q.b);
    GlyphIndexMonotone(p, q, n);
  }

  /** Both ramps draw black as a space and white as their brightest glyph. */
  lemma RampEndpoints()
    ensures Glyph(Black, ColourRamp) == ' ' && Glyph(White, ColourRamp) == '$'
    ensures Glyph(Black, MonoRamp) == ' ' && Glyph(White, MonoRamp) == '*'
  {
    BlackIsFirstGlyph(|ColourRamp|);
    WhiteIsLastGlyph(|ColourRamp|);
    BlackIsFirstGlyph(|MonoRamp|);
    WhiteIsLastGlyph(|MonoRamp|);
  }

  /** Neither ramp holds a line break, so every glyph stays on its line. */
  lemma RampsHaveNoLineBreaks()
    ensures forall c :: c in ColourRamp ==> c != '\n' && c != '\r'
    ensures forall c :: c in MonoRamp ==> c != '\n' && c != '\r'
  {
  }
}
