/**
 * Packed colours and the two pure colour functions of the quantiser: the
 * 12-bit downsampling key and the "redmean" colour distance, together with
 * the arg-min scan that picks the nearest palette entry.
 *
 * A colour is a Java `int`. Java's arithmetic shift `c >> k` is floor
 * division by 2^k, which is Dafny's (Euclidean) `c / 2^k` for every int,
 * negative ones included, and `x & (2^m - 1)` is `x % 2^m`. An `|` of bit
 * fields that do not overlap is their sum.
 */
module Colors {

  /** A 32-bit Java int holding 0xAARRGGBB; the alpha byte is ignored. */
  type Color = x: int | -0x8000_0000 <= x < 0x8000_0000

  /** `c >> 16 & 0xff` */
  function Red(c: Color): (v: int)
    ensures 0 <= v < 0x100
  {
    c / 0x1_0000 % 0x100
  }

  /** `c >> 8 & 0xff` */
  function Green(c: Color): (v: int)
    ensures 0 <= v < 0x100
  {
    c / 0x100 % 0x100
  }

  /** `c & 0xff` */
  function Blue(c: Color): (v: int)
    ensures 0 <= v < 0x100
  {
    c % 0x100
  }

  lemma NonNegProduct(a: int, m: int)
    requires m > 0
    ensures a >= 0 ==> a * m >= 0
  {
  }

  /** Quotient and remainder by a positive `m` are the unique `q` and `0 <= rem < m` with `x == q * m + rem`. */
  lemma DivModUnique(x: int, m: int, q: int, rem: int)
    requires 0 < m && 0 <= rem < m && x == q * m + rem
    ensures x / m == q && x % m == rem
  {
    var d := q - x / m;
    assert d * m == x % m - rem;
    NonNegProduct(d - 1, m);
    NonNegProduct(-d - 1, m);
    assert (d - 1) * m == d * m - m;
    assert (-d - 1) * m == -(d * m) - m;
  }

  /** The colour `r << 16 | g << 8 | b` for three 8-bit channels. */
  function Pack(r: int, g: int, b: int): (c: Color)
    requires 0 <= r < 0x100 && 0 <= g < 0x100 && 0 <= b < 0x100
    ensures Red(c) == r && Green(c) == g && Blue(c) == b
    ensures 0 <= c < 0x100_0000
  {
    var c := r * 0x1_0000 + g * 0x100 + b;
    DivModUnique(c, 0x1_0000, r, g * 0x100 + b);
    DivModUnique(c, 0x100, r * 0x100 + g, b);
    DivModUnique(r * 0x100 + g, 0x100, r, g);
    c
  }

  /** Packing the channels of `c` gives back its low 24 bits. */
  lemma PackChannels(c: Color)
    ensures Pack(Red(c), Green(c), Blue(c)) == c % 0x100_0000
  {
    // The quotient-remainder steps below keep the proof within the resource limit.
    var q := c / 0x1_0000;
    assert c == q * 0x1_0000 + c / 0x100 % 0x100 * 0x100 + c % 0x100 by {
      assert c == (c / 0x100) * 0x100 + c % 0x100;
      assert c / 0x100 == q * 0x100 + c / 0x100 % 0x100;
    }
    assert q == (c / 0x100_0000) * 0x100 + q % 0x100;
  }

  // Two facts about composing shifts and masks with constant amounts.

  lemma ShiftCompose(x: int)
    ensures x / 0x1_0000 / 0x10 == x / 0x10_0000
    ensures x / 0x100 / 0x10 == x / 0x1000
  {
    var q := x / 0x10_0000;
    assert x == q * 0x10_0000 + x % 0x10_0000;
    assert x / 0x1_0000 == q * 0x10 + (x % 0x10_0000) / 0x1_0000;
    var p := x / 0x1000;
    assert x == p * 0x1000 + x % 0x1000;
    assert x / 0x100 == p * 0x10 + (x % 0x1000) / 0x100;
  }

  lemma TopNibble(y: int)
    ensures (y % 0x100) / 0x10 == (y / 0x10) % 0x10
  {
    var q := y / 0x100;
    var r := y % 0x100;
    assert y == 0x10 * (0x10 * q + r / 0x10) + r % 0x10;
  }

  /**
   * The 12-bit bucket key of a colour:
   * `((c >> 20 & 0xf) << 8 | (c >> 12 & 0xf) << 4 | (c >> 4 & 0xf)) & 0xfff`.
   * It is made of the top four bits of each 8-bit channel, so it does not
   * depend on the alpha byte nor on the low nibble of any channel.
   */
  function Downsample444(c: Color): (k: int)
    ensures 0 <= k < 0x1000
  {
    (c / 0x10_0000 % 0x10) * 0x100 + (c / 0x1000 % 0x10) * 0x10 + c / 0x10 % 0x10
  }

  /** The key is the top nibble of red, then of green, then of blue. */
  lemma DownsampleChannels(c: Color)
    ensures Downsample444(c) == (Red(c) / 0x10) * 0x100 + (Green(c) / 0x10) * 0x10 + Blue(c) / 0x10
  {
    ShiftCompose(c);
    TopNibble(c / 0x1_0000);
    TopNibble(c / 0x100);
    TopNibble(c);
  }

  /** The alpha byte does not take part in the key. */
  lemma AlphaIgnored(a: Color, b: Color)
    requires a % 0x100_0000 == b % 0x100_0000
    ensures Downsample444(a) == Downsample444(b)
  {
    PackChannels(a);
    PackChannels(b);
    DownsampleChannels(a);
    DownsampleChannels(b);
  }

  /** Two colours whose top nibbles agree in every channel share a key, and only those do. */
  lemma DownsampleKeyIff(a: Color, b: Color)
    ensures Downsample444(a) == Downsample444(b) <==>
      Red(a) / 0x10 == Red(b) / 0x10 && Green(a) / 0x10 == Green(b) / 0x10 && Blue(a) / 0x10 == Blue(b) / 0x10
  {
    DownsampleChannels(a);
    DownsampleChannels(b);
    KeyFields(a);
    KeyFields(b);
  }

  lemma KeyFields(c: Color)
    ensures Downsample444(c) / 0x100 == Red(c) / 0x10
    ensures Downsample444(c) / 0x10 % 0x10 == Green(c) / 0x10
    ensures Downsample444(c) % 0x10 == Blue(c) / 0x10
  {
    DownsampleChannels(c);
    var k, hi, mid, lo := Downsample444(c), Red(c) / 0x10, Green(c) / 0x10, Blue(c) / 0x10;
    DivModUnique(k, 0x100, hi, mid * 0x10 + lo);
    DivModUnique(k, 0x10, hi * 0x10 + mid, lo);
    DivModUnique(hi * 0x10 + mid, 0x10, hi, mid);
  }

  /**
   * The redmean distance multiplied by 512, so that it is an exact integer:
   * `(2 + rbar/256)·dr² + 4·dg² + (2 + (255 - rbar)/256)·db²`
   * with `rbar = (ra + rb)/2` becomes
   * `(1024 + ra + rb)·dr² + 2048·dg² + (1534 - ra - rb)·db²`.
   */
  function Dist(a: Color, b: Color): (d: int)
    ensures d >= 0
  {
    var ra, rb := Red(a), Red(b);
    var dr, dg, db := ra - rb, Green(a) - Green(b), Blue(a) - Blue(b);
    WeightedSquare(1024 + ra + rb, dr);
    WeightedSquare(1534 - ra - rb, db);
    Scaled(ra, rb, dr, dg, db)
  }

  /** The scaled formula on the two red values and the three channel differences. */
  function Scaled(ra: int, rb: int, dr: int, dg: int, db: int): int
  {
    (1024 + ra + rb) * (dr * dr) + 2048 * (dg * dg) + (1534 - ra - rb) * (db * db)
  }

  /** The real-valued formula of the source, before scaling. */
  ghost function RedmeanDist(a: Color, b: Color): real
  {
    Redmean(Red(a), Red(b), Red(a) - Red(b), Green(a) - Green(b), Blue(a) - Blue(b))
  }

  ghost function Redmean(ra: int, rb: int, dr: int, dg: int, db: int): real
  {
    var rbar := (ra + rb) as real / 2.0;
    (2.0 + rbar / 256.0) * (dr * dr) as real + (4 * (dg * dg)) as real
      + (2.0 + (255.0 - rbar) / 256.0) * (db * db) as real
  }

  /** `Dist` is exactly 512 times the source's formula evaluated over the reals. */
  lemma DistIsScaledRedmean(a: Color, b: Color)
    ensures Dist(a, b) as real == 512.0 * RedmeanDist(a, b)
  {
    ScaledWeights(Red(a), Red(b), Red(a) - Red(b), Green(a) - Green(b), Blue(a) - Blue(b));
  }

  /** The scaling step on plain channel values, kept apart from the channel extraction. */
  lemma ScaledWeights(ra: int, rb: int, dr: int, dg: int, db: int)
    ensures Scaled(ra, rb, dr, dg, db) as real == 512.0 * Redmean(ra, rb, dr, dg, db)
  {
    // The scaled weights are spelled out so that the solver need not find them.
    var rbar := (ra + rb) as real / 2.0;
    var x, z := (dr * dr) as real, (db * db) as real;
    assert 512.0 * (2.0 + rbar / 256.0) == (1024 + ra + rb) as real;
    assert 512.0 * (2.0 + (255.0 - rbar) / 256.0) == (1534 - ra - rb) as real;
    assert 512.0 * ((2.0 + rbar / 256.0) * x) == (1024 + ra + rb) as real * x;
    assert 512.0 * ((2.0 + (255.0 - rbar) / 256.0) * z) == (1534 - ra - rb) as real * z;
  }

  lemma WeightedSquare(w: int, x: int)
    requires w >= 1
    ensures w * (x * x) >= 0
    ensures x != 0 ==> w * (x * x) >= w
  {
    if x != 0 {
      assert x * x >= 1;
    }
  }

  /** The distance of two colours is zero exactly when their channels agree. */
  lemma DistZeroIff(a: Color, b: Color)
    ensures Dist(a, b) == 0 <==> Red(a) == Red(b) && Green(a) == Green(b) && Blue(a) == Blue(b)
  {
    var ra, rb := Red(a), Red(b);
    var dr, dg, db := ra - rb, Green(a) - Green(b), Blue(a) - Blue(b);
    WeightedSquare(1024 + ra + rb, dr);
    WeightedSquare(2048, dg);
    WeightedSquare(1534 - ra - rb, db);
  }

  lemma DistSelf(a: Color)
    ensures Dist(a, a) == 0
  {
  }

  lemma DistSymmetric(a: Color, b: Color)
    ensures Dist(a, b) == Dist(b, a)
  {
  }

  /**
   * `k` is the index `nearest_entry` settles on: no entry is closer to `c`,
   * and every earlier entry is strictly farther (the scan only moves on `<`).
   */
  ghost predicate IsNearest(pal: seq<Color>, c: Color, k: int)
  {
    0 <= k < |pal| &&
    (forall j :: 0 <= j < |pal| ==> Dist(c, pal[k]) <= Dist(c, pal[j])) &&
    (forall j :: 0 <= j < k ==> Dist(c, pal[k]) < Dist(c, pal[j]))
  }

  /** `after` is `before` with every colour replaced by its nearest entry of `pal`. */
  ghost predicate Remapped(pal: seq<Color>, before: seq<Color>, after: seq<Color>)
  {
    |before| == |after| &&
    forall i :: 0 <= i < |before| ==> exists k :: IsNearest(pal, before[i], k) && after[i] == pal[k]
  }

  /** Linear scan over every slot of `pal`, keeping the first strict minimum. */
  method NearestEntry(pal: array<Color>, c: Color) returns (index: int)
    requires pal.Length > 0
    ensures IsNearest(pal[..], c, index)
  {
    index := 0;
    var min := Dist(c, pal[0]);
    var i := 1;
    while i < pal.Length
      invariant 1 <= i <= pal.Length
      invariant 0 <= index < i && min == Dist(c, pal[index])
      invariant forall j :: 0 <= j < i ==> min <= Dist(c, pal[j])
      invariant forall j :: 0 <= j < index ==> min < Dist(c, pal[j])
    {
      var d := Dist(c, pal[i]);
      if d < min {
        min := d;
        index := i;
      }
      i := i + 1;
    }
  }
}
