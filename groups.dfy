/**
 * A group (bucket) of colours: running channel sums and a count, its rounded
 * average, and the mutable `Group` object the engine keeps one of per key.
 */
module Groups {
  import opened Colors

  /** The value held by a group: sums of the red, green and blue channels and the count. */
  datatype Bucket = Bucket(r: int, g: int, b: int, n: int)

  const Empty := Bucket(0, 0, 0, 0)

  /** A group's invariant: its sums are sums of `n` 8-bit channel values. */
  predicate Wellformed(x: Bucket)
  {
    0 <= x.n && 0 <= x.r <= 255 * x.n && 0 <= x.g <= 255 * x.n && 0 <= x.b <= 255 * x.n
  }

  /** The group with one more colour in it. */
  function WithColor(x: Bucket, c: Color): Bucket
  {
    Bucket(x.r + Red(c), x.g + Green(c), x.b + Blue(c), x.n + 1)
  }

  /** The group `x` after merging `o` into it. */
  function Plus(x: Bucket, o: Bucket): Bucket
  {
    Bucket(x.r + o.r, x.g + o.g, x.b + o.b, x.n + o.n)
  }

  lemma WithColorWellformed(x: Bucket, c: Color)
    requires Wellformed(x)
    ensures Wellformed(WithColor(x, c))
  {
  }

  lemma PlusWellformed(x: Bucket, o: Bucket)
    requires Wellformed(x) && Wellformed(o)
    ensures Wellformed(Plus(x, o))
  {
  }

  /** Channel `k` of a colour: 0 is red, 1 green, 2 blue. */
  function Channel(c: Color, k: nat): int
    requires k < 3
  {
    if k == 0 then Red(c) else if k == 1 then Green(c) else Blue(c)
  }

  /** Sum `k` of a group, matching `Channel`. */
  function Sum(x: Bucket, k: nat): int
    requires k < 3
  {
    if k == 0 then x.r else if k == 1 then x.g else x.b
  }

  /** Integer division rounding halves up, `(sum + (n >> 1)) / n` for `n > 0`. */
  function RoundedMean(sum: int, n: int): int
    requires n > 0
  {
    (sum + n / 2) / n
  }

  lemma PositiveFactor(a: int, n: int)
    requires n > 0 && a * n > 0
    ensures a > 0
  {
  }

  /** A rounded mean of values in `[lo, hi]` is itself in `[lo, hi]`. */
  lemma RoundedMeanBounds(sum: int, n: int, lo: int, hi: int)
    requires n > 0 && lo * n <= sum <= hi * n
    ensures lo <= RoundedMean(sum, n) <= hi
  {
    var h := n / 2;
    var q := (sum + h) / n;
    var rem := (sum + h) % n;
    assert sum + h == q * n + rem && 0 <= rem < n;
    assert 0 <= h < n;
    assert (q - lo + 1) * n == q * n - lo * n + n;
    PositiveFactor(q - lo + 1, n);
    assert (hi + 1 - q) * n == hi * n + n - q * n;
    PositiveFactor(hi + 1 - q, n);
  }

  /**
   * `avg()`: black for an empty group, otherwise the per-channel rounded
   * mean, masked to 8 bits and packed. Under the invariant each mean already
   * fits in 8 bits, so the masks change nothing and the alpha byte is zero.
   */
  function Avg(x: Bucket): (c: Color)
    requires Wellformed(x)
    ensures x.n == 0 ==> c == 0
    ensures 0 <= c < 0x100_0000
  {
    if x.n == 0 then 0
    else
      RoundedMeanBounds(x.r, x.n, 0, 255);
      RoundedMeanBounds(x.g, x.n, 0, 255);
      RoundedMeanBounds(x.b, x.n, 0, 255);
      Pack(RoundedMean(x.r, x.n) % 0x100, RoundedMean(x.g, x.n) % 0x100, RoundedMean(x.b, x.n) % 0x100)
  }

  /** Each channel of the average of a non-empty group is the rounded mean of that channel. */
  lemma AvgChannels(x: Bucket)
    requires Wellformed(x) && x.n > 0
    ensures Red(Avg(x)) == RoundedMean(x.r, x.n)
    ensures Green(Avg(x)) == RoundedMean(x.g, x.n)
    ensures Blue(Avg(x)) == RoundedMean(x.b, x.n)
  {
    var red, green, blue := RoundedMean(x.r, x.n), RoundedMean(x.g, x.n), RoundedMean(x.b, x.n);
    RoundedMeanBounds(x.r, x.n, 0, 255);
    RoundedMeanBounds(x.g, x.n, 0, 255);
    RoundedMeanBounds(x.b, x.n, 0, 255);
    assert red % 0x100 == red && green % 0x100 == green && blue % 0x100 == blue;
    assert Avg(x) == Pack(red, green, blue);
  }

  /** The group holding exactly the colours `cs`, added in order to an empty group. */
  function Collect(cs: seq<Color>): (x: Bucket)
  {
    if cs == [] then Empty else WithColor(Collect(cs[..|cs| - 1]), cs[|cs| - 1])
  }

  lemma {:induction false} CollectWellformed(cs: seq<Color>)
    ensures Wellformed(Collect(cs)) && Collect(cs).n == |cs|
  {
    if cs != [] {
      CollectWellformed(cs[..|cs| - 1]);
    }
  }

  lemma SumWithColor(x: Bucket, c: Color, k: nat)
    requires k < 3
    ensures Sum(WithColor(x, c), k) == Sum(x, k) + Channel(c, k)
  {
  }

  lemma MulSucc(a: int, m: int)
    ensures a * (m + 1) == a * m + a
  {
  }

  /** If channel `k` of every colour lies in `[lo, hi]`, sum `k` lies in `[lo·n, hi·n]`. */
  lemma {:induction false} CollectSumBounds(cs: seq<Color>, k: nat, lo: int, hi: int)
    requires k < 3
    requires forall i :: 0 <= i < |cs| ==> lo <= Channel(cs[i], k) <= hi
    ensures lo * |cs| <= Sum(Collect(cs), k) <= hi * |cs|
  {
    if cs != [] {
      var init := cs[..|cs| - 1];
      CollectSumBounds(init, k, lo, hi);
      var m := |init|;
      var last := cs[m];
      assert lo <= Channel(last, k) <= hi;
      SumWithColor(Collect(init), last, k);
      MulSucc(lo, m);
      MulSucc(hi, m);
    }
  }

  /**
   * The average of a non-empty group lies, channel by channel, between the
   * smallest and the largest value of that channel among its colours.
   */
  lemma AvgWithinMembers(cs: seq<Color>, k: nat, lo: int, hi: int)
    requires |cs| > 0 && k < 3
    requires forall i :: 0 <= i < |cs| ==> lo <= Channel(cs[i], k) <= hi
    ensures Wellformed(Collect(cs))
    ensures lo <= Channel(Avg(Collect(cs)), k) <= hi
  {
    CollectWellformed(cs);
    CollectSumBounds(cs, k, lo, hi);
    RoundedMeanBounds(Sum(Collect(cs), k), |cs|, lo, hi);
    AvgChannels(Collect(cs));
    assert Channel(Avg(Collect(cs)), k) == RoundedMean(Sum(Collect(cs), k), |cs|);
  }

  lemma LowBitsOfSmall(x: int)
    requires 0 <= x < 0x100_0000
    ensures x % 0x100_0000 == x
  {
  }

  /** Any number of copies of one colour average back to that colour (alpha byte dropped). */
  lemma AvgOfCopies(cs: seq<Color>, c: Color)
    requires |cs| > 0 && forall i :: 0 <= i < |cs| ==> cs[i] == c
    ensures Wellformed(Collect(cs))
    ensures Avg(Collect(cs)) == c % 0x100_0000
  {
    AvgWithinMembers(cs, 0, Red(c), Red(c));
    AvgWithinMembers(cs, 1, Green(c), Green(c));
    AvgWithinMembers(cs, 2, Blue(c), Blue(c));
    var a := Avg(Collect(cs));
    assert Red(a) == Red(c) && Green(a) == Green(c) && Blue(a) == Blue(c);
    assert Pack(Red(a), Green(a), Blue(a)) == Pack(Red(c), Green(c), Blue(c));
    PackChannels(a);
    PackChannels(c);
    LowBitsOfSmall(a);
  }

  /** Adding black and then 0x020202 to a cleared group averages to 0x010101: `(0 + 2 + 1) / 2 == 1`. */
  lemma AvgRoundsHalfUp()
    ensures Wellformed(WithColor(WithColor(Empty, 0x000000), 0x020202))
    ensures Avg(WithColor(WithColor(Empty, 0x000000), 0x020202)) == 0x010101
  {
    assert WithColor(WithColor(Empty, 0x000000), 0x020202) == Bucket(2, 2, 2, 2);
    assert RoundedMean(2, 2) == 1;
    AvgChannels(Bucket(2, 2, 2, 2));
  }

  /** One entry of the engine's group table. */
  class Group {
    var r: int
    var g: int
    var b: int
    var n: int

    function Val(): Bucket
      reads this
    {
      Bucket(r, g, b, n)
    }

    ghost predicate Valid()
      reads this
    {
      Wellformed(Val())
    }

    /** A cleared group. */
    constructor ()
      ensures Val() == Empty
    {
      r, g, b, n := 0, 0, 0, 0;
    }

    /** `add(int c)`: adds each 8-bit channel of `c` to its sum and counts it. */
    method Add(c: Color)
      requires Valid()
      modifies this
      ensures Valid()
      ensures Val() == WithColor(old(Val()), c)
    {
      r := r + Red(c);
      g := g + Green(c);
      b := b + Blue(c);
      n := n + 1;
    }

    /** `add(Group o)`: folds the sums and count of `o` into this group. */
    method Merge(o: Group)
      requires Valid() && o.Valid()
      modifies this
      ensures Valid()
      ensures Val() == Plus(old(Val()), old(o.Val()))
    {
      r, g, b, n := r + o.r, g + o.g, b + o.b, n + o.n;
    }

    /** `clear()`: back to an empty group. */
    method Clear()
      modifies this
      ensures Valid()
      ensures Val() == Empty
    {
      r, g, b, n := 0, 0, 0, 0;
    }
  }
}
