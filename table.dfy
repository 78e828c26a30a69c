/**
 * The group table as a value: 4096 buckets indexed by the downsampled key,
 * the tallies the engine reads off it, filling it from an image, and the
 * palette that its non-empty groups produce.
 */
module Table {
  import opened Colors
  import opened Groups

  /** `map.length`: one group per 12-bit key. */
  const Size := 0x1000

  /** `palette.length`. */
  const PaletteSize := 256

  /** The table with every group cleared. */
  const Cleared: seq<Bucket> := seq(Size, _ => Empty)

  lemma PlusEmpty(x: Bucket)
    ensures Plus(x, Empty) == x
  {
  }

  predicate NonEmpty(x: Bucket)
  {
    x.n != 0
  }

  ghost predicate AllWellformed(gs: seq<Bucket>)
  {
    forall i :: 0 <= i < |gs| ==> Wellformed(gs[i])
  }

  /** The number of non-empty groups. */
  function Count(gs: seq<Bucket>): (k: nat)
    ensures k <= |gs|
  {
    if gs == [] then 0
    else Count(gs[..|gs| - 1]) + (if NonEmpty(gs[|gs| - 1]) then 1 else 0)
  }

  /**
   * The sum of `index + 1` over the non-empty groups. Moving a group one
   * slot to the left, or folding it into its left neighbour, lowers it.
   */
  function Weight(gs: seq<Bucket>): nat
  {
    if gs == [] then 0
    else Weight(gs[..|gs| - 1]) + (if NonEmpty(gs[|gs| - 1]) then |gs| else 0)
  }

  /** The componentwise sum of all the groups. */
  function Total(gs: seq<Bucket>): Bucket
  {
    if gs == [] then Empty else Plus(Total(gs[..|gs| - 1]), gs[|gs| - 1])
  }

  lemma {:induction false} CountUpdate(gs: seq<Bucket>, j: nat, x: Bucket)
    requires j < |gs|
    ensures Count(gs[j := x]) + (if NonEmpty(gs[j]) then 1 else 0) == Count(gs) + (if NonEmpty(x) then 1 else 0)
  {
    var m := |gs| - 1;
    if j == m {
      assert gs[j := x][..m] == gs[..m];
    } else {
      assert gs[j := x][..m] == gs[..m][j := x];
      CountUpdate(gs[..m], j, x);
    }
  }

  lemma {:induction false} WeightUpdate(gs: seq<Bucket>, j: nat, x: Bucket)
    requires j < |gs|
    ensures Weight(gs[j := x]) + (if NonEmpty(gs[j]) then j + 1 else 0) == Weight(gs) + (if NonEmpty(x) then j + 1 else 0)
  {
    var m := |gs| - 1;
    if j == m {
      assert gs[j := x][..m] == gs[..m];
    } else {
      assert gs[j := x][..m] == gs[..m][j := x];
      WeightUpdate(gs[..m], j, x);
    }
  }

  lemma {:induction false} TotalUpdate(gs: seq<Bucket>, j: nat, x: Bucket)
    requires j < |gs|
    ensures Plus(Total(gs[j := x]), gs[j]) == Plus(Total(gs), x)
  {
    var m := |gs| - 1;
    if j == m {
      assert gs[j := x][..m] == gs[..m];
    } else {
      assert gs[j := x][..m] == gs[..m][j := x];
      TotalUpdate(gs[..m], j, x);
    }
  }

  /** A table of cleared groups totals to nothing. */
  lemma {:induction false} ClearedTotal(gs: seq<Bucket>)
    requires forall i :: 0 <= i < |gs| ==> gs[i] == Empty
    ensures Total(gs) == Empty
  {
    if gs != [] {
      var init, last := gs[..|gs| - 1], gs[|gs| - 1];
      ClearedTotal(init);
      assert last == Empty;
      PlusEmpty(Empty);
    }
  }

  lemma {:induction false} CountPositive(gs: seq<Bucket>)
    requires Count(gs) > 0
    ensures exists j :: 0 <= j < |gs| && NonEmpty(gs[j])
  {
    var m := |gs| - 1;
    if !NonEmpty(gs[m]) {
      CountPositive(gs[..m]);
      var j :| 0 <= j < m && NonEmpty(gs[..m][j]);
      assert gs[j] == gs[..m][j];
    }
  }

  /** With no negative counts, no single group holds more colours than the whole table. */
  lemma {:induction false} GroupWithinTotal(gs: seq<Bucket>, j: nat)
    requires j < |gs|
    requires forall i :: 0 <= i < |gs| ==> gs[i].n >= 0
    ensures gs[j].n <= Total(gs).n
  {
    var m := |gs| - 1;
    if j < m {
      GroupWithinTotal(gs[..m], j);
    } else {
      TotalNonNegative(gs[..m]);
    }
  }

  lemma {:induction false} TotalNonNegative(gs: seq<Bucket>)
    requires forall i :: 0 <= i < |gs| ==> gs[i].n >= 0
    ensures Total(gs).n >= 0
  {
    if gs != [] {
      TotalNonNegative(gs[..|gs| - 1]);
    }
  }

  /** No group of a table whose total is at most `bound` is larger than `bound`. */
  lemma WithinBound(gs: seq<Bucket>, bound: int)
    requires forall j :: 0 <= j < |gs| ==> gs[j].n >= 0
    requires Total(gs).n <= bound
    ensures forall j :: 0 <= j < |gs| ==> 0 <= gs[j].n <= bound
  {
    forall j | 0 <= j < |gs|
      ensures gs[j].n <= bound
    {
      GroupWithinTotal(gs, j);
    }
  }

  // ----- group(image) -----

  /** The table after `map[downsample444(p)].add(p)` for every pixel `p` of `img`, in order. */
  function AddPixels(gs: seq<Bucket>, img: seq<Color>): (hs: seq<Bucket>)
    requires |gs| == Size
    ensures |hs| == Size
  {
    if img == [] then gs
    else
      var hs := AddPixels(gs, img[..|img| - 1]);
      var p := img[|img| - 1];
      var k := Downsample444(p);
      hs[k := WithColor(hs[k], p)]
  }

  /** Grouping one more pixel of `img` adds it to the group of its key. */
  lemma AddPixelsNext(gs: seq<Bucket>, img: seq<Color>, i: nat)
    requires |gs| == Size && i < |img|
    ensures var hs := AddPixels(gs, img[..i]); var k := Downsample444(img[i]);
      AddPixels(gs, img[..i + 1]) == hs[k := WithColor(hs[k], img[i])]
  {
    var seen := img[..i + 1];
    assert seen[..i] == img[..i] && seen[i] == img[i];
  }

  /** The pixels of `img` whose key is `k`, in image order. */
  function InBucket(img: seq<Color>, k: int): seq<Color>
  {
    if img == [] then []
    else
      var p := img[|img| - 1];
      InBucket(img[..|img| - 1], k) + (if Downsample444(p) == k then [p] else [])
  }

  /** Every group ends up holding exactly the pixels of its key, on top of what it held before. */
  lemma {:induction false} AddPixelsGroups(gs: seq<Bucket>, img: seq<Color>, k: nat)
    requires |gs| == Size && k < Size
    ensures AddPixels(gs, img)[k] == Plus(gs[k], Collect(InBucket(img, k)))
  {
    if img != [] {
      var init := img[..|img| - 1];
      var p := img[|img| - 1];
      AddPixelsGroups(gs, init, k);
      var before := InBucket(init, k);
      if Downsample444(p) == k {
        CollectSnoc(before, p);
        PlusWithColor(gs[k], Collect(before), p);
      } else {
        assert InBucket(img, k) == before + [] == before;
      }
    }
  }

  lemma CollectSnoc(cs: seq<Color>, p: Color)
    ensures Collect(cs + [p]) == WithColor(Collect(cs), p)
  {
    var ms := cs + [p];
    assert ms[..|ms| - 1] == cs;
  }

  lemma PlusWithColor(x: Bucket, o: Bucket, p: Color)
    ensures Plus(x, WithColor(o, p)) == WithColor(Plus(x, o), p)
  {
  }

  /** Grouping adds one to the total count per pixel. */
  lemma {:induction false} AddPixelsTotal(gs: seq<Bucket>, img: seq<Color>)
    requires |gs| == Size
    ensures Total(AddPixels(gs, img)).n == Total(gs).n + |img|
  {
    if img != [] {
      var init := img[..|img| - 1];
      var p := img[|img| - 1];
      var hs := AddPixels(gs, init);
      AddPixelsTotal(gs, init);
      TotalUpdate(hs, Downsample444(p), WithColor(hs[Downsample444(p)], p));
    }
  }

  /** On an empty table, a key has a non-empty group exactly when some pixel has that key. */
  lemma AddPixelsNonEmpty(gs: seq<Bucket>, img: seq<Color>, k: nat)
    requires |gs| == Size && k < Size && gs[k] == Empty
    ensures NonEmpty(AddPixels(gs, img)[k]) <==> exists i :: 0 <= i < |img| && Downsample444(img[i]) == k
  {
    AddPixelsGroups(gs, img, k);
    CollectWellformed(InBucket(img, k));
    InBucketMembers(img, k);
  }

  lemma {:induction false} InBucketMembers(img: seq<Color>, k: int)
    ensures |InBucket(img, k)| > 0 <==> exists i :: 0 <= i < |img| && Downsample444(img[i]) == k
  {
    if img != [] {
      var init := img[..|img| - 1];
      InBucketMembers(init, k);
      if exists i :: 0 <= i < |init| && Downsample444(init[i]) == k {
        var i :| 0 <= i < |init| && Downsample444(init[i]) == k;
        assert img[i] == init[i];
      }
      if Downsample444(img[|img| - 1]) != k {
        forall i | 0 <= i < |img| && Downsample444(img[i]) == k
          ensures exists i' :: 0 <= i' < |init| && Downsample444(init[i']) == k
        {
          assert init[i] == img[i];
        }
      }
    }
  }

  // ----- create_palette() -----

  /** The averages of the non-empty groups, in ascending group index. */
  function Averages(gs: seq<Bucket>): (a: seq<Color>)
    requires AllWellformed(gs)
    ensures |a| == Count(gs)
  {
    if gs == [] then []
    else
      var last := gs[|gs| - 1];
      Averages(gs[..|gs| - 1]) + (if NonEmpty(last) then [Avg(last)] else [])
  }

  /**
   * There is one average per non-empty group, and the average of the
   * non-empty group `j` sits at the number of non-empty groups before `j`.
   */
  lemma {:induction false} AveragesPlacement(gs: seq<Bucket>)
    requires AllWellformed(gs)
    ensures |Averages(gs)| == Count(gs)
    ensures forall j :: 0 <= j < |gs| && NonEmpty(gs[j]) ==>
      Count(gs[..j]) < |Averages(gs)| && Averages(gs)[Count(gs[..j])] == Avg(gs[j])
  {
    if gs != [] {
      var m := |gs| - 1;
      var init := gs[..m];
      AveragesPlacement(init);
      forall j | 0 <= j < |gs| && NonEmpty(gs[j])
        ensures Count(gs[..j]) < |Averages(gs)| && Averages(gs)[Count(gs[..j])] == Avg(gs[j])
      {
        if j < m {
          assert gs[..j] == init[..j];
        } else {
          assert gs[..j] == init;
        }
      }
    }
  }

  /** Extending a prefix by one group extends its count and its averages by that group. */
  lemma NextPrefix(gs: seq<Bucket>, i: nat)
    requires AllWellformed(gs) && i < |gs|
    ensures AllWellformed(gs[..i]) && AllWellformed(gs[..i + 1])
    ensures Count(gs[..i + 1]) == Count(gs[..i]) + (if NonEmpty(gs[i]) then 1 else 0)
    ensures Averages(gs[..i + 1]) == Averages(gs[..i]) + (if NonEmpty(gs[i]) then [Avg(gs[i])] else [])
    ensures Count(gs[..i + 1]) <= Count(gs)
  {
    var seen := gs[..i + 1];
    assert seen[..i] == gs[..i];
    CountPrefix(gs, i + 1);
  }

  /** The non-empty count of a prefix does not exceed that of the whole table. */
  lemma {:induction false} CountPrefix(gs: seq<Bucket>, k: nat)
    requires k <= |gs|
    ensures Count(gs[..k]) <= Count(gs)
  {
    if k < |gs| {
      var m := |gs| - 1;
      assert gs[..m][..k] == gs[..k];
      CountPrefix(gs[..m], k);
    } else {
      assert gs[..k] == gs;
    }
  }
}
