/**
 * One `prune(min)` pass as a value: an ascending fold over the group table
 * that mirrors the loop of the source step by step, together with what a
 * pass is proved to do.
 */
module Pruning {
  import opened Groups
  import opened Table

  /** `0x7fffffff`, the value `min_size` starts each pass with. */
  const NoSize := 0x7fff_ffff

  /**
   * The variables of the pass after some prefix of the table: the table
   * itself, `min_size`, the running count `c`, `colors` and `stop_pruning`.
   */
  datatype Scan = Scan(groups: seq<Bucket>, minSize: int, c: int, colors: int, stop: bool)

  /** A group the threshold `min` asks to fold into its left neighbour. */
  predicate Eligible(x: Bucket, min: int)
  {
    x.n != 0 && x.n <= min
  }

  /** The body of the loop for index `i`. */
  function Step(s: Scan, i: nat, min: int): (t: Scan)
    requires i < |s.groups|
    ensures |t.groups| == |s.groups|
  {
    var x := s.groups[i];
    if x.n == 0 then s
    else
      var minSize := if x.n < s.minSize then x.n else s.minSize;
      var merge := x.n <= min && !s.stop;
      var groups :=
        if !merge then s.groups
        else if i > 0 then s.groups[i - 1 := Plus(s.groups[i - 1], x)][i := Empty]
        else s.groups[i := Empty];
      var c := if merge then s.c - 1 else s.c;
      Scan(groups, minSize, c, s.colors + 1, s.stop || (x.n <= min && c < 256))
  }

  /** The state after the loop has handled indices `0 .. k-1`, starting from `colors == c0`. */
  function ScanTo(gs: seq<Bucket>, min: int, c0: int, k: nat): (t: Scan)
    requires k <= |gs|
    ensures |t.groups| == |gs|
  {
    if k == 0 then Scan(gs, NoSize, c0, 0, false)
    else Step(ScanTo(gs, min, c0, k - 1), k - 1, min)
  }

  /** A whole pass `prune(min)` over `gs` when `colors` held `c0`. */
  function Pass(gs: seq<Bucket>, min: int, c0: int): (t: Scan)
    ensures |t.groups| == |gs|
  {
    ScanTo(gs, min, c0, |gs|)
  }

  /** The pass folds group `i` into `i - 1` (or drops it, for `i == 0`) and clears it. */
  predicate Merged(gs: seq<Bucket>, min: int, c0: int, i: nat)
    requires i < |gs|
  {
    Eligible(gs[i], min) && !ScanTo(gs, min, c0, i).stop
  }

  /** What group `j` held before the pass, unless the pass moved it out. */
  function Kept(gs: seq<Bucket>, min: int, c0: int, j: nat): Bucket
    requires j < |gs|
  {
    if Merged(gs, min, c0, j) then Empty else gs[j]
  }

  /** What group `j` received from its right neighbour during the pass. */
  function Received(gs: seq<Bucket>, min: int, c0: int, j: nat): Bucket
    requires j < |gs|
  {
    if j + 1 < |gs| && Merged(gs, min, c0, j + 1) then gs[j + 1] else Empty
  }

  /** The number of groups merged at indices below `k`. */
  function MergeCount(gs: seq<Bucket>, min: int, c0: int, k: nat): nat
    requires k <= |gs|
  {
    if k == 0 then 0
    else MergeCount(gs, min, c0, k - 1) + (if Merged(gs, min, c0, k - 1) then 1 else 0)
  }

  // ----- the fold, one index at a time -----

  /** The groups the loop has not reached yet are untouched. */
  lemma {:induction false} ScanSuffix(gs: seq<Bucket>, min: int, c0: int, k: nat)
    requires k <= |gs|
    ensures forall j :: k <= j < |gs| ==> ScanTo(gs, min, c0, k).groups[j] == gs[j]
  {
    if k > 0 {
      ScanSuffix(gs, min, c0, k - 1);
    }
  }

  /** The fold merges at `k` exactly when `Merged` says so. */
  lemma ScanMerges(gs: seq<Bucket>, min: int, c0: int, k: nat)
    requires k < |gs|
    ensures var s := ScanTo(gs, min, c0, k);
      s.groups[k] == gs[k] &&
      ((gs[k].n != 0 && gs[k].n <= min && !s.stop) <==> Merged(gs, min, c0, k))
  {
    ScanSuffix(gs, min, c0, k);
  }

  /** What one step does to the table. */
  lemma StepGroups(s: Scan, i: nat, min: int)
    requires i < |s.groups|
    ensures var t := Step(s, i, min);
      var merge := s.groups[i].n != 0 && s.groups[i].n <= min && !s.stop;
      (!merge ==> t.groups == s.groups) &&
      (merge ==> t.groups[i] == Empty) &&
      (merge && i > 0 ==> t.groups[i - 1] == Plus(s.groups[i - 1], s.groups[i])) &&
      (forall j :: 0 <= j < |s.groups| && j != i && j + 1 != i ==> t.groups[j] == s.groups[j])
  {
  }

  /**
   * Group `j` of the prefix already handled has its final shape, apart from
   * what index `k` may still pass to its left neighbour.
   */
  lemma {:induction false} ShapeAt(gs: seq<Bucket>, min: int, c0: int, k: nat, j: nat)
    requires j < k <= |gs|
    ensures ScanTo(gs, min, c0, k).groups[j] ==
      Plus(Kept(gs, min, c0, j), if j + 1 < k then Received(gs, min, c0, j) else Empty)
  {
    var i := k - 1;
    ScanMerges(gs, min, c0, i);
    var s := ScanTo(gs, min, c0, i);
    var t := ScanTo(gs, min, c0, k);
    assert t == Step(s, i, min);
    StepGroups(s, i, min);
    var kept := Kept(gs, min, c0, j);
    PlusEmpty(kept);
    if j == i {
      assert t.groups[j] == kept;
    } else {
      ShapeAt(gs, min, c0, i, j);
      if j + 1 == i {
        assert s.groups[j] == kept;
        if Merged(gs, min, c0, i) {
          assert t.groups[j] == Plus(kept, gs[i]);
        } else {
          assert t.groups[j] == kept;
        }
      } else {
        assert t.groups[j] == s.groups[j];
      }
    }
  }

  /**
   * After a pass every group holds what it kept of its own plus what its
   * right neighbour passed into it. A merged group is cleared when it is
   * reached; it ends the pass holding only its right neighbour's content
   * if that neighbour was merged too. Group 0's content, when merged, is
   * dropped. A group larger than `min` is never merged, so it changes only
   * by receiving.
   */
  lemma PassShape(gs: seq<Bucket>, min: int, c0: int)
    ensures forall j :: 0 <= j < |gs| ==>
      Pass(gs, min, c0).groups[j] == Plus(Kept(gs, min, c0, j), Received(gs, min, c0, j))
  {
    forall j | 0 <= j < |gs|
      ensures Pass(gs, min, c0).groups[j] == Plus(Kept(gs, min, c0, j), Received(gs, min, c0, j))
    {
      ShapeAt(gs, min, c0, |gs|, j);
      if j + 1 >= |gs| {
        PlusEmpty(Kept(gs, min, c0, j));
      }
    }
  }

  /** `colors` counts the groups that were non-empty when the loop reached them, i.e. at the start. */
  lemma {:induction false} ScanColors(gs: seq<Bucket>, min: int, c0: int, k: nat)
    requires k <= |gs|
    ensures ScanTo(gs, min, c0, k).colors == Count(gs[..k])
  {
    if k > 0 {
      ScanColors(gs, min, c0, k - 1);
      ScanMerges(gs, min, c0, k - 1);
      assert gs[..k][..k - 1] == gs[..k - 1];
    }
  }

  /** `min_size` is the smallest size among the non-empty groups reached, or `0x7fffffff`. */
  lemma {:induction false} ScanMinSize(gs: seq<Bucket>, min: int, c0: int, k: nat)
    requires k <= |gs|
    ensures var m := ScanTo(gs, min, c0, k).minSize;
      m <= NoSize &&
      (forall j :: 0 <= j < k && NonEmpty(gs[j]) ==> m <= gs[j].n) &&
      (m == NoSize || exists j :: 0 <= j < k && NonEmpty(gs[j]) && gs[j].n == m)
  {
    if k > 0 {
      ScanMinSize(gs, min, c0, k - 1);
      ScanMerges(gs, min, c0, k - 1);
    }
  }

  /** `stop_pruning`, once raised, stays raised. */
  lemma {:induction false} StopStays(gs: seq<Bucket>, min: int, c0: int, i: nat, k: nat)
    requires i <= k <= |gs|
    requires ScanTo(gs, min, c0, i).stop
    ensures ScanTo(gs, min, c0, k).stop
  {
    if i < k {
      StopStays(gs, min, c0, i, k - 1);
    }
  }

  /** The merged groups are a prefix of the eligible ones: an eligible group before a merged one is merged. */
  lemma MergedPrefix(gs: seq<Bucket>, min: int, c0: int, i: nat, j: nat)
    requires i < j < |gs|
    requires Merged(gs, min, c0, j) && Eligible(gs[i], min)
    ensures Merged(gs, min, c0, i)
  {
    if ScanTo(gs, min, c0, i).stop {
      StopStays(gs, min, c0, i, j);
    }
  }

  /** `c` has been lowered once per merged group. */
  lemma {:induction false} ScanCounter(gs: seq<Bucket>, min: int, c0: int, k: nat)
    requires k <= |gs|
    ensures ScanTo(gs, min, c0, k).c == c0 - MergeCount(gs, min, c0, k)
  {
    if k > 0 {
      ScanCounter(gs, min, c0, k - 1);
      ScanMerges(gs, min, c0, k - 1);
    }
  }

  /** Starting above 256, `c` never goes below 255, and it is at least 256 until the flag is raised. */
  lemma {:induction false} CounterFloor(gs: seq<Bucket>, min: int, c0: int, k: nat)
    requires k <= |gs| && c0 > 256
    ensures var s := ScanTo(gs, min, c0, k); s.c >= 255 && (!s.stop ==> s.c >= 256)
  {
    if k > 0 {
      CounterFloor(gs, min, c0, k - 1);
    }
  }

  /**
   * A pass that starts with `c > 256` clears at most `c − 255` groups: it
   * stops merging as soon as the count drops below 256.
   */
  lemma PassMergeBound(gs: seq<Bucket>, min: int, c0: int)
    requires c0 > 256
    ensures MergeCount(gs, min, c0, |gs|) <= c0 - 255
  {
    ScanCounter(gs, min, c0, |gs|);
    CounterFloor(gs, min, c0, |gs|);
  }

  /** Once the flag is raised no later group is merged in that pass. */
  lemma NoMergeAfterStop(gs: seq<Bucket>, min: int, c0: int, i: nat, j: nat)
    requires i <= j < |gs|
    requires ScanTo(gs, min, c0, i).stop
    ensures !Merged(gs, min, c0, j)
  {
    StopStays(gs, min, c0, i, j);
  }

  /** Merging into the left neighbour moves counts and sums; only a merge of group 0 loses them. */
  lemma {:induction false} ScanTotal(gs: seq<Bucket>, min: int, c0: int, k: nat)
    requires k <= |gs|
    ensures Plus(Total(ScanTo(gs, min, c0, k).groups), if k > 0 && Merged(gs, min, c0, 0) then gs[0] else Empty) == Total(gs)
  {
    if k == 0 {
      PlusEmpty(Total(gs));
    } else {
      var i := k - 1;
      ScanTotal(gs, min, c0, i);
      ScanMerges(gs, min, c0, i);
      StepTotal(ScanTo(gs, min, c0, i), i, min);
      if i > 0 {
        PlusEmpty(Total(ScanTo(gs, min, c0, k).groups));
      }
    }
  }

  /** One step keeps the total, less group 0's content when it drops group 0. */
  lemma StepTotal(s: Scan, i: nat, min: int)
    requires i < |s.groups|
    ensures var merge := Eligible(s.groups[i], min) && !s.stop;
      Plus(Total(Step(s, i, min).groups), if merge && i == 0 then s.groups[0] else Empty) == Total(s.groups)
  {
    var x := s.groups[i];
    if Eligible(x, min) && !s.stop {
      if i > 0 {
        var mid := s.groups[i - 1 := Plus(s.groups[i - 1], x)];
        TotalUpdate(s.groups, i - 1, Plus(s.groups[i - 1], x));
        assert mid[i] == x;
        TotalUpdate(mid, i, Empty);
        PlusEmpty(Total(mid));
        PlusEmpty(Total(Step(s, i, min).groups));
      } else {
        TotalUpdate(s.groups, 0, Empty);
        PlusEmpty(Total(s.groups));
      }
    } else {
      PlusEmpty(Total(s.groups));
    }
  }

  /** The totals of `n`, `r`, `g` and `b` survive a pass, less group 0's content if group 0 was merged. */
  lemma PassTotal(gs: seq<Bucket>, min: int, c0: int)
    requires |gs| > 0
    ensures Plus(Total(Pass(gs, min, c0).groups), if Merged(gs, min, c0, 0) then gs[0] else Empty) == Total(gs)
  {
    ScanTotal(gs, min, c0, |gs|);
  }

  /** Each merge lowers the non-empty count by one or leaves it; nothing raises it. */
  lemma {:induction false} ScanCount(gs: seq<Bucket>, min: int, c0: int, k: nat)
    requires k <= |gs|
    ensures Count(ScanTo(gs, min, c0, k).groups) <= Count(gs)
  {
    if k > 0 {
      var i := k - 1;
      ScanCount(gs, min, c0, i);
      ScanMerges(gs, min, c0, i);
      var s := ScanTo(gs, min, c0, i);
      if Merged(gs, min, c0, i) {
        var x := gs[i];
        var mid := if i > 0 then s.groups[i - 1 := Plus(s.groups[i - 1], x)] else s.groups;
        if i > 0 {
          CountUpdate(s.groups, i - 1, Plus(s.groups[i - 1], x));
        }
        assert mid[i] == x;
        CountUpdate(mid, i, Empty);
      }
    }
  }

  /** The number of non-empty groups never increases in a pass. */
  lemma PassCount(gs: seq<Bucket>, min: int, c0: int)
    ensures Count(Pass(gs, min, c0).groups) <= Count(gs)
  {
    ScanCount(gs, min, c0, |gs|);
  }

  /** Until the first eligible group everything is as it was; from it on the weight is lower. */
  lemma {:induction false} ScanWeight(gs: seq<Bucket>, min: int, c0: int, k: nat)
    requires k <= |gs|
    ensures var s := ScanTo(gs, min, c0, k);
      Weight(s.groups) <= Weight(gs) &&
      ((exists j :: 0 <= j < k && Eligible(gs[j], min)) ==> Weight(s.groups) < Weight(gs)) &&
      ((forall j :: 0 <= j < k ==> !Eligible(gs[j], min)) ==> s.groups == gs && !s.stop)
  {
    if k > 0 {
      var i := k - 1;
      ScanWeight(gs, min, c0, i);
      ScanMerges(gs, min, c0, i);
      var s := ScanTo(gs, min, c0, i);
      var t := ScanTo(gs, min, c0, k);
      if Merged(gs, min, c0, i) {
        var x := gs[i];
        var mid := if i > 0 then s.groups[i - 1 := Plus(s.groups[i - 1], x)] else s.groups;
        if i > 0 {
          WeightUpdate(s.groups, i - 1, Plus(s.groups[i - 1], x));
        }
        assert mid[i] == x;
        WeightUpdate(mid, i, Empty);
        assert Weight(t.groups) < Weight(s.groups);
      }
      if exists j :: 0 <= j < k && Eligible(gs[j], min) {
        if forall j :: 0 <= j < i ==> !Eligible(gs[j], min) {
          assert Eligible(gs[i], min);
          assert Merged(gs, min, c0, i);
        }
      }
    }
  }

  /**
   * A pass that meets an eligible group lowers the weight (so the passes
   * of `to256` cannot go on for ever); one that meets none changes no group.
   */
  lemma PassProgress(gs: seq<Bucket>, min: int, c0: int)
    ensures (exists j :: 0 <= j < |gs| && Eligible(gs[j], min)) ==> Weight(Pass(gs, min, c0).groups) < Weight(gs)
    ensures (forall j :: 0 <= j < |gs| ==> !Eligible(gs[j], min)) ==> Pass(gs, min, c0).groups == gs
  {
    ScanWeight(gs, min, c0, |gs|);
  }

  /**
   * `prune(0)`, the first pass of `to256`, changes no group when no count is
   * negative; it only sets `colors` to the number of non-empty groups and
   * `min_size` to the smallest non-empty size (`0x7fffffff` if there is none).
   */
  lemma PruneZero(gs: seq<Bucket>, c0: int)
    requires forall j :: 0 <= j < |gs| ==> gs[j].n >= 0
    requires forall j :: 0 <= j < |gs| ==> gs[j].n <= NoSize
    ensures var s := Pass(gs, 0, c0);
      s.groups == gs && s.colors == Count(gs) &&
      (forall j :: 0 <= j < |gs| && NonEmpty(gs[j]) ==> s.minSize <= gs[j].n) &&
      ((exists j :: 0 <= j < |gs| && NonEmpty(gs[j])) ==> exists j :: 0 <= j < |gs| && NonEmpty(gs[j]) && gs[j].n == s.minSize) &&
      ((forall j :: 0 <= j < |gs| ==> !NonEmpty(gs[j])) ==> s.minSize == NoSize)
  {
    PassProgress(gs, 0, c0);
    ScanColors(gs, 0, c0, |gs|);
    assert gs[..|gs|] == gs;
    PassMinSize(gs, 0, c0);
  }

  /** `min_size` after a pass, in terms of the groups at its start. */
  lemma PassMinSize(gs: seq<Bucket>, min: int, c0: int)
    requires forall j :: 0 <= j < |gs| ==> gs[j].n <= NoSize
    ensures var m := Pass(gs, min, c0).minSize;
      (forall j :: 0 <= j < |gs| && NonEmpty(gs[j]) ==> m <= gs[j].n) &&
      ((exists j :: 0 <= j < |gs| && NonEmpty(gs[j])) ==> exists j :: 0 <= j < |gs| && NonEmpty(gs[j]) && gs[j].n == m) &&
      ((forall j :: 0 <= j < |gs| ==> !NonEmpty(gs[j])) ==> m == NoSize)
  {
    ScanMinSize(gs, min, c0, |gs|);
    var m := Pass(gs, min, c0).minSize;
    if m == NoSize && exists j :: 0 <= j < |gs| && NonEmpty(gs[j]) {
      var j :| 0 <= j < |gs| && NonEmpty(gs[j]);
      assert gs[j].n == m;
    }
  }

  /** After a pass `colors` is the number of groups that were non-empty when it began. */
  lemma PassColors(gs: seq<Bucket>, min: int, c0: int)
    ensures Pass(gs, min, c0).colors == Count(gs)
  {
    ScanColors(gs, min, c0, |gs|);
    assert gs[..|gs|] == gs;
  }

  // ----- termination of the `do … while (colors > 256)` loop -----

  /** Some group is eligible under the threshold `min`, so the next pass merges at least one. */
  predicate Ready(gs: seq<Bucket>, min: int)
  {
    exists j :: 0 <= j < |gs| && Eligible(gs[j], min)
  }

  /**
   * The measure the passes of `to256` lower: twice the weight, plus one
   * while the loop would go on with a threshold that merges nothing.
   */
  function Measure(gs: seq<Bucket>, min: int, colors: int): nat
  {
    2 * Weight(gs) + (if Ready(gs, min) || colors <= 256 then 0 else 1)
  }

  /**
   * Every pass the loop runs (`colors > 256`) lowers the measure: a pass
   * either merges something, which lowers the weight, or merges nothing and
   * leaves `min_size` at the smallest size present, so the next one merges.
   */
  lemma PassDecreases(gs: seq<Bucket>, min: int, c0: int)
    requires c0 > 256
    requires forall j :: 0 <= j < |gs| ==> 0 <= gs[j].n <= NoSize
    ensures var s := Pass(gs, min, c0); Measure(s.groups, s.minSize, s.colors) < Measure(gs, min, c0)
  {
    var s := Pass(gs, min, c0);
    PassProgress(gs, min, c0);
    PassColors(gs, min, c0);
    if !Ready(gs, min) {
      assert s.groups == gs;
      PassMinSize(gs, min, c0);
      if Count(gs) > 0 {
        CountPositive(gs);
        var j :| 0 <= j < |gs| && NonEmpty(gs[j]) && gs[j].n == s.minSize;
        assert Eligible(s.groups[j], s.minSize);
      }
    }
  }

  /**
   * What the loop of `to256` keeps: no more than `colors` non-empty groups,
   * and no more colours than it started with.
   */
  lemma PassBounds(gs: seq<Bucket>, min: int, c0: int)
    requires forall j :: 0 <= j < |gs| ==> gs[j].n >= 0
    ensures var s := Pass(gs, min, c0);
      Count(s.groups) <= s.colors == Count(gs) && Total(s.groups).n <= Total(gs).n
  {
    PassColors(gs, min, c0);
    PassCount(gs, min, c0);
    if |gs| > 0 {
      PassTotal(gs, min, c0);
    } else {
      assert Pass(gs, min, c0).groups == [];
    }
  }

  /** Every group holds between 0 and `0x7fffffff` colours, as in any table `to256` builds. */
  predicate Bounded(gs: seq<Bucket>)
  {
    forall j :: 0 <= j < |gs| ==> 0 <= gs[j].n <= NoSize
  }

  /**
   * The state the `do … while (colors > 256)` loop of `to256` ends in, given
   * the state after its first pass: further passes, each with the `min_size`
   * and `colors` the previous one left, until `colors` is at most 256.
   */
  ghost function Reduced(s: Scan): (r: Scan)
    ensures |r.groups| == |s.groups|
    decreases Measure(s.groups, s.minSize, s.colors)
  {
    if s.colors > 256 && Bounded(s.groups) then
      PassDecreases(s.groups, s.minSize, s.colors);
      Reduced(Pass(s.groups, s.minSize, s.colors))
    else s
  }

  /** A pass leaves no group with a negative count when it starts with none. */
  lemma PassNonNegative(gs: seq<Bucket>, min: int, c0: int)
    requires forall j :: 0 <= j < |gs| ==> gs[j].n >= 0
    ensures forall j :: 0 <= j < |gs| ==> Pass(gs, min, c0).groups[j].n >= 0
  {
    PassShape(gs, min, c0);
  }

  /**
   * The loop of `to256` ends with at most 256 `colors`, no more non-empty
   * groups than `colors`, and no more colours in the table than it began with.
   */
  lemma ReducedBounds(s: Scan)
    requires forall j :: 0 <= j < |s.groups| ==> s.groups[j].n >= 0
    requires Total(s.groups).n <= NoSize && Count(s.groups) <= s.colors
    ensures var r := Reduced(s);
      r.colors <= 256 && Count(r.groups) <= r.colors && Total(r.groups).n <= Total(s.groups).n &&
      forall j :: 0 <= j < |r.groups| ==> r.groups[j].n >= 0
    decreases Measure(s.groups, s.minSize, s.colors)
  {
    if s.colors > 256 {
      WithinBound(s.groups, NoSize);
      var t := Pass(s.groups, s.minSize, s.colors);
      PassDecreases(s.groups, s.minSize, s.colors);
      PassBounds(s.groups, s.minSize, s.colors);
      PassNonNegative(s.groups, s.minSize, s.colors);
      ReducedBounds(t);
    }
  }
}
