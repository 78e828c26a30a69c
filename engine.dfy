/**
 * The quantiser's state and its imperative steps: the 4096-entry group
 * table, the 256-slot palette, `min_size` and `colors` as the fields of one
 * engine object, and `to256` with the loops it runs over them.
 */
module Quantizer {
  import opened Colors
  import opened Groups
  import opened Table
  import opened Pruning

  class Engine {
    /** `map`: one group object per 12-bit key. */
    const table: array<Group>
    /** `palette`: the array `to256` fills and returns. */
    const palette: array<Color>
    var minSize: int
    var colors: int
    /** The group objects of the table, fixed when the engine is built. */
    ghost const elements: set<Group>

    ghost predicate Valid()
      reads table, elements
    {
      table.Length == Size && palette.Length == PaletteSize &&
      elements == (set i | 0 <= i < table.Length :: table[i]) &&
      (forall i, j :: 0 <= i < j < table.Length ==> table[i] != table[j]) &&
      (forall i :: 0 <= i < table.Length ==> table[i].Valid())
    }

    /** The table as a value. */
    ghost function Buckets(): (gs: seq<Bucket>)
      reads table, elements
      ensures |gs| == table.Length
      ensures forall i :: 0 <= i < table.Length && table[i] in elements ==> gs[i] == table[i].Val()
    {
      seq(table.Length, i reads table, elements =>
        if 0 <= i < table.Length && table[i] in elements then table[i].Val() else Empty)
    }

    lemma BucketsWellformed()
      requires Valid()
      ensures AllWellformed(Buckets())
      ensures forall i :: 0 <= i < Size ==> Buckets()[i].n >= 0
    {
    }

    /** A table of cleared groups and a zeroed palette, as after class initialisation. */
    constructor ()
      ensures Valid() && fresh(elements) && fresh(palette)
      ensures forall i :: 0 <= i < Size ==> Buckets()[i] == Empty
      ensures forall i :: 0 <= i < PaletteSize ==> palette[i] == 0
      ensures minSize == 0 && colors == 0
    {
      var first := new Group();
      var m := new Group[Size](_ => first);
      var i := 0;
      while i < Size
        invariant 0 <= i <= Size
        invariant forall j :: 0 <= j < i ==> fresh(m[j]) && m[j].Val() == Empty
        invariant forall j, j' :: 0 <= j < j' < i ==> m[j] != m[j']
        modifies m
      {
        m[i] := new Group();
        i := i + 1;
      }
      table := m;
      elements := set j | 0 <= j < Size :: m[j];
      palette := new Color[PaletteSize](_ => 0);
      minSize := 0;
      colors := 0;
      new;
      assert forall j :: 0 <= j < Size ==> table[j] in elements && table[j].Val() == Empty;
    }

    // Single-group updates, each stated on the table as a value.

    method AddAt(k: int, p: Color)
      requires Valid() && 0 <= k < Size
      modifies table[k]
      ensures Valid()
      ensures Buckets() == old(Buckets())[k := WithColor(old(Buckets())[k], p)]
    {
      table[k].Add(p);
    }

    method MergeLeft(i: int)
      requires Valid() && 0 < i < Size
      modifies table[i - 1]
      ensures Valid()
      ensures Buckets() == old(Buckets())[i - 1 := Plus(old(Buckets())[i - 1], old(Buckets())[i])]
    {
      table[i - 1].Merge(table[i]);
    }

    method ClearAt(i: int)
      requires Valid() && 0 <= i < Size
      modifies table[i]
      ensures Valid()
      ensures Buckets() == old(Buckets())[i := Empty]
    {
      table[i].Clear();
    }

    /** Folds group `i` into group `i - 1`, when there is one, and clears group `i`. */
    method Fold(i: int)
      requires Valid() && 0 <= i < Size
      modifies elements
      ensures Valid()
      ensures var gs := old(Buckets());
        Buckets() == if i > 0 then gs[i - 1 := Plus(gs[i - 1], gs[i])][i := Empty] else gs[i := Empty]
    {
      if i > 0 {
        MergeLeft(i);
      }
      ClearAt(i);
    }

    /** The loop of `to256` that clears every group before grouping. */
    method ClearTable()
      requires Valid()
      modifies elements
      ensures Valid()
      ensures forall i :: 0 <= i < Size ==> Buckets()[i] == Empty
    {
      for i := 0 to Size
        invariant Valid()
        invariant forall j :: 0 <= j < i ==> table[j].Val() == Empty
      {
        table[i].Clear();
      }
    }

    /** `group(image)`: adds every pixel to the group of its key, in image order. */
    method GroupImage(image: array<Color>)
      requires Valid()
      modifies elements
      ensures Valid()
      ensures Buckets() == AddPixels(old(Buckets()), image[..])
    {
      ghost var gs := Buckets();
      for i := 0 to image.Length
        invariant Valid()
        invariant Buckets() == AddPixels(gs, image[..i])
      {
        var p := image[i];
        AddPixelsNext(gs, image[..], i);
        assert image[..][..i] == image[..i] && image[..][..i + 1] == image[..i + 1];
        AddAt(Downsample444(p), p);
      }
      assert image[..image.Length] == image[..];
    }
 
    /**
     * `prune(min)`: one ascending pass that folds every group of size at most
     * `min` into its left neighbour (group 0 is only cleared) until the
     * running count `c`, seeded with the `colors` of the previous pass, drops
     * below 256; it leaves in `min_size` the smallest size it met and in
     * `colors` the number of non-empty groups it met.
     */
    method Prune(min: int)
      requires Valid()
      modifies this, elements
      ensures Valid()
      ensures var s := Pass(old(Buckets()), min, old(colors));
        Buckets() == s.groups && minSize == s.minSize && colors == s.colors
    {
      ghost var gs := Buckets();
      var stop := false;
      var least := NoSize;
      var c := colors;
      ghost var c0 := c;
      var seen := 0;
      ghost var s := ScanTo(gs, min, c0, 0);
      for i := 0 to Size
        invariant Valid()
        invariant s == ScanTo(gs, min, c0, i)
        invariant Buckets() == s.groups && least == s.minSize && c == s.c && seen == s.colors && stop == s.stop
      {
        least, c, seen, stop := Visit(i, min, least, c, seen, stop, s);
        s := Step(s, i, min);
      }
      minSize, colors := least, seen;
    }

    /**
     * The body of the loop of `prune` for group `i`: a non-empty group
     * updates the smallest size and is counted; if it is no larger than
     * the threshold it is folded into its left neighbour and counted off,
     * unless pruning has stopped, and pruning stops once the count is below 256.
     */
    method Visit(i: int, min: int, least: int, c: int, seen: int, stop: bool, ghost s: Scan)
      returns (least': int, c': int, seen': int, stop': bool)
      requires Valid() && 0 <= i < Size
      requires Buckets() == s.groups && least == s.minSize && c == s.c && seen == s.colors && stop == s.stop
      modifies elements
      ensures Valid()
      ensures var t := Step(s, i, min);
        Buckets() == t.groups && least' == t.minSize && c' == t.c && seen' == t.colors && stop' == t.stop
    {
      least', c', seen', stop' := least, c, seen, stop;
      var size := table[i].n;
      if size != 0 {
        if size < least' {
          least' := size;
        }
        if size <= min {
          if !stop' {
            Fold(i);
            c' := c' - 1;
          }
          if c' < 256 {
            stop' := true;
          }
        }
        seen' := seen' + 1;
      }
    }

    /**
     * `create_palette()`: writes the averages of the non-empty groups to the
     * first palette slots in ascending group order and leaves the other
     * slots as they were. The caller guarantees at most 256 non-empty groups.
     */
    method CreatePalette()
      requires Valid() && Count(Buckets()) <= PaletteSize
      modifies palette
      ensures Valid() && Buckets() == old(Buckets())
      ensures palette[..] == Averages(Buckets()) + old(palette[..])[Count(Buckets())..]
    {
      BucketsWellformed();
      ghost var gs := Buckets();
      ghost var rest := palette[..];
      var idx := 0;
      for i := 0 to Size
        invariant forall j :: 0 <= j < Size ==> table[j].Val() == gs[j]
        invariant idx == |Averages(gs[..i])| <= PaletteSize
        invariant palette[..] == Averages(gs[..i]) + rest[idx..]
      {
        idx := Place(i, idx, gs, rest);
      }
      assert gs[..Size] == gs;
      AveragesPlacement(gs);
    }

    /** The body of the loop of `create_palette` for group `i`: appends its average when it is non-empty. */
    method Place(i: int, idx: int, ghost gs: seq<Bucket>, ghost rest: seq<Color>) returns (idx': int)
      requires Valid() && 0 <= i < Size && |gs| == Size && AllWellformed(gs) && Count(gs) <= PaletteSize
      requires forall j :: 0 <= j < Size ==> table[j].Val() == gs[j]
      requires |rest| == PaletteSize
      requires idx == |Averages(gs[..i])| <= PaletteSize && palette[..] == Averages(gs[..i]) + rest[idx..]
      modifies palette
      ensures idx' == |Averages(gs[..i + 1])| <= PaletteSize
      ensures palette[..] == Averages(gs[..i + 1]) + rest[idx'..]
    {
      ghost var done := Averages(gs[..i]);
      var g := table[i].Val();
      assert g == gs[i];
      NextPrefix(gs, i);
      AveragesPlacement(gs[..i + 1]);
      idx' := idx;
      if g.n != 0 {
        var v := Avg(g);
        WriteNext(done, rest, v);
        palette[idx] := v;
        idx' := idx + 1;
      }
    }

    /** `index(image)`: replaces every pixel by the palette entry nearest to it. */
    method Index(image: array<Color>)
      requires palette.Length == PaletteSize && image != palette
      modifies image
      ensures Remapped(palette[..], old(image[..]), image[..])
    {
      ghost var pal := palette[..];
      ghost var before := image[..];
      ghost var picks: seq<int> := [];
      for i := 0 to image.Length
        invariant palette[..] == pal
        invariant |picks| == i
        invariant forall j :: i <= j < image.Length ==> image[j] == before[j]
        invariant forall j :: 0 <= j < i ==>
          IsNearest(pal, before[j], picks[j]) && image[j] == pal[picks[j]]
      {
        var k := NearestEntry(palette, image[i]);
        image[i] := palette[k];
        picks := picks + [k];
      }
      ghost var after := image[..];
      forall i | 0 <= i < |before|
        ensures exists k :: IsNearest(pal, before[i], k) && after[i] == pal[k]
      {
        assert IsNearest(pal, before[i], picks[i]) && after[i] == pal[picks[i]];
      }
    }

    /**
     * The `do { prune(min_size); } while (colors > 256)` loop of `to256`: it
     * ends in the state `Reduced` describes, which it reaches because every
     * pass it repeats lowers `Measure`.
     */
    method Reduce()
      requires Valid() && Total(Buckets()).n <= NoSize
      modifies this, elements
      ensures Valid()
      ensures var r := Reduced(Pass(old(Buckets()), old(minSize), old(colors)));
        Buckets() == r.groups && minSize == r.minSize && colors == r.colors
      ensures colors <= PaletteSize && Count(Buckets()) <= colors
      ensures Total(Buckets()).n <= old(Total(Buckets()).n)
    {
      BucketsWellformed();
      ghost var total := Total(Buckets()).n;
      ghost var s := Pass(Buckets(), minSize, colors);
      ghost var target := Reduced(s);
      PassBounds(Buckets(), minSize, colors);
      Prune(minSize);
      while colors > 256
        invariant Valid()
        invariant Buckets() == s.groups && minSize == s.minSize && colors == s.colors
        invariant Reduced(s) == target
        invariant Count(Buckets()) <= colors
        invariant Total(Buckets()).n <= total
        decreases Measure(Buckets(), minSize, colors)
      {
        BucketsWellformed();
        WithinBound(Buckets(), total);
        PassBounds(Buckets(), minSize, colors);
        PassDecreases(Buckets(), minSize, colors);
        ghost var next := Pass(s.groups, s.minSize, s.colors);
        assert Reduced(s) == Reduced(next);
        Prune(minSize);
        s := next;
      }
    }

    /** The final loop of `to256`: the number of non-empty groups. */
    method CountGroups() returns (count: int)
      requires Valid()
      ensures count == Count(Buckets())
    {
      count := 0;
      ghost var gs := Buckets();
      for i := 0 to Size
        invariant count == Count(gs[..i])
      {
        ghost var seen := gs[..i + 1];
        assert seen[..i] == gs[..i] && seen[i] == table[i].Val();
        if table[i].n > 0 {
          count := count + 1;
        }
      }
      assert gs[..Size] == gs;
    }

    /** The start of `to256`: clears the table, resets `min_size` and groups the image. */
    method Prepare(image: array<Color>)
      requires Valid()
      modifies this, elements
      ensures Valid() && minSize == 0 && colors == old(colors)
      ensures Buckets() == AddPixels(Cleared, image[..])
      ensures Total(Buckets()).n == image.Length
    {
      ClearTable();
      minSize := 0;
      assert Buckets() == Cleared;
      assert Total(AddPixels(Cleared, image[..])).n == image.Length by {
        ClearedTotal(Cleared);
        AddPixelsTotal(Cleared, image[..]);
      }
      GroupImage(image);
    }

    /**
     * The part of `to256` before `index(image)`: groups the image into the
     * cleared table, prunes from `prune(0)` on, with the `colors` left by
     * the previous call, until at most 256 groups are non-empty, and builds
     * the palette from them.
     */
    method BuildPalette(image: array<Color>)
      requires Valid() && image != palette
      requires image.Length <= NoSize
      modifies this, elements, palette
      ensures Valid()
      ensures var r := Reduced(Pass(AddPixels(Cleared, image[..]), 0, old(colors)));
        Buckets() == r.groups && minSize == r.minSize && colors == r.colors
      ensures AllWellformed(Buckets())
      ensures Count(Buckets()) <= PaletteSize
      ensures palette[..Count(Buckets())] == Averages(Buckets())
      ensures palette[Count(Buckets())..] == old(palette[..])[Count(Buckets())..]
      ensures Total(Buckets()).n <= image.Length
    {
      ghost var rest := palette[..];
      Prepare(image);
      Reduce();
      assert palette[..] == rest;
      CreatePalette();
      BucketsWellformed();
      AveragesPlacement(Buckets());
      PrefixOfConcat(Averages(Buckets()), rest[Count(Buckets())..]);
    }

    /**
     * `to256(image)`: builds the palette from the pruned grouping of the
     * image, remaps the image onto it and counts the non-empty groups, the
     * number the source prints. Returns the palette array.
     */
    method To256(image: array<Color>) returns (pal: array<Color>, count: int)
      requires Valid() && image != palette
      requires image.Length <= NoSize
      modifies this, elements, palette, image
      ensures Valid() && pal == palette
      ensures var r := Reduced(Pass(AddPixels(Cleared, old(image[..])), 0, old(colors)));
        Buckets() == r.groups && minSize == r.minSize && colors == r.colors
      ensures AllWellformed(Buckets())
      ensures count == Count(Buckets()) <= PaletteSize
      ensures palette[..count] == Averages(Buckets())
      ensures palette[count..] == old(palette[..])[count..]
      ensures Total(Buckets()).n <= image.Length
      ensures Remapped(palette[..], old(image[..]), image[..])
    {
      ghost var original := image[..];
      BuildPalette(image);
      assert image[..] == original;
      ghost var groups := Buckets();
      ghost var built := palette[..];
      Index(image);
      assert Valid() && Buckets() == groups && palette[..] == built;
      count := CountGroups();
      pal := palette;
    }
  }

  /** Writing the next slot after a filled prefix moves one slot from the tail to the prefix. */
  lemma WriteNext(done: seq<Color>, rest: seq<Color>, v: Color)
    requires |done| < |rest|
    ensures (done + rest[|done|..])[|done| := v] == (done + [v]) + rest[|done| + 1..]
  {
  }

  lemma PrefixOfConcat(a: seq<Color>, b: seq<Color>)
    ensures (a + b)[..|a|] == a
  {
  }
}
