# MVQ2 256-colour quantiser, modelled in Dafny

MVQ2 reduces an image of packed 24-bit colours (`0xAARRGGBB` Java ints, alpha
ignored) to at most 256 colours, in place. It works in four steps:

1. **Grouping.** Each pixel is added to one of 4096 groups, chosen by its 12-bit
   key. The key is the top nibble of each channel.
2. **Pruning.** Passes over the group table fold every small group into its left
   neighbour. This repeats until at most 256 groups are left.
3. **Palette.** The rounded averages of the remaining groups are written to a
   256-slot palette.
4. **Remapping.** Every pixel is replaced by its nearest palette entry under a
   "redmean" colour distance.

Modules, one file each:

- `Colors` (`colors.dfy`):
  - colours as Java-range ints;
  - channel extraction;
  - `downsample444`;
  - the distance `dist`, scaled to an exact integer;
  - the arg-min scan `nearest_entry`, as a method with a loop.
- `Groups` (`groups.dfy`):
  - a group's value (`Bucket`) and its invariant;
  - the rounded average `avg`;
  - the mutable `Group` class with `add(int)`, `add(Group)` and `clear`.
- `Table` (`table.dfy`):
  - the 4096-entry table as a value;
  - counts and totals over the table;
  - `group(image)` as a function over the pixel sequence;
  - the palette the non-empty groups produce.
- `Pruning` (`prune.dfy`):
  - one `prune(min)` pass as a pure fold (`Step`, `ScanTo`, `Pass`) that mirrors
    the loop of the source;
  - every property proved about a pass;
  - a termination measure for the `do … while (colors > 256)` loop.
- `Quantizer` (`engine.dfy`):
  - the class `Engine`, with the fields the source keeps as statics: `map`
    (`table`), `palette`, `min_size` and `colors`;
  - `group`, `prune`, `create_palette`, `index` and `to256` as methods with
    their loops. Each is proved against the functions of `Table` and `Pruning`.
    `To256` ends with the table `Pruning.Reduced` computes from the grouping
    of the original image, and with a palette that holds that table's averages
    followed by the slots the previous call left.

Four behaviours of the code are easy to misread:

- A merged group is not always empty after a pass. When its right neighbour is
  merged too, that neighbour's content lands in it. `Pruning.PassShape` states
  the exact shape.
- `colors` is set to the number of groups that were non-empty when the pass
  began. It is not a recount at the end of the pass.
- Passes do not always remove a group: a pass whose threshold is below every
  group size merges nothing. The loop ends because of a measure that combines
  the position-weighted group count with whether a merge is pending
  (`Pruning.PassDecreases`).
- `to256` returns the whole 256-slot palette array. `index` scans all 256 slots,
  including slots `create_palette` did not write in this call. Those slots still
  hold the previous call's colours, or zeros. The remapping contract therefore
  speaks of the whole palette.

## Model

| member | source | states |
|---|---|---|
| Colors.Red | src/MVQ2.java:147-150 | `c >> 16 & 0xff` is an 8-bit value |
| Colors.Green | src/MVQ2.java:149 | `c >> 8 & 0xff` is an 8-bit value |
| Colors.Blue | src/MVQ2.java:150 | `c & 0xff` is an 8-bit value |
| Colors.Pack | src/MVQ2.java:204 | packing three 8-bit channels gives a 24-bit colour whose red, green and blue channels are exactly those three |
| Colors.PackChannels | src/MVQ2.java:204 | packing the channels of any colour gives back its low 24 bits: only the alpha byte is lost |
| Colors.Downsample444 | src/MVQ2.java:115-117 | the key is in `[0, 4096)` |
| Colors.DownsampleChannels | src/MVQ2.java:115-117 | the key is the top nibble of red times 256, plus that of green times 16, plus that of blue, so bits 24-31 do not matter (`Colors.AlphaIgnored`) |
| Colors.KeyFields | src/MVQ2.java:115-117 | the three nibbles of the key are the top nibbles of red, green and blue |
| Colors.AlphaIgnored | src/MVQ2.java:115-117 | two colours that agree in their low 24 bits get the same key, whatever their alpha byte |
| Colors.DownsampleKeyIff | src/MVQ2.java:115-117 | two colours share a key if and only if their channels agree in the top four bits |
| Colors.Dist | src/MVQ2.java:146-152 | the scaled distance is never negative |
| Colors.DistIsScaledRedmean | src/MVQ2.java:146-152 | the integer distance is exactly 512 times the source's formula evaluated over the reals |
| Colors.ScaledWeights | src/MVQ2.java:151 | on any red values and channel differences, the integer weights `1024 + ra + rb`, `2048` and `1534 - ra - rb` are 512 times the weights of the formula |
| Colors.DistZeroIff | src/MVQ2.java:146-152 | the distance is zero if and only if all three channels agree |
| Colors.DistSelf | src/MVQ2.java:146-152 | a colour is at distance zero from itself |
| Colors.DistSymmetric | src/MVQ2.java:146-152 | `dist(a, b) == dist(b, a)` |
| Colors.NearestEntry | src/MVQ2.java:125-136 | the index returned is in range, no entry of the palette is strictly closer, and every earlier entry is strictly farther (the first minimum wins) |
| Groups.WithColor | src/MVQ2.java:177-182 | the value of a group after `add(int c)`: each sum grows by the matching channel of `c` and `n` by one (a definition; its invariant is the next row) |
| Groups.WithColorWellformed | src/MVQ2.java:177-182 | adding a colour keeps `0 <= r, g, b <= 255 * n` |
| Groups.Plus | src/MVQ2.java:188-193 | the value of a group after `add(Group o)`: the four fields add up (a definition; its invariant is the next row) |
| Groups.PlusWellformed | src/MVQ2.java:188-193 | merging two groups keeps `0 <= r, g, b <= 255 * n` |
| Groups.RoundedMeanBounds | src/MVQ2.java:203-204 | `(sum + n/2) / n` of `n` values in `[lo, hi]` is itself in `[lo, hi]` |
| Groups.Avg | src/MVQ2.java:199-205 | an empty group averages to 0, and every average is a 24-bit colour with a zero alpha byte |
| Groups.AvgChannels | src/MVQ2.java:199-205 | each channel of a non-empty group's average is the rounded mean of that channel, so the `& 0xff` masks change nothing |
| Groups.CollectWellformed | src/MVQ2.java:177-182 | a group built by adding colours to a cleared group keeps the invariant and counts them |
| Groups.CollectSumBounds | src/MVQ2.java:177-182 | if every colour's channel is in `[lo, hi]`, the channel sum of their group is in `[lo·n, hi·n]` |
| Groups.AvgWithinMembers | src/MVQ2.java:199-205 | each channel of a group's average lies between the smallest and the largest value of that channel among its colours |
| Groups.AvgOfCopies | src/MVQ2.java:199-205 | any number of copies of one colour average back to that colour, without its alpha byte |
| Groups.AvgRoundsHalfUp | src/MVQ2.java:199-205 | black and `0x020202` average to `0x010101`: halves round up |
| Groups.Group.constructor | src/MVQ2.java:14-18 | a new group is cleared, which is the state `to256` puts every group in before using it |
| Groups.Group.Add | src/MVQ2.java:177-182 | `add(int c)` adds the three 8-bit channels of `c` to the sums and one to `n`, and keeps the invariant |
| Groups.Group.Merge | src/MVQ2.java:188-193 | `add(Group o)` adds `o`'s four fields to its own and keeps the invariant; this holds even when `o` is the group itself |
| Groups.Group.Clear | src/MVQ2.java:210-212 | `clear()` sets all four fields to zero |
| Table.Count | src/MVQ2.java:38-43 | the number of non-empty groups, which is at most the number of groups |
| Table.ClearedTotal | src/MVQ2.java:28-30 | a table of cleared groups totals to nothing |
| Table.AddPixels | src/MVQ2.java:72-76 | the table after `group(image)`: each pixel in turn added to the group of its key; the table stays at 4096 groups (its content is stated by `AddPixelsGroups`) |
| Table.AddPixelsNext | src/MVQ2.java:73-74 | grouping one more pixel adds it to the group of its key and changes no other group |
| Table.AddPixelsGroups | src/MVQ2.java:72-76 | after grouping, group `k` holds what it held before plus exactly the image's pixels whose key is `k` |
| Table.InBucketMembers | src/MVQ2.java:72-76 | the pixels selected for key `k` are not empty if and only if some pixel of the image has key `k` |
| Table.AddPixelsNonEmpty | src/MVQ2.java:72-76 | starting from a cleared group, group `k` is non-empty after grouping if and only if some pixel has key `k` |
| Table.AddPixelsTotal | src/MVQ2.java:72-76 | grouping raises the total count by the number of pixels |
| Table.WithinBound | src/MVQ2.java:33-35 | with no negative counts, every group of a table whose total is at most `bound` holds between 0 and `bound` colours |
| Table.GroupWithinTotal | src/MVQ2.java:72-76 | with no negative counts, no group holds more colours than the whole table |
| Table.Averages | src/MVQ2.java:51-58 | the averages of the non-empty groups in ascending group order, one per non-empty group |
| Table.AveragesPlacement | src/MVQ2.java:51-58 | there is one average per non-empty group, and the average of non-empty group `j` sits at index "number of non-empty groups before `j`" |
| Table.NextPrefix | src/MVQ2.java:53-56 | looking at one more group adds one to the count and its average to the palette prefix exactly when it is non-empty |
| Pruning.Step | src/MVQ2.java:88-106 | the state after the loop body for group `i`: `min_size`, the merge of group `i` into `i - 1` with its clearing, the decrement of `c`, the stop flag and `colors++`; the table keeps its size |
| Pruning.ScanTo | src/MVQ2.java:83-107 | the state after the loop has handled groups `0 .. k-1`, from `min_size = 0x7fffffff`, `c = colors` and `colors = 0` |
| Pruning.Pass | src/MVQ2.java:82-108 | the state after a whole pass `prune(min)`; the table keeps its size |
| Pruning.ScanSuffix | src/MVQ2.java:87-107 | groups the loop has not reached yet are untouched |
| Pruning.ScanMerges | src/MVQ2.java:89-94 | when the loop reaches group `k`, it still holds its initial content, and it is merged exactly when it is non-empty, at most `min` and the stop flag is down |
| Pruning.StepGroups | src/MVQ2.java:93-100 | a step merges `i` into `i - 1` and clears `i` (only clears `i` when `i == 0`), or changes nothing, and touches no other group |
| Pruning.ShapeAt | src/MVQ2.java:87-107 | each group behind the loop holds its kept content plus what its right neighbour passed to it, if that neighbour has been reached |
| Pruning.PassShape | src/MVQ2.java:87-107 | after a pass every group holds its own content unless it was merged, plus its right neighbour's content if that neighbour was merged; groups larger than `min` change only by receiving |
| Pruning.ScanColors | src/MVQ2.java:86-105 | the running `colors` counts the groups that were non-empty when the loop reached them |
| Pruning.PassColors | src/MVQ2.java:86-105 | after a pass `colors` is the number of groups non-empty at its start |
| Pruning.ScanMinSize | src/MVQ2.java:84-92 | the running `min_size` is at most every non-empty size reached and equals one of them, or is `0x7fffffff` |
| Pruning.PassMinSize | src/MVQ2.java:84-92 | after a pass `min_size` is the smallest non-empty size at its start, or `0x7fffffff` when every group is empty |
| Pruning.StopStays | src/MVQ2.java:101-103 | once the stop flag is raised it stays raised for the rest of the pass |
| Pruning.NoMergeAfterStop | src/MVQ2.java:94-103 | once the stop flag is raised no later group of the pass is merged |
| Pruning.MergedPrefix | src/MVQ2.java:93-103 | an eligible group before a merged one is merged too: the merged groups are the first eligible ones |
| Pruning.ScanCounter | src/MVQ2.java:85-98 | the running count `c` has been lowered once per merged group |
| Pruning.CounterFloor | src/MVQ2.java:98-103 | starting above 256, `c` never drops below 255, and it is at least 256 while the flag is down |
| Pruning.PassMergeBound | src/MVQ2.java:85-103 | a pass that starts with `c > 256` merges at most `c - 255` groups |
| Pruning.StepTotal | src/MVQ2.java:95-99 | one step keeps the total of `r`, `g`, `b` and `n`, except that clearing group 0 loses its content |
| Pruning.ScanTotal | src/MVQ2.java:87-107 | the loop keeps the total of `r`, `g`, `b` and `n`, less group 0's content if group 0 was merged |
| Pruning.PassTotal | src/MVQ2.java:87-107 | a pass keeps the table's total, less group 0's content if group 0 was merged |
| Pruning.ScanCount | src/MVQ2.java:87-107 | the loop never raises the number of non-empty groups |
| Pruning.PassCount | src/MVQ2.java:87-107 | a pass never raises the number of non-empty groups |
| Pruning.ScanWeight | src/MVQ2.java:87-107 | the position-weighted group count never rises, and falls once an eligible group has been reached; before that, the table and flag are untouched |
| Pruning.PassProgress | src/MVQ2.java:87-107 | a pass that meets an eligible group lowers the weight, and one that meets none changes no group |
| Pruning.PruneZero | src/MVQ2.java:31-34 | the first pass `prune(0)` changes no group, sets `colors` to the number of non-empty groups and `min_size` to the smallest non-empty size (or `0x7fffffff`), whatever stale `colors` it starts from |
| Pruning.PassDecreases | src/MVQ2.java:33-35 | every pass the `do … while` loop runs lowers a natural-number measure, so the loop ends |
| Pruning.PassNonNegative | src/MVQ2.java:87-107 | a pass leaves no group with a negative count |
| Pruning.Reduced | src/MVQ2.java:33-35 | the state the `do … while (colors > 256)` loop ends in: passes with the previous pass's `min_size` and `colors` until `colors` is at most 256; it terminates because `PassDecreases` lowers `Measure` |
| Pruning.ReducedBounds | src/MVQ2.java:33-35 | that final state has `colors <= 256`, no more non-empty groups than `colors`, no negative counts and no more colours than the table began with |
| Pruning.PassBounds | src/MVQ2.java:33-35 | after a pass there are at most `colors` non-empty groups, `colors` is the count at the pass's start, and the total count has not grown |
| Quantizer.Engine.constructor | src/MVQ2.java:9-18 | a table of 4096 distinct cleared groups, a zeroed 256-slot palette, and `min_size == colors == 0` |
| Quantizer.Engine.AddAt | src/MVQ2.java:74 | `map[k].add(p)` adds `p` to group `k` and changes no other group |
| Quantizer.Engine.MergeLeft | src/MVQ2.java:95-97 | `map[i - 1].add(map[i])` adds group `i` to group `i - 1` and changes nothing else |
| Quantizer.Engine.ClearAt | src/MVQ2.java:99 | `map[i].clear()` empties group `i` and changes nothing else |
| Quantizer.Engine.Fold | src/MVQ2.java:95-99 | the table after folding group `i` into `i - 1` (just clearing it when `i == 0`) |
| Quantizer.Engine.ClearTable | src/MVQ2.java:28-30 | every group is empty afterwards |
| Quantizer.Engine.GroupImage | src/MVQ2.java:72-76 | the table after `group(image)` is the grouping of the image's pixels, in order, into the old table |
| Quantizer.Engine.Visit | src/MVQ2.java:88-106 | the loop body of `prune` for group `i` leaves the table, `min_size`, `c`, `colors` and the stop flag exactly as one `Step` of the pure pass does |
| Quantizer.Engine.Prune | src/MVQ2.java:82-108 | the table, `min_size` and `colors` after `prune(min)` are those of the pure pass started from the old table and old `colors` |
| Quantizer.Engine.CreatePalette | src/MVQ2.java:51-58 | the first palette slots hold the averages of the non-empty groups in ascending group order; the table and the other slots are unchanged |
| Quantizer.Engine.Place | src/MVQ2.java:53-56 | the loop body of `create_palette` for group `i` extends the filled prefix of the palette to the averages of groups `0 .. i` and leaves the rest of the palette as it was |
| Quantizer.Engine.Index | src/MVQ2.java:60-66 | the image keeps its length, and every pixel is replaced by a nearest entry of the 256-slot palette (the first one on ties) |
| Quantizer.Engine.Reduce | src/MVQ2.java:33-35 | the table, `min_size` and `colors` are those `Reduced` gives after one pass from the old state; moreover `colors <= 256`, at most `colors` groups are non-empty, and the table holds no more colours than before |
| Quantizer.Engine.CountGroups | src/MVQ2.java:38-43 | the count is the number of non-empty groups |
| Quantizer.Engine.Prepare | src/MVQ2.java:28-32 | the table is the grouping of the image into the cleared table, so its counts add up to the number of pixels; `min_size` is 0 and `colors` is unchanged |
| Quantizer.Engine.BuildPalette | src/MVQ2.java:27-36 | the table, `min_size` and `colors` are `Reduced` of the first pass `prune(0)` over the grouping of the image, started from the old `colors`; at most 256 groups remain, none holding more colours than the image has pixels, and the palette begins with their averages in group order and keeps its old contents in the slots after them |
| Quantizer.Engine.To256 | src/MVQ2.java:27-46 | the table ends as `Reduced` of the first pass over the grouping of the original image; the returned array is the palette, it begins with the averages of the non-empty groups in group order and keeps its old contents after them, the count is their number (at most 256), and every pixel is replaced by its nearest palette entry |

## Left out

- `System.out.println` (`src/MVQ2.java:44`) is console output. `To256` returns the
  count it prints instead.
- Quantizer.Engine.To256: the count is returned beside the palette. The source
  returns only the palette.
- Colors.Dist: Java evaluates the distance in `float`. The model computes 512
  times the exact real value, as an integer. `float` rounding could order two
  nearly equal distances differently; that is not modelled.
- Sums and counts are unbounded integers. Java's 32-bit channel sum of a group
  can wrap around once it exceeds `0x7fffffff`, which takes more than 8,421,504
  pixels in that one group; the model does not capture that. `To256` and `BuildPalette` require at most `0x7fffffff`
  pixels, which every Java array satisfies.
- The static initialiser (`src/MVQ2.java:14-18`) fills the table with
  `new Group(0)`, which holds one black pixel. That state is dead: `to256`
  clears every group first. The engine starts from cleared groups. The
  one-colour constructor `Group(int c)` (`src/MVQ2.java:169-171`) is therefore
  not modelled.
- The commented-out variant of `index` that stores palette indices
  (`src/MVQ2.java:63-64`) is not modelled.
- Quantizer.Engine.Index, BuildPalette and To256 require that the image is not
  the palette array itself. In the source they alias only if a caller passes
  the returned palette back in; the model does not capture that case.
- Quantizer.Engine.CreatePalette requires at most 256 non-empty groups. With
  more, the source would write past the end of the palette and throw. `to256`
  only calls it after the pruning loop has brought the count down.
- Colors.NearestEntry requires a non-empty palette. The source reads `pal[0]`
  unconditionally, and its palette always has 256 slots.
- Quantizer.Engine.Prune: the source writes the fields `min_size` and `colors`
  inside the loop. The model keeps them in locals and stores them when the loop
  ends. Nothing in the loop reads the fields other than through those locals,
  so the final state is the same.
- Pruning.Reduced: it stops early if some group holds a negative count or more than `0x7fffffff` colours, which its termination argument needs. Neither can happen in `to256` (`Pruning.ReducedBounds`, and the `To256` requirement on the image length).
- Colors.Downsample444: its own contract gives only the range. The nibble
  formula is stated by `Colors.DownsampleChannels`.
- Groups.Avg: its own contract gives only the zero case and the range. The
  per-channel rounded means are stated by `Groups.AvgChannels`.
