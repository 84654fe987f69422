# stretchy — a Dafny model

`stretchy` provides array-like containers that never raise an index error.
Any integer index is valid, negative ones included. Reading outside the
stored range gives the container's default. Writing outside it grows the
container until it reaches that index, padding with the default.

Every axis is kept as two Python lists:
- `pos` holds indices 0, 1, 2, … in order;
- `neg` holds indices -1, -2, -3, … in order.

Index `i >= 0` lives at `pos[i]` and index `i < 0` at `neg[-i-1]`.

The model covers these parts of the package:

- **The axis** (`Axes.Axis`). The `pos`/`neg` pair with its default. It
  has reads, growth, writes, iteration order, and the layout that
  `replace_content` and `set` build from a list and an offset.
- **`Array1D`** (module `Array1D`). A class whose `pos`/`neg` fields its
  methods reassign. It covers item writes, slice reads and writes (with the
  `_range_indices` defaulting), and `replace_content` with its two loops.
- **`Stretchy1D`** (modules `Stretchy1D` and `Stretchy1DFormat`). The
  older 1-D class with `set`, item access, `str`/`repr`, and the format
  mini-language:
  - `''` gives the bracketed text;
  - a leading `r` switches to repr;
  - `a` gives columns;
  - `s` joins with nothing;
  - `Xs` joins with `X`;
  - anything else raises `ValueError`.
- **`StretchyND`** (modules `Grids` and `StretchyND`). The D-dimensional
  container is a class holding its top-level `pos`/`neg` lists of planes.
  Each plane is a value of the recursive datatype `Grids.Grid`:
  - a level of dimension 1 is an axis;
  - a higher level is a node with its own `pos`/`neg` planes.

  Reads, writes, `boundaries`, `offset`, `shape` and `replace_content` with
  offset broadcasting are all stated over that value.
- **The legacy spaces** (modules `Legacy` and `Spaces`).
  - `Space1D` returns the `(left, right)` change pair from `_setitem`.
  - `Space2D` keeps four quadrant lists and the column bounds
    `left`/`right`. Writes widen those bounds, and `crop`/`shrink` truncate.
  - `Space3D` keeps its planes in two lists. Its `boundaries` is the hull of
    the planes' boundaries.
- **Dimension selection** (module `Dimensions`). `_array_dim` computes the
  nesting depth. `array()` and `empty()` then choose between the 1-D and
  the N-D container.

Integers are unbounded in Python and in the model. Item values are a type
parameter `T`. The `str`/`repr` of an item, and whether it is `None` or a
number, come in as the function values of a `Render<T>` record.

## Model

| member | source | states |
|---|---|---|
| Axes.Axis.Get | src/stretchy/array1d.py:81-94 | reading outside the stored range gives the default |
| Axes.Axis.Set | src/stretchy/array1d.py:69-79 | a write grows only the branch of its index, to just reach it; the written index reads the value back; every other index reads as before |
| Axes.Axis.Grow | src/stretchy/stretchynd.py:134-153 | padding up to an index changes no read and makes that index stored |
| Axes.Axis.Items | src/stretchy/array1d.py:96-97 | iteration yields the reads from the lowest stored index upwards, one per stored slot |
| Axes.Load | src/stretchy/array1d.py:44-58 | the loaded axis spans min(offset,0) to max(0, offset+len); index i reads content[i-offset] inside the content and the default elsewhere |
| Axes.LoadSnoc | src/stretchy/array1d.py:52-58 | loading one more element is the shorter load followed by a write at the next index |
| Axes.Ext | src/stretchy/array1d.py:81-94 | two axes with the same default, the same lengths and the same reads are equal |
| Axes.Reverse | src/stretchy/array1d.py:97 | the reversal has the same length and reads the input back to front |
| Array1D.Range | src/stretchy/array1d.py:66 | the items of range(start, stop, step): empty exactly when Python's range is; every item lies between start and stop; the next step would pass stop |
| Array1D.RangeAt | src/stretchy/array1d.py:66 | item k of the range is start + k*step |
| Array1D.SetAllGet | src/stretchy/array1d.py:64-68 | after writing v at every index of a list, those indices read v and hold a slot, all others read as before, and the bounds only grow |
| Array1D.SetAllCons | src/stretchy/array1d.py:66-67 | the slice fill is the first write followed by the fill of the rest of the range |
| Array1D.FullRangeCoversAxis | src/stretchy/array1d.py:116-133 | the default slice range (step 1 or -1) visits exactly the stored indices |
| Array1D.RangeLength | src/stretchy/array1d.py:116-133 | the default slice range has one item per stored slot |
| Array1D.Array1D.constructor | src/stretchy/array1d.py:14-24 | a new container is empty, or the load of its content at its offset |
| Array1D.Array1D.Boundaries | src/stretchy/array1d.py:35-37 | start <= 0 <= end; the pair spans exactly the stored indices |
| Array1D.Array1D.Offset | src/stretchy/array1d.py:31-33 | the offset is the start of the boundaries and never positive |
| Array1D.Array1D.IsEmpty | src/stretchy/array1d.py:39-41 | empty exactly when the length is 0, and then every index reads the default |
| Array1D.Array1D.Length | src/stretchy/array1d.py:99-100 | the length is the number of items iteration yields |
| Array1D.Array1D.Items | src/stretchy/array1d.py:96-97 | item k of the iteration is the read at offset + k |
| Array1D.Array1D.Get | src/stretchy/array1d.py:81-94 | an index outside the boundaries reads the default |
| Array1D.Array1D.SetItem | src/stretchy/array1d.py:61-79 | an item write leaves the container as Axis.Set of the old one |
| Array1D.Array1D.RangeIndices | src/stretchy/array1d.py:116-133 | a missing step is 1; a missing start or stop becomes the first or last stored index (or one past it), depending on the sign of the step |
| Array1D.Array1D.GetSlice | src/stretchy/array1d.py:81-85 | a zero step fails; otherwise the result is the reads at the indices of range(*range_indices) |
| Array1D.Array1D.SetSlice | src/stretchy/array1d.py:61-68 | a zero step fails and changes nothing; otherwise the container becomes SetAll of the range's indices |
| Array1D.Array1D.ReplaceContent | src/stretchy/array1d.py:44-58 | after the two loops the container is the load of the content at the offset |
| Keys.IntTuple | src/stretchy/stretchynd.py:86-88 | a key passes exactly when it is a tuple of dim parts, all of which pass isinstance(x, int), bools included |
| Keys.ExactIntTuple | src/stretchy/stretchy.py:100-102 | a key passes exactly when it is a tuple of dim parts whose type is exactly int, so bools are refused |
| Keys.AsInt | src/stretchy/stretchynd.py:96-97 | isinstance(key, int) holds for ints and bools; a bool counts as 0 or 1 |
| Stretchy1D.SliceLayoutIsLoad | src/stretchy/stretchy1d.py:14-23 | the three slicing branches of set leave the same layout as the element-by-element load |
| Stretchy1D.CharsRunTogether | src/stretchy/stretchy1d.py:89-94 | under the 's' code, a container of characters prints as its items run together |
| Stretchy1D.WritesExample | tests/test_stretchy1d.py:25 | writing '#' at -6 and -2 into a container of '.' prints '#...#.' with offset -6 |
| Stretchy1D.SetExample | tests/test_stretchy1d.py:89 | set('12345', -7) on a container of '.' prints '12345..' with offset -7 |
| Stretchy1D.Stretchy1D.constructor | src/stretchy/stretchy1d.py:9-12 | a new container is empty |
| Stretchy1D.Stretchy1D.Set | src/stretchy/stretchy1d.py:14-23 | set(array, offset) leaves the container as the load of array at offset |
| Stretchy1D.Stretchy1D.SetItem | src/stretchy/stretchy1d.py:25-37 | an item write leaves the container as Axis.Set of the old one |
| Stretchy1D.Stretchy1D.Get | src/stretchy/stretchy1d.py:39-48 | outside the stored range the read is the default; inside, it is pos[i] or neg[-i-1] |
| Stretchy1D.Stretchy1D.Offset | src/stretchy/stretchy1d.py:50-51 | the offset is the lowest stored index and never positive |
| Stretchy1D.Stretchy1D.Length | src/stretchy/stretchy1d.py:56-57 | the length is the number of items iteration yields |
| Stretchy1D.Stretchy1D.Items | src/stretchy/stretchy1d.py:53-54 | item k of the iteration is the read at offset + k |
| Stretchy1D.Stretchy1D.Str | src/stretchy/stretchy1d.py:59-60 | the text starts and ends with a bar, and between them splits at commas back into the items' str texts when no text holds a comma |
| Stretchy1D.Stretchy1D.Repr | src/stretchy/stretchy1d.py:62-63 | the same as Str, with the items' repr texts |
| Stretchy1D.Stretchy1D.Columns | src/stretchy/stretchy1d.py:65-76 | the loop builds exactly ColumnsText of the items |
| Stretchy1D.Stretchy1D.Format | src/stretchy/stretchy1d.py:78-97 | format(s, fmt) is Stretchy1DFormat.Format of the items |
| Stretchy1DFormat.JoinSnoc | src/stretchy/stretchy1d.py:94-96 | joining one more text appends the separator and the text |
| Stretchy1DFormat.SplitWithoutSeparator | src/stretchy/stretchy1d.py:60 | a text without the separator splits into itself |
| Stretchy1DFormat.SplitAfterFirst | src/stretchy/stretchy1d.py:60 | splitting stops at the first separator |
| Stretchy1DFormat.JoinThenSplit | src/stretchy/stretchy1d.py:95-96 | when no text holds the separator, splitting the join gives the texts back |
| Stretchy1DFormat.Spaces | src/stretchy/stretchy1d.py:73-75 | the padding is n blanks |
| Stretchy1DFormat.AlignLeft | src/stretchy/stretchy1d.py:75 | a left-aligned field is the text followed by blanks, max(len, width) long |
| Stretchy1DFormat.AlignRight | src/stretchy/stretchy1d.py:73 | a right-aligned field is blanks followed by the text, max(len, width) long |
| Stretchy1DFormat.Width | src/stretchy/stretchy1d.py:66 | maxwidth bounds the length of every item text |
| Stretchy1DFormat.WidthAttained | src/stretchy/stretchy1d.py:66 | some item text has length exactly maxwidth |
| Stretchy1DFormat.CellStartIsProduct | src/stretchy/stretchy1d.py:68-69 | cell k of the column text starts at k*(width+1) |
| Stretchy1DFormat.JoinUniform | src/stretchy/stretchy1d.py:68-69 | joining equal-width cells with one blank puts cell k at its start and a blank after every cell but the last |
| Stretchy1DFormat.CellAlignment | src/stretchy/stretchy1d.py:70-75 | a cell is width characters long; a number is right-aligned, anything else left-aligned, and None shows as the empty text |
| Stretchy1DFormat.ColumnsLayout | src/stretchy/stretchy1d.py:65-76 | in the 'a' output, item k's cell sits at k*(maxwidth+1), maxwidth wide, separated by blanks |
| Stretchy1DFormat.CellsLayout | src/stretchy/stretchy1d.py:67-76 | the same layout for any width at least every item's text |
| Stretchy1DFormat.CellsUniform | src/stretchy/stretchy1d.py:73-75 | every cell has the same width |
| Stretchy1DFormat.Values | src/stretchy/stretchy1d.py:89-92 | one text per item |
| Stretchy1DFormat.Texts | src/stretchy/stretchy1d.py:60 | text k is the item text of item k |
| Stretchy1DFormat.BracketedSplits | src/stretchy/stretchy1d.py:59-63 | str/repr round-trip: between the bars, the text splits at commas back into the item texts |
| Stretchy1DFormat.Format | src/stretchy/stretchy1d.py:78-97 | a ValueError exactly for an unknown code, or for 'a' on an empty container; an unknown code is reported as written after the 'r' |
| Stretchy1DFormat.FormatJoinSplits | src/stretchy/stretchy1d.py:85-96 | an 'Xs' output splits at X back into the item texts; a lone 'r' means 'r,s' |
| StretchyND.OffsetList | src/stretchy/stretchynd.py:69-71 | an int offset is repeated once per axis; a list is kept |
| StretchyND.StretchyND.constructor | src/stretchy/stretchynd.py:19-31 | a new container is empty, or the load of its content with the broadcast offset |
| StretchyND.StretchyND.GetPlane | src/stretchy/stretchynd.py:134-153 | the returned plane is the old plane at i (a fresh empty one outside); the slots grow to reach i |
| StretchyND.StretchyND.SetItem | src/stretchy/stretchynd.py:85-93 | a malformed key is a TypeError and changes nothing; otherwise the container becomes Grids.Set of the old one |
| StretchyND.StretchyND.GetItem | src/stretchy/stretchynd.py:95-107 | an int key returns the plane, creating it; a tuple key reads without creating; anything else is a TypeError |
| StretchyND.StretchyND.ReplaceContent | src/stretchy/stretchynd.py:65-83 | the loop leaves exactly the load of the rows with the broadcast offset |
| StretchyND.StretchyND.Boundaries | src/stretchy/stretchynd.py:52-62 | one pair per axis, each containing 0; axis 0 is (-len(neg), len(pos)), or (0, 0) when there is no plane |
| StretchyND.StretchyND.Offset | src/stretchy/stretchynd.py:44-46 | the offset is the start of each boundary pair, never positive |
| StretchyND.StretchyND.Shape | src/stretchy/stretchynd.py:48-50 | the shape is end - start of each boundary pair |
| StretchyND.StretchyND.Length | src/stretchy/stretchynd.py:112-113 | the length is the number of planes iteration yields |
| StretchyND.StretchyND.Planes | src/stretchy/stretchynd.py:109-110 | plane k of the iteration is the slot at -len(neg) + k |
| Grids.Empty | src/stretchy/stretchynd.py:143-152 | an empty level is well formed, with the given dimension and default |
| Grids.Plane | src/stretchy/stretchynd.py:134-153 | a slot outside the stored range is a fresh empty plane |
| Grids.Set | src/stretchy/stretchynd.py:85-93 | a write puts the written plane into the slot of the leading index; the dimension and default stay |
| Grids.GetEmpty | src/stretchy/stretchynd.py:101-103 | every index of an empty container reads the default |
| Grids.GetSet | src/stretchy/stretchynd.py:85-107 | a write is read back at its index; every other index reads as before |
| Grids.MinMax | src/stretchy/stretchynd.py:14-16 | the pair bounds every start from below and every end from above |
| Grids.MinMaxAttained | src/stretchy/stretchynd.py:14-16 | both ends of the result come from some pair |
| Grids.Bounds | src/stretchy/stretchynd.py:52-62 | one pair per axis |
| Grids.BoundsDeeper | src/stretchy/stretchynd.py:60-62 | axis j > 0 is the min/max over the planes' bounds of axis j-1 |
| Grids.BoundsContainZero | src/stretchy/stretchynd.py:52-62 | each boundary pair contains 0 |
| Grids.HullCovers | src/stretchy/stretchynd.py:60-62 | the bounds of every stored plane lie within the container's bounds |
| Grids.HullAttained | src/stretchy/stretchynd.py:60-62 | each end of a deeper axis is reached by some plane |
| Grids.OutsideReadsDefault | src/stretchy/stretchynd.py:52-62 | an index outside the boundaries on any axis reads the default |
| Grids.SetGrowsBounds | src/stretchy/stretchynd.py:85-93 | a write only widens the boundaries, and the written index ends up inside them |
| Grids.Load | src/stretchy/stretchynd.py:65-83 | the loaded container is well formed, with the given dimension and default |
| Grids.LoadRows | src/stretchy/stretchynd.py:78-83 | row k is loaded with the tail of the offset |
| Grids.LoadSlots | src/stretchy/stretchynd.py:78-79 | the slots are the axis load of the rows at offset[0] |
| Grids.FilledStep | src/stretchy/stretchynd.py:78-83 | one pass of the loop adds the next row at its slot |
| Grids.FilledAll | src/stretchy/stretchynd.py:65-83 | after the last row the container equals the load |
| Grids.LoadGet | src/stretchy/stretchynd.py:65-83 | a loaded container reads content[ix - offset] wherever the content has an item, and the default elsewhere |
| Grids.AllBoundsContainZero | src/stretchy/stretchynd.py:52-62 | every boundary pair contains 0 |
| Grids.BoundsAsWritten | src/stretchy/stretchynd.py:57-58 | the boundaries as written: when they succeed they are Bounds |
| Grids.BoundsAsWrittenFails | src/stretchy/stretchynd.py:57-58 | a 2-D container with a plane raises AttributeError, while Bounds gives its pairs |
| Grids.BoundsAsWrittenExample | src/stretchy/stretchynd.py:57-58 | StretchyND(2, 0) with s[0, 0] = 1 fails as written, while Bounds is ((0, 1), (0, 1)) |
| Grids.LoadAsWritten | src/stretchy/stretchynd.py:80-81 | replace_content as written: when it succeeds it is Load; at dimension 2 it fails exactly when there are rows |
| Grids.LoadAsWrittenExample | src/stretchy/stretchynd.py:80-81 | StretchyND(2, 0, content=[[1]]) fails as written, while the corrected load reads 1 at (0, 0) |
| Legacy.Change | src/stretchy/stretchy.py:14-27 | _setitem reports a new left end exactly when a negative index grows neg, and a new right end exactly when a non-negative index grows pos |
| Legacy.ChangeIsGrowth | src/stretchy/stretchy.py:14-27 | the reported pair holds the new ends of the written row |
| Legacy.RowAt | src/stretchy/stretchy.py:121-142 | an existing row lies within the column bounds |
| Legacy.Get | src/stretchy/stretchy.py:111-118 | a row that does not exist reads the default |
| Legacy.GrowRows | src/stretchy/stretchy.py:121-138 | _getrow pads the rows of its half with empty pairs up to i and changes no read |
| Legacy.Set | src/stretchy/stretchy.py:99-108 | a write keeps the sheet well formed |
| Legacy.SetIsWidened | src/stretchy/stretchy.py:99-108 | a write is the row write, stored back and widened by the pair it reports |
| Legacy.SetRows | src/stretchy/stretchy.py:99-108 | only the written row changes |
| Legacy.GetSet | src/stretchy/stretchy.py:99-118 | a write is read back at its cell; every other cell reads as before |
| Legacy.SetWidens | src/stretchy/stretchy.py:103-108 | left never grows and right never shrinks; the written cell ends up inside the bounds |
| Legacy.OutsideReadsDefault | src/stretchy/stretchy.py:194-195 | a cell outside the boundaries reads the default |
| Legacy.Take | src/stretchy/stretchy.py:155-158 | del l[n:] keeps the first min(len, n) items |
| Legacy.TakeEach | src/stretchy/stretchy.py:159-166 | every row is truncated the same way |
| Legacy.Crop | src/stretchy/stretchy.py:145-170 | crop raises ValueError, top before left before bottom before right, exactly when a side is on the wrong side of 0; otherwise no list reaches past the box, and left/right become max/min of old and new |
| Legacy.CropIsTruncation | src/stretchy/stretchy.py:155-170 | within the allowed range, crop truncates each list and clamps left/right |
| Legacy.CropKeepsInside | src/stretchy/stretchy.py:145-170 | after a crop, a cell inside the box reads as before and a cell outside reads the default |
| Legacy.ShrinkBox | src/stretchy/stretchy.py:173-185 | each side moves inwards and is clamped so that crop's checks pass |
| Legacy.ShrinkNeverFails | src/stretchy/stretchy.py:173-186 | shrink never raises |
| Legacy.Shrink | src/stretchy/stretchy.py:173-186 | a shrink keeps the sheet well formed |
| Legacy.ShrinkKeepsInside | src/stretchy/stretchy.py:173-186 | after a shrink, a cell inside the clamped box reads as before and every other cell reads the default |
| Legacy.HullSnoc | src/stretchy/stretchy.py:304-310 | one loop step widens the running hull by the next plane's boundaries |
| Legacy.HullCovers | src/stretchy/stretchy.py:302-311 | the hull contains 0 and every plane's boundaries |
| Legacy.HullAttained | src/stretchy/stretchy.py:302-311 | each side of the hull is 0 or the same side of some plane |
| Legacy.OutsideReadsDefault3 | src/stretchy/stretchy.py:263-271 | a cell outside the 3-D boundaries reads the default |
| Spaces.Space1D.constructor | src/stretchy/stretchy.py:4-7 | a new row is empty |
| Spaces.Space1D.SetItem | src/stretchy/stretchy.py:10-27 | the row becomes Axis.Set of the old one, and the returned pair is Change of the old row |
| Spaces.Space1D.Get | src/stretchy/stretchy.py:30-39 | outside the stored range the read is the default; inside, it is pos[i] or neg[-i-1] |
| Spaces.Space1D.Offset | src/stretchy/stretchy.py:42-43 | the offset is the lowest stored index and never positive |
| Spaces.Space1D.List | src/stretchy/stretchy.py:46-50 | the list holds the reads from the offset upwards, one per stored slot |
| Spaces.Space1D.Length | src/stretchy/stretchy.py:60-61 | the length is the number of stored slots |
| Spaces.TruncateRows | src/stretchy/stretchy.py:159-166 | the loop truncates every row to n items |
| Spaces.Space2D.constructor | src/stretchy/stretchy.py:89-96 | a new sheet is empty, with column bounds (0, 0) |
| Spaces.Space2D.GetRow | src/stretchy/stretchy.py:121-142 | the rows grow to reach i, and the row returned is the one now stored there |
| Spaces.Space2D.StoreRow | src/stretchy/stretchy.py:139-142 | writing a row back replaces that row's two lists |
| Spaces.Space2D.SetItem | src/stretchy/stretchy.py:99-108 | a key that is not a pair of exact ints is a TypeError and changes nothing; otherwise the sheet becomes Legacy.Set of the old one |
| Spaces.Space2D.GetItem | src/stretchy/stretchy.py:111-118 | an int key returns the row, creating it; a pair reads without creating; anything else is a TypeError |
| Spaces.Space2D.Crop | src/stretchy/stretchy.py:145-170 | crop fails and changes nothing exactly when Legacy.Crop fails; otherwise the sheet becomes Legacy.Crop's result |
| Spaces.Space2D.CropInside | src/stretchy/stretchy.py:155-170 | the deletions and bound updates leave exactly Legacy.Crop's result |
| Spaces.Space2D.Shrink | src/stretchy/stretchy.py:173-186 | the sheet becomes Legacy.Shrink of the old one |
| Spaces.Space2D.Offset | src/stretchy/stretchy.py:188-189 | (top, left), both never positive |
| Spaces.Space2D.Shape | src/stretchy/stretchy.py:191-192 | (bottom - top, right - left) |
| Spaces.Space2D.Boundaries | src/stretchy/stretchy.py:194-195 | the box contains the origin, and every cell outside it reads the default |
| Spaces.Space2D.Length | src/stretchy/stretchy.py:201-202 | the number of rows, bottom - top |
| Spaces.Space3D.constructor | src/stretchy/stretchy.py:248-251 | a new space has no planes |
| Spaces.Space3D.GetPlane | src/stretchy/stretchy.py:274-290 | the planes grow to reach i, and the plane returned is the old plane at i (a fresh empty sheet outside) |
| Spaces.Space3D.SetItem | src/stretchy/stretchy.py:254-260 | a key that is not a triple of exact ints is a TypeError and changes nothing; otherwise the plane at i becomes the written sheet |
| Spaces.Space3D.GetItem | src/stretchy/stretchy.py:263-271 | an int key returns the plane, creating it; a triple reads without creating; anything else is a TypeError |
| Spaces.Space3D.Boundaries | src/stretchy/stretchy.py:302-311 | the loop over the planes yields Legacy.Bounds3 |
| Spaces.Space3D.Offset | src/stretchy/stretchy.py:293-294 | the first three boundaries, none of them positive |
| Spaces.Space3D.Shape | src/stretchy/stretchy.py:297-299 | the end minus the start on each of the three axes |
| Spaces.Space3D.Length | src/stretchy/stretchy.py:319-320 | the number of planes |
| Dimensions.MaxOf | src/stretchy/__init__.py:17-18 | max() bounds every item from above and is one of them |
| Dimensions.ArrayDim | src/stretchy/__init__.py:10-19 | the loop with its early return computes Depth |
| Dimensions.DepthAtLeast | src/stretchy/__init__.py:10-19 | the depth is never below the starting dim, and equals it for empty content or any non-list item |
| Dimensions.DepthIsMaximum | src/stretchy/__init__.py:12-18 | for all-list content the depth is the largest depth of the items one level down |
| Dimensions.TowerDepth | src/stretchy/__init__.py:10-19 | d nested brackets around one scalar have depth d |
| Dimensions.Array | src/stretchy/__init__.py:22-41 | an AssertionError exactly when the chosen dim is below 1, a list offset comes with one dimension, or non-Sequence content comes with more; the 1-D container is chosen exactly when the dim is 1 |
| Dimensions.InferredDimPositive | src/stretchy/__init__.py:29-35 | an inferred dim is at least 1, so it never trips the first assertion |
| Dimensions.EmptyContainer | src/stretchy/__init__.py:44-48 | empty(dim) chooses the 1-D container exactly when dim is 1 |

## Left out

- Rendering of Array1D and StretchyND through `Formatter` (`__str__`, `__repr__`, `__format__`, `_maxwidth`, `_output`, `_format`) is left out. `format.py` and the `Array` base class in `abc.py` are not part of this model.
- The `__repr__`/`__format__` of Space1D, Space2D and Space3D are left out, because they only produce output text.
- `SpaceND` (src/stretchy/stretchy.py:343-440) is left out because it cannot run. It calls `_minmax`, which that file does not define, and it reads `self.dimension` although only `self.dimensions` is set.
- `Dimensions.Array` chooses the container but does not model the constructor call. In this version `Stretchy1D.__init__` accepts only `default`, so the 1-D branch of `array()` raises `TypeError` for an unexpected keyword.
- Planes and rows are values, so aliasing is not modelled. In the source, `s[i]` and `_getrow` return live objects. A later write through such an object changes the container, and in Space2D it bypasses the update of `left`/`right`.
- `StretchyND.StretchyND.constructor` requires dim >= 2, which excludes exactly the StretchyND objects that cannot store anything. `_getplane` never builds one: at dim 2 it builds `Stretchy1D` planes (src/stretchy/stretchynd.py:143-147), and at dim >= 3 it builds `StretchyND(dim - 1)` with dim - 1 >= 2 (lines 148-152). A StretchyND below dim 2 comes only from a direct call or from `empty(d)` with d <= 0 (src/stretchy/__init__.py:44-48). Every write into one fails. For example, `StretchyND(1)[(3,)] = v` first pads four `StretchyND(0)` planes (stretchynd.py:89, 150). It then evaluates `()[0]` inside `plane[()] = v` and raises IndexError (lines 93, 89), leaving the padding behind. The 2-D level's `Stretchy1D` planes are modelled as an axis (`Grids.Grid.Leaf`).
- The 2-D level of StretchyND takes the corrected `boundaries`/`replace_content` (see Findings). The as-written behaviour is kept only in `Grids.BoundsAsWritten` and `Grids.LoadAsWritten`.
- `Grids.LoadAsWritten` returns only the failure. It does not model the container a failed `replace_content` leaves behind. In the code, that container has lost its old planes (src/stretchy/stretchynd.py:67-68) and keeps the planes `_getplane` created up to the failing row (line 79).
- `Grids.Load`: content must be nested to the container's depth (`Grids.Shaped`). A row that is not a list at an inner level raises in `replace_content`, and that error path is not modelled.
- An offset list longer than dim is not an error in the code: the extra entries are ignored. The model follows the code.
- Iterators are modelled as the sequences they yield. The laziness of the generator returned by `Array1D.__getitem__` on a slice is lost.
- Items are a type parameter. `str`/`repr` of an item, its `None`-ness and whether it is an int or float come in as `Render` function values. Float formatting itself is not modelled.
- `Spaces.Space3D.Offset` and `Spaces.Space3D.Shape` are methods, because `boundaries` works by a loop in the source. That makes `Legacy.Bounds3` their specification.
- `Array1D.Array1D.RangeIndices` does not model the `assert isinstance(..., int)` checks on the slice parts, because slice parts are integers by type here.

## Findings

| source | as written | input that shows it | evidently intended | confidence | as-written member | corrected member |
|---|---|---|---|---|---|---|
| src/stretchy/stretchynd.py:57-58 | at dimension 2, `boundaries` reads `plane.boundaries` from `Stretchy1D` planes, which have no `boundaries` attribute, so it raises AttributeError once there is a plane | `s = StretchyND(2, 0); s[0, 0] = 1; s.boundaries` | the per-axis (min, max) of the rows' `(-len(neg), len(pos))`, as at every other level | not executed | Grids.BoundsAsWritten / Grids.BoundsAsWrittenExample | Grids.Bounds / Grids.BoundsContainZero |
| src/stretchy/stretchynd.py:80-81 | at dimension 2, `replace_content` calls `plane.replace_content` on a `Stretchy1D`, which has no such method (only `set`), so any non-empty content raises AttributeError | `StretchyND(2, 0, content=[[1]])` | each row loaded into its plane at `offset[1]` | not executed | Grids.LoadAsWritten / Grids.LoadAsWrittenExample | Grids.Load / Grids.LoadGet |
