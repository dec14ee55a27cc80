# array2d-rs in Dafny

A model of the two fixed-size grid containers of the Rust crate `array2d`, with proofs about how they behave.

- `Array2D<T>` stores a `width` x `height` grid in one flat buffer, row by row. Cell (x, y) is at offset `x + width * y`.
- `Array3D<T>` stores a `width` x `height` x `depth` grid the same way, plane by plane. Cell (x, y, z) is at offset `x + width * y + width * height * z`.

Both grids have the following operations:

- bounds-checked access: `at`, `at_mut` and `set`;
- a row-major traversal, with a read-only iterator and a mutable iterator;
- a blit that copies a smaller grid over a rectangle of the grid, in place;
- extraction of a rectangle into a fresh grid (`sub`, two-dimensional grid only).

Files:

- `wrappers.dfy`: `Option`.
- `array2d.dfy` (module `Grid2D`):
  - coordinates and index arithmetic;
  - the iterator cursor;
  - the `sub` rows and the `copy` blit as functions on sequences;
  - the `Array2D` class and its two iterator classes.
- `array3d.dfy` (module `Grid3D`): the same for three dimensions.
  - It reuses the two-dimensional results.
  - A `width` x `height` x `depth` buffer is read as a two-dimensional grid of `width` columns and `height * depth` rows.
  - Cell (x, y, z) is cell (x, y + height * z) of that grid (`Flatten`).
  - `copy_2d` is the two-dimensional blit at the flattened corner.

How the Rust code is modelled:

- The classes keep the dimensions and a buffer (`array<T>`) that is never reallocated. `Valid()` states that the buffer has one slot per cell.
- A panicking `assert!` is a precondition.
- The mutable reference that `at_mut` and `IterMut::next` return is the offset of the cell in the buffer.
- The iterators are classes with the cursor `coord` as a field. A ghost field `steps` counts the calls to `Next`, and `Valid()` ties the cursor to `CursorAfter(steps)`.
- The loops of `sub`, `copy` and `copy_2d` are `for` loops.
- Each of these loops is proved against a function on sequences: `Rows` for `sub`, and `Blit` for `copy` and `copy_2d`.
- Further lemmas say what those functions mean cell by cell.

## Model

| member | source | states |
|---|---|---|
| Grid2D.FromPair | src/array2d.rs:20-24 | the coordinate built from a pair has that pair's x and y |
| Grid2D.FromArray | src/array2d.rs:26-30 | the coordinate built from a two-element array has its two elements as x and y |
| Grid2D.CoordIsValid | src/array2d.rs:105-107 | no contract; the definition itself: x < width and y < height |
| Grid2D.CoordIndex | src/array2d.rs:105-111 | the offset of a valid cell is below width * height |
| Grid2D.CoordIndexInjective | src/array2d.rs:105-111 | two valid cells with the same offset are the same cell |
| Grid2D.CoordIndexOnto | src/array2d.rs:109-111 | every offset in the buffer is the offset of some valid cell, so valid cells and buffer slots correspond one to one |
| Grid2D.CoordIndexOrder | src/array2d.rs:109-111 | one offset is smaller than another exactly when its cell is in an earlier row, or in the same row further left |
| Grid2D.AdvanceFromValid | src/array2d.rs:46-50 | one cursor step from a valid cell moves to the next offset and stays within the columns; it leaves the rows only after the last cell, landing at (0, height) |
| Grid2D.Advance | src/array2d.rs:46-50 | no contract; the definition itself: the cursor step shared by `next` of both iterators (lines 46-50 and 71-75), x + 1, wrapping to (0, y + 1) at the right edge; its meaning is `CursorEnumerates` |
| Grid2D.CursorEnumerates | src/array2d.rs:40-52 | after k steps from (0, 0) the cursor is the valid cell at offset k, for every k below width * height; from then on it never names a valid cell |
| Grid2D.CursorRowMajorOrder | src/array2d.rs:46-50 | an earlier step visits an earlier row, or the same row further left |
| Grid2D.CursorVisitsOnce | src/array2d.rs:40-52 | each valid cell is visited at exactly one step, the one equal to its offset |
| Grid2D.IterMutIndicesDistinct | src/array2d.rs:63-77 | two different steps of one mutable traversal hand out different offsets, so the yielded references never alias |
| Grid2D.Rows | src/array2d.rs:159-164 | the concatenated row slices of `sub` hold w cells per row |
| Grid2D.RowsNext | src/array2d.rs:160-163 | for a rectangle inside the grid, the next row slice lies in the buffer and is appended after the earlier rows |
| Grid2D.RowsAt | src/array2d.rs:159-164 | for a rectangle inside the grid, cell (x, y) of the extracted rows is grid cell (c.x + x, c.y + y) |
| Grid2D.RowsEverywhere | src/array2d.rs:159-164 | `RowsAt` for every cell of the rectangle at once |
| Grid2D.PasteRow | src/array2d.rs:184-186 | pasting a row keeps the length, puts the row's cells at its offsets and leaves every other slot alone |
| Grid2D.CloneFromSlice | src/array2d.rs:186 | `clone_from_slice` leaves the buffer equal to `PasteRow` of its old contents |
| Grid2D.Blit | src/array2d.rs:178-187 | the buffer after the first i rows of `copy` keeps its length |
| Grid2D.BlitNextRow | src/array2d.rs:179-186 | row i of the `source` grid and its destination lie inside their buffers, and the next blit step pastes that row at the row start of the destination |
| Grid2D.BlitLastRow | src/array2d.rs:179-186 | the i-th row of the blit writes source row i - 1 over destination row d.y + i - 1, columns d.x to d.x + sw - 1, and changes no other cell |
| Grid2D.BlitAt | src/array2d.rs:173-188 | after i rows, a cell inside the first i rows of the footprint holds the matching source cell, and every other cell holds its old value |
| Grid2D.BlitEverywhere | src/array2d.rs:173-188 | `BlitAt` for every cell after the whole copy |
| Grid2D.BlitEmpty | src/array2d.rs:178-187 | copying a source with no rows or no columns leaves the buffer unchanged |
| Grid2D.SubCopyRoundTrip | src/array2d.rs:153-188 | copying `sub(c, w, h)` of grid A to corner c of a grid B of the same size makes B equal to A on that rectangle and leaves the rest of B as it was |
| Grid2D.Array2D.NewWith | src/array2d.rs:87-95 | the new grid has the given dimensions, a buffer of width * height slots, and every slot holds the fill value |
| Grid2D.Array2D.FromData | src/array2d.rs:166-170 | the grid built at the end of `sub` has the given dimensions and exactly the collected cells |
| Grid2D.Array2D.Width | src/array2d.rs:97-99 | the width times the height is the buffer length |
| Grid2D.Array2D.Height | src/array2d.rs:101-103 | the width times the height is the buffer length |
| Grid2D.Array2D.Data | src/array2d.rs:127-129 | the buffer has one slot per cell, and the slot at each valid cell's offset is that cell's value |
| Grid2D.Array2D.At | src/array2d.rs:135-139 | no contract; the definition itself: the buffer slot at x + width * y, for a valid cell only (the `assert!` is the requires) |
| Grid2D.Array2D.AtMut | src/array2d.rs:141-146 | the reference handed out for a valid cell is its offset, inside the buffer |
| Grid2D.Array2D.Set | src/array2d.rs:148-151 | the buffer changes only at the cell's offset, the cell now holds the value, and every other valid cell keeps its value |
| Grid2D.Array2D.Sub | src/array2d.rs:153-171 | for a rectangle inside the grid, the result is a fresh w x h grid whose buffer is the collected rows and whose cell (x, y) equals cell (c.x + x, c.y + y) of the grid; the grid itself is not modified |
| Grid2D.Array2D.CollectRows | src/array2d.rs:159-164 | the loop of `sub` builds exactly `Rows`, the concatenated row slices |
| Grid2D.Array2D.Copy | src/array2d.rs:173-188 | the buffer afterwards is `Blit` of the old buffer with the whole source, which `BlitAt` describes cell by cell |
| Grid2D.Array2D.Iter | src/array2d.rs:113-118 | a fresh iterator over this grid that has taken no steps, cursor at (0, 0) |
| Grid2D.Array2D.IterMut | src/array2d.rs:120-125 | a fresh mutable iterator over this grid that has taken no steps, cursor at (0, 0) |
| Grid2D.Iter.constructor | src/array2d.rs:113-118 | the traversal starts at (0, 0) with no steps taken |
| Grid2D.Iter.Next | src/array2d.rs:40-52 | call k returns the cell at offset k together with its value while k < width * height, and None afterwards; the cursor advances by one step |
| Grid2D.IterMut.constructor | src/array2d.rs:120-125 | the traversal starts at (0, 0) with no steps taken |
| Grid2D.IterMut.Next | src/array2d.rs:63-77 | call k returns the cell at offset k together with that offset while k < width * height, and None afterwards |
| Grid2D.WriteThroughIterMut | src/array2d.rs:60-78 | writing through every reference of one full mutable traversal reaches every cell exactly once: each cell ends up holding its own marker |
| Grid2D.SubAsWritten | src/array2d.rs:153-171 | `sub` exactly as written succeeds exactly when w > 0, h > 0, c is valid and the last row slice ends inside the buffer; it then holds w * h cells |
| Grid2D.SubAsWrittenWrapsRow | src/array2d.rs:155-163 | on a 2 x 2 grid, `sub((1, 0), 2, 1)` passes every assertion, and its cell (1, 0) is the grid's cell (0, 1) |
| Grid3D.FromTriple | src/array3d.rs:24-28 | the coordinate built from a triple has that triple's x, y and z |
| Grid3D.FromArray | src/array3d.rs:30-34 | the coordinate built from a three-element array has its elements as x, y and z |
| Grid3D.CoordIsValid | src/array3d.rs:122-124 | no contract; the definition itself: x < width, y < height and z < depth |
| Grid3D.CoordIndex | src/array3d.rs:122-128 | the offset of a valid cell is below width * height * depth |
| Grid3D.CoordIndexFlat | src/array3d.rs:126-128 | a valid cell's offset is the offset of cell (x, y + height * z) of the two-dimensional view, which is valid there |
| Grid3D.CoordIndexInjective | src/array3d.rs:122-128 | two valid cells with the same offset are the same cell |
| Grid3D.CoordIndexOrder | src/array3d.rs:126-128 | one offset is smaller than another exactly when its cell is in an earlier plane, or the same plane and an earlier row, or the same row further left |
| Grid3D.AdvanceFromValid | src/array3d.rs:50-58 | one cursor step from a valid cell moves to the next offset within the columns and rows; it leaves the planes only after the last cell, landing at (0, 0, depth) |
| Grid3D.Advance | src/array3d.rs:50-58 | no contract; the definition itself: the cursor step shared by `next` of both iterators (lines 50-58 and 79-87), x + 1 with a carry into y at the right edge, then a separate carry of y into z when y reaches height; its meaning is `CursorEnumerates` |
| Grid3D.CursorEnumerates | src/array3d.rs:44-60 | after k steps from (0, 0, 0) the cursor is the valid cell at offset k, for every k below width * height * depth; from then on it never names a valid cell |
| Grid3D.CursorOrder | src/array3d.rs:50-58 | x varies fastest, then y, then z: a whole plane is visited before the next plane starts |
| Grid3D.CursorVisitsOnce | src/array3d.rs:44-60 | each valid cell is visited at exactly one step, the one equal to its offset |
| Grid3D.IterMutIndicesDistinct | src/array3d.rs:71-89 | two different steps of one mutable traversal hand out different offsets |
| Grid3D.Copy2DRowStart | src/array3d.rs:176-177 | the start of row i of `copy_2d`, cell (d.x, d.y + i, d.z), is row i of the rectangle at the flattened corner in the two-dimensional view |
| Grid3D.Copy2DFits | src/array3d.rs:172-173 | a source that fits into plane d.z at (d.x, d.y) fits into the two-dimensional view |
| Grid3D.InFlatRect | src/array3d.rs:175-184 | a cell is in the flattened footprint exactly when it is on plane d.z and inside the rectangle there |
| Grid3D.Copy2DAt | src/array3d.rs:170-186 | after `copy_2d`, a cell on plane d.z inside the footprint holds the matching source cell, and every other cell, on any plane, holds its old value |
| Grid3D.Copy2DEmpty | src/array3d.rs:175 | copying a source with no rows or no columns leaves the buffer unchanged |
| Grid3D.Array3D.NewWith | src/array3d.rs:99-108 | the new grid has the given dimensions, a buffer of width * height * depth slots, and every slot holds the fill value |
| Grid3D.Array3D.Width | src/array3d.rs:110-112 | the product of the three dimensions is the buffer length |
| Grid3D.Array3D.Height | src/array3d.rs:114-116 | the product of the three dimensions is the buffer length |
| Grid3D.Array3D.Depth | src/array3d.rs:118-120 | the product of the three dimensions is the buffer length |
| Grid3D.Array3D.Data | src/array3d.rs:144-146 | the buffer has one slot per cell, and the slot at each valid cell's offset is that cell's value |
| Grid3D.Array3D.At | src/array3d.rs:152-156 | no contract; the definition itself: the buffer slot at x + width * y + width * height * z, for a valid cell only (the `assert!` is the requires) |
| Grid3D.Array3D.AtMut | src/array3d.rs:158-163 | the reference handed out for a valid cell is its offset, inside the buffer |
| Grid3D.Array3D.Set | src/array3d.rs:165-168 | the buffer changes only at the cell's offset, the cell now holds the value, and every other valid cell keeps its value |
| Grid3D.Array3D.Copy2D | src/array3d.rs:170-186 | the buffer afterwards is the two-dimensional `Blit` of the `source` grid at the flattened corner, which `Copy2DAt` describes cell by cell |
| Grid3D.Array3D.Iter | src/array3d.rs:130-135 | a fresh iterator over this grid that has taken no steps, cursor at (0, 0, 0) |
| Grid3D.Array3D.IterMut | src/array3d.rs:137-142 | a fresh mutable iterator over this grid that has taken no steps, cursor at (0, 0, 0) |
| Grid3D.Iter.constructor | src/array3d.rs:130-135 | the traversal starts at (0, 0, 0) with no steps taken |
| Grid3D.Iter.Next | src/array3d.rs:44-60 | call k returns the cell at offset k together with its value while k < width * height * depth, and None afterwards |
| Grid3D.IterMut.constructor | src/array3d.rs:137-142 | the traversal starts at (0, 0, 0) with no steps taken |
| Grid3D.IterMut.Next | src/array3d.rs:71-89 | call k returns the cell at offset k together with that offset while k < width * height * depth, and None afterwards |
| Grid3D.WriteThroughIterMut | src/array3d.rs:68-90 | writing through every reference of one full mutable traversal reaches every cell exactly once |

## Left out

- `new` (both grids) is `new_with` with `T::default()`. The model has no `Default`, so `new` is `NewWith` with the default value passed in.
- `data_mut` (both grids) gives unrestricted access to the buffer. It is not modelled.
- `usize` arithmetic is modelled with unbounded `nat`. An overflow in `width * height (* depth)` or in `dest.x + source.width` is not modelled.
- Raw pointers, `unsafe` and lifetimes in `IterMut::next` are not modelled. The reference handed out is the cell's offset, which `IterMut.Next` states equals the number of earlier steps. `WriteThroughIterMut` relies on that and on `CursorVisitsOnce`. `IterMutIndicesDistinct` states the non-aliasing guarantee as a lemma of its own.
- The `Into<Coord>` arguments, the derived traits and `Clone` are not modelled. A cell value is copied as a Dafny value.
- Grid2D.Array2D.Sub: requires the whole rectangle to lie inside the grid. The Rust `sub` checks only w > 0, h > 0 and a valid corner; the as-written behaviour is `SubAsWritten` (see Findings).
- Grid3D.Array3D.Copy2D: requires d.z < depth, which the Rust `copy_2d` never checks. Without it the row slices run past the buffer and panic, unless the copied grid has no rows, or has no columns and no row start passes the end of the buffer; then the call does nothing.
- Grid2D.Array2D.Copy and Grid3D.Array3D.Copy2D: each `ensures` is stated through `Blit`. The meaning cell by cell is in the lemmas `BlitAt`, `BlitEverywhere` and `Copy2DAt`, not in the methods' own contracts.
- The proof of the two-dimensional round trip (`SubCopyRoundTrip`) is about the buffers as sequences; no method runs `sub` and then `copy` in sequence.
- A panic is a precondition that callers must meet. The model does not describe the unwinding itself.

## Findings

| source | as written | input that shows it | evidently intended | confidence | as-written member | corrected member |
|---|---|---|---|---|---|---|
| src/array2d.rs:155-163 | `sub` checks only w > 0, h > 0 and a valid corner; a row slice that runs past the right edge continues into the next grid row and only a slice past the end of the buffer panics | the 2 x 2 grid [0, 1, 2, 3], `sub((1, 0), 2, 1)` returns [1, 2]: its cell (1, 0) is grid cell (0, 1) | a rectangle sticking out of the grid is rejected, so every result cell (x, y) is grid cell (c.x + x, c.y + y) | not executed | Grid2D.SubAsWrittenWrapsRow | Grid2D.Array2D.Sub |
