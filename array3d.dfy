/** A dense three-dimensional grid stored in one flat buffer: cell
    (x, y, z) of a `width` x `height` x `depth` grid lives at offset
    x + width * y + width * height * z, so each x-y plane is a contiguous
    `width` x `height` grid and the planes follow one another. Seen as a
    two-dimensional grid of `width` columns and `height * depth` rows, cell
    (x, y, z) is cell (x, y + height * z). */
module Grid3D {
  import opened Wrappers
  import G2 = Grid2D

  /** A cell position: column `x`, row `y`, plane `z`. */
  datatype Coord3D = Coord3D(x: nat, y: nat, z: nat)

  /** Conversion from a triple `(x, y, z)`. */
  function FromTriple(t: (nat, nat, nat)): (c: Coord3D)
    ensures c.x == t.0 && c.y == t.1 && c.z == t.2
  {
    Coord3D(t.0, t.1, t.2)
  }

  /** Conversion from a three-element array `[x, y, z]`. */
  function FromArray(a: seq<nat>): (c: Coord3D)
    requires |a| == 3
    ensures c.x == a[0] && c.y == a[1] && c.z == a[2]
  {
    Coord3D(a[0], a[1], a[2])
  }

  // ---------------------------------------------------------------------
  // Index arithmetic

  predicate CoordIsValid(width: nat, height: nat, depth: nat, c: Coord3D) {
    c.x < width && c.y < height && c.z < depth
  }

  /** The offset of cell `c` in the flat buffer; a valid cell lies inside
      the buffer. */
  function CoordIndex(width: nat, height: nat, depth: nat, c: Coord3D): (i: nat)
    ensures CoordIsValid(width, height, depth, c) ==> i < width * height * depth
  {
    // Both branches are the offset x + width * y + width * height * z; the
    // valid branch only adds the facts that row y ends inside its layer
    // and layer z ends inside the buffer.
    if CoordIsValid(width, height, depth, c) then
      G2.RowEndFits(width, c.y, height);
      G2.RowEndFits(width * height, c.z, depth);
      c.x + width * c.y + width * height * c.z
    else
      c.x + width * c.y + width * height * c.z
  }

  /** The buffer of the three-dimensional grid is the buffer of its
      two-dimensional view. */
  lemma FlatLength(width: nat, height: nat, depth: nat)
    ensures width * height * depth == width * (height * depth)
  {
  }

  /** The cell's position in the two-dimensional view: rows of all planes
      stacked, plane z starting at row height * z. */
  function Flatten(height: nat, c: Coord3D): G2.Coord2D {
    G2.Coord2D(c.x, c.y + height * c.z)
  }

  /** The offset of a cell is its offset in the two-dimensional view, and a
      valid cell is valid there. */
  lemma CoordIndexFlat(width: nat, height: nat, depth: nat, c: Coord3D)
    requires CoordIsValid(width, height, depth, c)
    ensures G2.CoordIsValid(width, height * depth, Flatten(height, c))
    ensures CoordIndex(width, height, depth, c)
         == G2.CoordIndex(width, height * depth, Flatten(height, c))
  {
    G2.RowEndFits(height, c.z, depth);
    assert width * (c.y + height * c.z) == width * c.y + width * height * c.z;
  }

  /** Distinct valid cells have distinct offsets. */
  lemma CoordIndexInjective(width: nat, height: nat, depth: nat, a: Coord3D, b: Coord3D)
    requires CoordIsValid(width, height, depth, a) && CoordIsValid(width, height, depth, b)
    requires CoordIndex(width, height, depth, a) == CoordIndex(width, height, depth, b)
    ensures a == b
  {
    CoordIndexFlat(width, height, depth, a);
    CoordIndexFlat(width, height, depth, b);
    G2.CoordIndexInjective(width, height * depth, Flatten(height, a), Flatten(height, b));
    G2.CoordIndexInjective(height, depth, G2.Coord2D(a.y, a.z), G2.Coord2D(b.y, b.z));
  }

  /** Offsets order valid cells plane by plane, then row by row, then by
      column. */
  lemma CoordIndexOrder(width: nat, height: nat, depth: nat, a: Coord3D, b: Coord3D)
    requires CoordIsValid(width, height, depth, a) && CoordIsValid(width, height, depth, b)
    ensures CoordIndex(width, height, depth, a) < CoordIndex(width, height, depth, b)
        <==> a.z < b.z || (a.z == b.z && (a.y < b.y || (a.y == b.y && a.x < b.x)))
  {
    CoordIndexFlat(width, height, depth, a);
    CoordIndexFlat(width, height, depth, b);
    G2.CoordIndexOrder(width, height * depth, Flatten(height, a), Flatten(height, b));
    G2.CoordIndexOrder(height, depth, G2.Coord2D(a.y, a.z), G2.Coord2D(b.y, b.z));
    if Flatten(height, a).y == Flatten(height, b).y {
      G2.CoordIndexInjective(height, depth, G2.Coord2D(a.y, a.z), G2.Coord2D(b.y, b.z));
    }
  }

  // ---------------------------------------------------------------------
  // Traversal order

  /** One step of the iterators' cursor: move right, wrapping to the next
      row at the right edge, and then, as a separate check, to the first
      row of the next plane below the last row. */
  function Advance(width: nat, height: nat, c: Coord3D): Coord3D {
    var c := c.(x := c.x + 1);
    var c := if c.x >= width then c.(x := 0, y := c.y + 1) else c;
    if c.y >= height then c.(y := 0, z := c.z + 1) else c
  }

  /** The cursor after `k` steps from (0, 0, 0). */
  function CursorAfter(width: nat, height: nat, k: nat): Coord3D
    decreases k
  {
    if k == 0 then Coord3D(0, 0, 0) else Advance(width, height, CursorAfter(width, height, k - 1))
  }

  /** One step from a valid cell reaches the next offset, within the columns
      and rows; it leaves the planes only after the last cell, landing on
      the start of the first plane past the grid. */
  lemma AdvanceFromValid(width: nat, height: nat, depth: nat, c: Coord3D)
    requires CoordIsValid(width, height, depth, c)
    ensures var n := Advance(width, height, c);
      n.x < width && n.y < height &&
      n.x + width * n.y + width * height * n.z == c.x + width * c.y + width * height * c.z + 1 &&
      if c.x + width * c.y + width * height * c.z + 1 < width * height * depth then n.z < depth
      else n == Coord3D(0, 0, depth) &&
           c.x + width * c.y + width * height * c.z + 1 == width * height * depth
  {
    G2.RowEndFits(width, c.y, height);
    G2.RowEndFits(width * height, c.z, depth);
    if c.x + 1 == width {
      assert c.x + width * c.y + 1 == width * (c.y + 1);
      if c.y + 1 == height {
        assert width * height * c.z + width * height == width * height * (c.z + 1);
        if c.z + 1 < depth {
          G2.RowEndFits(width * height, c.z + 1, depth);
        }
      } else {
        G2.RowEndFits(width, c.y + 1, height);
      }
    }
  }

  /** The k-th cursor position is the cell stored at offset k, for every
      offset of the buffer; afterwards the cursor never again names a valid
      cell. */
  lemma {:induction false} CursorEnumerates(width: nat, height: nat, depth: nat, k: nat)
    ensures k < width * height * depth ==>
      CoordIsValid(width, height, depth, CursorAfter(width, height, k)) &&
      CoordIndex(width, height, depth, CursorAfter(width, height, k)) == k
    ensures k >= width * height * depth ==>
      (width == 0 || height == 0 || CursorAfter(width, height, k).z >= depth) &&
      !CoordIsValid(width, height, depth, CursorAfter(width, height, k))
  {
    if k == 0 {
      if width > 0 && height > 0 && depth > 0 {
        G2.MulMono(width, 1, height);
        G2.MulMono(width * height, 1, depth);
      }
    } else {
      CursorEnumerates(width, height, depth, k - 1);
      var c := CursorAfter(width, height, k - 1);
      assert CursorAfter(width, height, k) == Advance(width, height, c);
      if k - 1 < width * height * depth {
        AdvanceFromValid(width, height, depth, c);
      } else {
        assert Advance(width, height, c).z >= c.z;
      }
    }
  }

  /** The traversal goes plane by plane, each plane row by row: an earlier
      position is in an earlier plane, or in the same plane and an earlier
      row, or in the same row and further left. */
  lemma CursorOrder(width: nat, height: nat, depth: nat, i: nat, j: nat)
    requires i < j < width * height * depth
    ensures var a, b := CursorAfter(width, height, i), CursorAfter(width, height, j);
      a.z < b.z || (a.z == b.z && (a.y < b.y || (a.y == b.y && a.x < b.x)))
  {
    CursorEnumerates(width, height, depth, i);
    CursorEnumerates(width, height, depth, j);
    CoordIndexOrder(width, height, depth, CursorAfter(width, height, i), CursorAfter(width, height, j));
  }

  /** Each valid cell is reached at exactly one step, the one equal to its
      offset. */
  lemma CursorVisitsOnce(width: nat, height: nat, depth: nat, c: Coord3D)
    requires CoordIsValid(width, height, depth, c)
    ensures forall k: nat :: CursorAfter(width, height, k) == c <==> k == CoordIndex(width, height, depth, c)
  {
    forall k: nat
      ensures CursorAfter(width, height, k) == c <==> k == CoordIndex(width, height, depth, c)
    {
      CursorEnumerates(width, height, depth, k);
      if k == CoordIndex(width, height, depth, c) {
        CoordIndexInjective(width, height, depth, CursorAfter(width, height, k), c);
      }
    }
  }

  /** The offsets handed out by one mutable traversal are pairwise distinct:
      no two yielded references alias. */
  lemma IterMutIndicesDistinct(width: nat, height: nat, depth: nat, i: nat, j: nat)
    requires i < j < width * height * depth
    ensures CoordIndex(width, height, depth, CursorAfter(width, height, i))
         != CoordIndex(width, height, depth, CursorAfter(width, height, j))
  {
    CursorEnumerates(width, height, depth, i);
    CursorEnumerates(width, height, depth, j);
  }

  // ---------------------------------------------------------------------
  // Copying a two-dimensional grid onto one plane

  /** Row i of the copy starts at cell (d.x, d.y + i, d.z), which is where
      the two-dimensional view puts row i of a rectangle with corner
      Flatten(height, d). */
  lemma Copy2DRowStart(width: nat, height: nat, depth: nat, d: Coord3D, i: nat)
    ensures CoordIndex(width, height, depth, Coord3D(d.x, d.y + i, d.z))
         == G2.RowStart(width, Flatten(height, d), i)
  {
    assert width * (d.y + height * d.z + i) == width * (d.y + i) + width * height * d.z;
  }

  /** A source rectangle that fits within plane d.z fits in the
      two-dimensional view. */
  lemma Copy2DFits(height: nat, depth: nat, d: Coord3D, sh: nat)
    requires d.y + sh <= height && d.z < depth
    ensures Flatten(height, d).y + sh <= height * depth
  {
    G2.RowEndFits(height, d.z, depth);
  }

  /** An x-y plane footprint in the two-dimensional view: a cell lies in the
      flattened rectangle exactly when it lies in plane d.z and inside the
      rectangle there. */
  lemma InFlatRect(width: nat, height: nat, depth: nat, p: Coord3D, d: Coord3D, sw: nat, sh: nat)
    requires CoordIsValid(width, height, depth, p) && d.y + sh <= height
    ensures G2.InRect(Flatten(height, p), Flatten(height, d), sw, sh)
        <==> p.z == d.z && d.x <= p.x < d.x + sw && d.y <= p.y < d.y + sh
  {
    G2.RowSpan(height, p.y, p.z, d.z, d.y, sh);
  }

  /** After copying the `sw` x `sh` source onto plane d.z at (d.x, d.y), a
      cell of that plane inside the footprint holds the corresponding source
      cell, and every other cell, on that plane or any other, is unchanged. */
  lemma Copy2DAt<T>(cells: seq<T>, width: nat, height: nat, depth: nat,
                    src: seq<T>, sw: nat, sh: nat, d: Coord3D, p: Coord3D)
    requires |cells| == width * height * depth && |src| == sw * sh
    requires d.x + sw <= width && d.y + sh <= height && d.z < depth
    requires CoordIsValid(width, height, depth, p)
    ensures Flatten(height, d).y + sh <= height * depth
    ensures G2.Blit(cells, width, height * depth, src, sw, sh, Flatten(height, d), sh)
              [CoordIndex(width, height, depth, p)]
         == if p.z == d.z && d.x <= p.x < d.x + sw && d.y <= p.y < d.y + sh
            then src[G2.CoordIndex(sw, sh, G2.Coord2D(p.x - d.x, p.y - d.y))]
            else cells[CoordIndex(width, height, depth, p)]
  {
    Copy2DFits(height, depth, d, sh);
    FlatLength(width, height, depth);
    CoordIndexFlat(width, height, depth, p);
    InFlatRect(width, height, depth, p, d, sw, sh);
    G2.BlitAt(cells, width, height * depth, src, sw, sh, Flatten(height, d), sh, Flatten(height, p));
    if p.z == d.z {
      assert Flatten(height, p).y - Flatten(height, d).y == p.y - d.y;
    }
  }

  /** Copying a source without rows or without columns changes nothing. */
  lemma Copy2DEmpty<T>(cells: seq<T>, width: nat, height: nat, depth: nat,
                       src: seq<T>, sw: nat, sh: nat, d: Coord3D)
    requires |cells| == width * height * depth && |src| == sw * sh
    requires d.x + sw <= width && d.y + sh <= height && d.z < depth
    requires sw == 0 || sh == 0
    ensures Flatten(height, d).y + sh <= height * depth
    ensures G2.Blit(cells, width, height * depth, src, sw, sh, Flatten(height, d), sh) == cells
  {
    Copy2DFits(height, depth, d, sh);
    FlatLength(width, height, depth);
    G2.BlitEmpty(cells, width, height * depth, src, sw, sh, Flatten(height, d), sh);
  }

  // ---------------------------------------------------------------------
  // The grid

  /** A `width` x `height` x `depth` grid of `T`. The buffer is never
      reallocated, so the dimensions and the buffer reference are
      constants. */
  class Array3D<T> {
    const width: nat
    const height: nat
    const depth: nat
    const data: array<T>

    /** The buffer holds exactly one slot per cell. */
    ghost predicate Valid() {
      data.Length == width * height * depth
    }

    /** `new_with`: every cell holds `fill`. */
    constructor NewWith(width: nat, height: nat, depth: nat, fill: T)
      ensures Valid() && fresh(data)
      ensures this.width == width && this.height == height && this.depth == depth
      ensures data.Length == width * height * depth
      ensures forall i :: 0 <= i < data.Length ==> data[i] == fill
    {
      this.width := width;
      this.height := height;
      this.depth := depth;
      this.data := new T[width * height * depth](_ => fill);
    }

    function Width(): (w: nat)
      ensures Valid() ==> w * height * depth == data.Length
    {
      width
    }

    function Height(): (h: nat)
      ensures Valid() ==> width * h * depth == data.Length
    {
      height
    }

    function Depth(): (d: nat)
      ensures Valid() ==> width * height * d == data.Length
    {
      depth
    }

    /** The whole buffer, plane after plane, each plane row by row. */
    function Data(): (s: seq<T>)
      reads data
      ensures |s| == data.Length
      ensures Valid() ==> forall c :: CoordIsValid(width, height, depth, c) ==>
        s[CoordIndex(width, height, depth, c)] == At(c)
    {
      data[..]
    }

    /** `at`: the value of cell `c`. */
    function At(c: Coord3D): T
      reads data
      requires Valid() && CoordIsValid(width, height, depth, c)
    {
      data[CoordIndex(width, height, depth, c)]
    }

    /** `at_mut`: the exclusive reference to cell `c`, as its offset. */
    method AtMut(c: Coord3D) returns (i: nat)
      requires Valid() && CoordIsValid(width, height, depth, c)
      ensures i < data.Length && i == CoordIndex(width, height, depth, c)
    {
      i := CoordIndex(width, height, depth, c);
    }

    /** `set`: cell `c` now holds `v`; every other cell keeps its value. */
    method Set(c: Coord3D, v: T)
      requires Valid() && CoordIsValid(width, height, depth, c)
      modifies data
      ensures data[..] == old(data[..])[CoordIndex(width, height, depth, c) := v]
      ensures At(c) == v
      ensures forall p :: CoordIsValid(width, height, depth, p) && p != c ==> At(p) == old(At(p))
    {
      var i := AtMut(c);
      data[i] := v;
      forall p | CoordIsValid(width, height, depth, p) && p != c
        ensures At(p) == old(At(p))
      {
        if CoordIndex(width, height, depth, p) == i {
          CoordIndexInjective(width, height, depth, p, c);
        }
      }
    }

    /** `copy_2d`: writes all of `source` over plane d.z, with its top-left
        corner at (d.x, d.y), row by row. In the two-dimensional view this is
        the blit of `source` at Flatten(height, d). */
    method Copy2D(source: G2.Array2D<T>, d: Coord3D)
      requires Valid() && source.Valid() && source.data != data
      requires d.x + source.width <= width && d.y + source.height <= height
      requires d.z < depth
      modifies data
      ensures Flatten(height, d).y + source.height <= height * depth
      ensures data[..] == G2.Blit(old(data[..]), width, height * depth, source.data[..],
                                  source.width, source.height, Flatten(height, d), source.height)
    {
      var sw, sh := source.width, source.height;
      Copy2DFits(height, depth, d, sh);
      FlatLength(width, height, depth);
      ghost var cells, src := data[..], source.data[..];
      ghost var corner := Flatten(height, d);
      for i := 0 to sh
        invariant source.data[..] == src
        invariant data[..] == G2.Blit(cells, width, height * depth, src, sw, sh, corner, i)
      {
        G2.BlitNextRow(cells, width, height * depth, src, sw, sh, corner, i);
        var dstBegin := CoordIndex(width, height, depth, Coord3D(d.x, d.y + i, d.z));
        Copy2DRowStart(width, height, depth, d, i);
        G2.CloneFromSlice(data, dstBegin, source.data[sw * i..sw * i + sw]);
      }
    }

    /** `iter`: a fresh read-only traversal starting at (0, 0, 0). */
    method Iter() returns (it: Iter<T>)
      requires Valid()
      ensures fresh(it) && it.Valid() && it.grid == this && it.steps == 0
    {
      it := new Iter(this);
    }

    /** `iter_mut`: a fresh mutable traversal starting at (0, 0, 0). */
    method IterMut() returns (it: IterMut<T>)
      requires Valid()
      ensures fresh(it) && it.Valid() && it.grid == this && it.steps == 0
    {
      it := new IterMut(this);
    }
  }

  /** The read-only iterator over a grid, x fastest, then y, then z.
      `steps` counts the calls to `Next` so far. */
  class Iter<T> {
    const grid: Array3D<T>
    var coord: Coord3D
    ghost var steps: nat

    ghost predicate Valid()
      reads this
    {
      grid.Valid() && coord == CursorAfter(grid.width, grid.height, steps)
    }

    constructor (grid: Array3D<T>)
      requires grid.Valid()
      ensures Valid() && this.grid == grid && coord == Coord3D(0, 0, 0) && steps == 0
    {
      this.grid := grid;
      coord := Coord3D(0, 0, 0);
      steps := 0;
    }

    /** The k-th call yields the cell stored at offset k with its value, for
        k below width * height * depth, and nothing afterwards. */
    method Next() returns (item: Option<(Coord3D, T)>)
      requires Valid()
      modifies this
      ensures Valid() && steps == old(steps) + 1
      ensures item == if old(steps) < grid.data.Length
                      then Some((CursorAfter(grid.width, grid.height, old(steps)), grid.data[old(steps)]))
                      else None
      ensures item.Some? ==>
        CoordIsValid(grid.width, grid.height, grid.depth, item.value.0) &&
        CoordIndex(grid.width, grid.height, grid.depth, item.value.0) == old(steps)
      ensures item.Some? ==> item.value.1 == grid.At(item.value.0)
    {
      CursorEnumerates(grid.width, grid.height, grid.depth, steps);
      if CoordIsValid(grid.width, grid.height, grid.depth, coord) {
        item := Some((coord, grid.At(coord)));
      } else {
        item := None;
      }
      coord := coord.(x := coord.x + 1);
      if coord.x >= grid.width {
        coord := coord.(x := 0, y := coord.y + 1);
      }
      if coord.y >= grid.height {
        coord := coord.(y := 0, z := coord.z + 1);
      }
      steps := steps + 1;
    }
  }

  /** The mutable iterator, in the same order. The mutable reference it
      hands out is modelled as the offset of the cell in the grid's
      buffer. */
  class IterMut<T> {
    const grid: Array3D<T>
    var coord: Coord3D
    ghost var steps: nat

    ghost predicate Valid()
      reads this
    {
      grid.Valid() && coord == CursorAfter(grid.width, grid.height, steps)
    }

    constructor (grid: Array3D<T>)
      requires grid.Valid()
      ensures Valid() && this.grid == grid && coord == Coord3D(0, 0, 0) && steps == 0
    {
      this.grid := grid;
      coord := Coord3D(0, 0, 0);
      steps := 0;
    }

    /** The k-th call yields the cell stored at offset k and that offset,
        for k below width * height * depth, and nothing afterwards. */
    method Next() returns (item: Option<(Coord3D, nat)>)
      requires Valid()
      modifies this
      ensures Valid() && steps == old(steps) + 1
      ensures item == if old(steps) < grid.data.Length
                      then Some((CursorAfter(grid.width, grid.height, old(steps)), old(steps)))
                      else None
      ensures item.Some? ==>
        CoordIsValid(grid.width, grid.height, grid.depth, item.value.0) &&
        CoordIndex(grid.width, grid.height, grid.depth, item.value.0) == item.value.1
    {
      CursorEnumerates(grid.width, grid.height, grid.depth, steps);
      if CoordIsValid(grid.width, grid.height, grid.depth, coord) {
        var i := grid.AtMut(coord);
        item := Some((coord, i));
      } else {
        item := None;
      }
      coord := coord.(x := coord.x + 1);
      if coord.x >= grid.width {
        coord := coord.(x := 0, y := coord.y + 1);
      }
      if coord.y >= grid.height {
        coord := coord.(y := 0, z := coord.z + 1);
      }
      steps := steps + 1;
    }
  }

  /** A full mutable traversal that writes `f(c)` through the reference
      yielded for each cell `c`: afterwards every cell holds its own marker,
      so no write landed on another cell. */
  method WriteThroughIterMut<T>(a: Array3D<T>, f: Coord3D -> T)
    requires a.Valid()
    modifies a.data
    ensures forall c :: CoordIsValid(a.width, a.height, a.depth, c) ==> a.At(c) == f(c)
  {
    var it := a.IterMut();
    ghost var n := a.data.Length;
    while true
      invariant fresh(it) && it.Valid() && it.grid == a && it.steps <= n
      invariant forall j {:trigger a.data[j]} :: 0 <= j < it.steps ==>
        a.data[j] == f(CursorAfter(a.width, a.height, j))
      decreases n - it.steps
    {
      var item := it.Next();
      if item.None? {
        break;
      }
      var (c, i) := item.value;
      a.data[i] := f(c);
    }
    forall c | CoordIsValid(a.width, a.height, a.depth, c)
      ensures a.At(c) == f(c)
    {
      CursorVisitsOnce(a.width, a.height, a.depth, c);
    }
  }
}
