/** A dense two-dimensional grid stored row by row in one flat buffer:
    cell (x, y) of a `width` x `height` grid lives at offset x + width * y. */
module Grid2D {
  import opened Wrappers

  /** A cell position: `x` is the column, `y` the row. Validity is always
      relative to a particular grid. */
  datatype Coord2D = Coord2D(x: nat, y: nat)

  /** Conversion from a pair `(x, y)`. */
  function FromPair(p: (nat, nat)): (c: Coord2D)
    ensures c.x == p.0 && c.y == p.1
  {
    Coord2D(p.0, p.1)
  }

  /** Conversion from a two-element array `[x, y]`. */
  function FromArray(a: seq<nat>): (c: Coord2D)
    requires |a| == 2
    ensures c.x == a[0] && c.y == a[1]
  {
    Coord2D(a[0], a[1])
  }

  // ---------------------------------------------------------------------
  // Index arithmetic

  predicate CoordIsValid(width: nat, height: nat, c: Coord2D) {
    c.x < width && c.y < height
  }

  /** The offset of cell `c` in the flat buffer of a `width` x `height` grid;
      a valid cell lies inside the buffer. */
  function CoordIndex(width: nat, height: nat, c: Coord2D): (i: nat)
    ensures CoordIsValid(width, height, c) ==> i < width * height
  {
    // Both branches are the offset x + width * y; the valid branch only
    // adds the fact that row y ends inside the buffer.
    if CoordIsValid(width, height, c) then
      RowEndFits(width, c.y, height);
      c.x + width * c.y
    else
      c.x + width * c.y
  }

  lemma MulMono(k: nat, a: nat, b: nat)
    requires a <= b
    ensures k * a <= k * b
  {
  }

  /** Row y of a grid with k columns and more than y rows ends inside it. */
  lemma RowEndFits(k: nat, y: nat, h: nat)
    requires y < h
    ensures 0 <= k * y && k * y + k <= k * h
  {
    MulMono(k, y + 1, h);
  }

  /** An offset lies in the span [width * row + lo, width * row + lo + n) of
      one row exactly when it is the offset of a cell of that row whose
      column lies in [lo, lo + n). */
  lemma RowSpan(width: nat, x: nat, y: nat, row: nat, lo: nat, n: nat)
    requires x < width && lo + n <= width
    ensures (width * row + lo <= x + width * y < width * row + lo + n)
        <==> (y == row && lo <= x < lo + n)
  {
    if y < row {
      RowEndFits(width, y, row);
    } else if y > row {
      RowEndFits(width, row, y);
    }
  }

  /** Distinct valid cells have distinct offsets. */
  lemma CoordIndexInjective(width: nat, height: nat, a: Coord2D, b: Coord2D)
    requires CoordIsValid(width, height, a) && CoordIsValid(width, height, b)
    requires CoordIndex(width, height, a) == CoordIndex(width, height, b)
    ensures a == b
  {
    RowSpan(width, a.x, a.y, b.y, b.x, 1);
  }

  /** Offsets order cells row by row: one cell comes before another exactly
      when it lies in an earlier row, or in the same row further left.
      Only the columns need to be in range. */
  lemma CoordIndexOrder(width: nat, height: nat, a: Coord2D, b: Coord2D)
    requires a.x < width && b.x < width
    ensures CoordIndex(width, height, a) < CoordIndex(width, height, b)
        <==> a.y < b.y || (a.y == b.y && a.x < b.x)
  {
    if a.y < b.y {
      RowEndFits(width, a.y, b.y);
    } else if b.y < a.y {
      RowEndFits(width, b.y, a.y);
    }
  }

  /** Every offset inside the buffer belongs to a valid cell. */
  lemma CoordIndexOnto(width: nat, height: nat, i: nat)
    requires i < width * height
    ensures exists c :: CoordIsValid(width, height, c) && CoordIndex(width, height, c) == i
  {
    var c := Coord2D(i % width, i / width);
    if i / width >= height {
      MulMono(width, height, i / width);
    }
    assert CoordIndex(width, height, c) == i;
  }

  // ---------------------------------------------------------------------
  // Traversal order

  /** One step of the iterators' cursor: move right, wrapping to the start
      of the next row at the right edge. */
  function Advance(width: nat, c: Coord2D): Coord2D {
    var c := c.(x := c.x + 1);
    if c.x >= width then c.(x := 0, y := c.y + 1) else c
  }

  /** The cursor after `k` steps from (0, 0). */
  function CursorAfter(width: nat, k: nat): Coord2D
    decreases k
  {
    if k == 0 then Coord2D(0, 0) else Advance(width, CursorAfter(width, k - 1))
  }

  /** One step from a valid cell reaches the next offset, still within the
      columns; it leaves the rows only after the last cell, landing on the
      start of the first row past the grid. */
  lemma AdvanceFromValid(width: nat, height: nat, c: Coord2D)
    requires CoordIsValid(width, height, c)
    ensures var n := Advance(width, c);
      n.x < width && n.x + width * n.y == c.x + width * c.y + 1 &&
      if c.x + width * c.y + 1 < width * height then n.y < height
      else n == Coord2D(0, height) && c.x + width * c.y + 1 == width * height
  {
    RowEndFits(width, c.y, height);
    if c.x + 1 == width {
      assert c.x + width * c.y + 1 == width * (c.y + 1);
      if c.y + 1 < height {
        RowEndFits(width, c.y + 1, height);
      }
    }
  }

  /** The k-th cursor position is the cell stored at offset k, for every
      offset of the buffer; afterwards the cursor stays below the last row,
      so it never again names a valid cell. */
  lemma {:induction false} CursorEnumerates(width: nat, height: nat, k: nat)
    ensures k < width * height ==>
      CoordIsValid(width, height, CursorAfter(width, k)) &&
      CoordIndex(width, height, CursorAfter(width, k)) == k
    ensures k >= width * height ==>
      (width == 0 || CursorAfter(width, k).y >= height) &&
      !CoordIsValid(width, height, CursorAfter(width, k))
  {
    if k == 0 {
      if width > 0 && height > 0 {
        MulMono(width, 1, height);
      }
    } else {
      CursorEnumerates(width, height, k - 1);
      var c := CursorAfter(width, k - 1);
      assert CursorAfter(width, k) == Advance(width, c);
      if k - 1 < width * height {
        AdvanceFromValid(width, height, c);
      } else {
        assert Advance(width, c).y >= c.y;
      }
    }
  }

  /** The traversal is in row-major order: an earlier position is in an
      earlier row, or in the same row and further left. */
  lemma CursorRowMajorOrder(width: nat, height: nat, i: nat, j: nat)
    requires i < j < width * height
    ensures var a, b := CursorAfter(width, i), CursorAfter(width, j);
      a.y < b.y || (a.y == b.y && a.x < b.x)
  {
    CursorEnumerates(width, height, i);
    CursorEnumerates(width, height, j);
  }

  /** Each valid cell is reached at exactly one step, the one equal to its
      offset. */
  lemma CursorVisitsOnce(width: nat, height: nat, c: Coord2D)
    requires CoordIsValid(width, height, c)
    ensures forall k: nat :: CursorAfter(width, k) == c <==> k == CoordIndex(width, height, c)
  {
    forall k: nat ensures CursorAfter(width, k) == c <==> k == CoordIndex(width, height, c) {
      CursorEnumerates(width, height, k);
      if k < width * height && k != CoordIndex(width, height, c) && CursorAfter(width, k) == c {
        assert false;
      }
      if k == CoordIndex(width, height, c) {
        CoordIndexInjective(width, height, CursorAfter(width, k), c);
      }
    }
  }

  /** The offsets handed out by one mutable traversal are pairwise distinct:
      no two yielded references alias. */
  lemma IterMutIndicesDistinct(width: nat, height: nat, i: nat, j: nat)
    requires i < j < width * height
    ensures CoordIndex(width, height, CursorAfter(width, i))
         != CoordIndex(width, height, CursorAfter(width, j))
  {
    CursorEnumerates(width, height, i);
    CursorEnumerates(width, height, j);
  }

  // ---------------------------------------------------------------------
  // Rectangles of a row-major buffer

  /** The offset where row r of a rectangle with top-left corner c starts. */
  function RowStart(width: nat, c: Coord2D, r: nat): nat {
    width * (c.y + r) + c.x
  }

  /** Every one of the first `rows` rows of `w` cells starting at the row
      starts of corner `c` ends inside a buffer of length `n` (the rows
      may run past the right edge into the next grid row). */
  predicate RowsFit(n: nat, width: nat, c: Coord2D, w: nat, rows: nat) {
    rows == 0 || RowStart(width, c, rows - 1) + w <= n
  }

  /** The concatenation of the first `i` row slices of `w` cells starting at
      the row starts of corner `c`: what the rows loop of `sub` builds. */
  function Rows<T>(cells: seq<T>, width: nat, c: Coord2D, w: nat, i: nat): (r: seq<T>)
    requires RowsFit(|cells|, width, c, w, i)
    ensures |r| == w * i
    decreases i
  {
    if i == 0 then []
    else
      var b := RowStart(width, c, i - 1);
      Rows(cells, width, c, w, i - 1) + cells[b..b + w]
  }

  /** A rectangle inside the grid fits in its buffer. */
  lemma ContainedRowsFit(width: nat, height: nat, c: Coord2D, w: nat, i: nat)
    requires c.x + w <= width && c.y + i <= height
    ensures RowsFit(width * height, width, c, w, i)
  {
    if i > 0 {
      RowEndFits(width, c.y + (i - 1), height);
    }
  }

  /** One more row of a rectangle inside the grid: the row fits and is
      appended to the rows before it. */
  lemma RowsNext<T>(cells: seq<T>, width: nat, height: nat, c: Coord2D, w: nat, i: nat)
    requires |cells| == width * height && c.x + w <= width && c.y + i < height
    ensures RowStart(width, c, i) + w <= |cells|
    ensures RowsFit(|cells|, width, c, w, i) && RowsFit(|cells|, width, c, w, i + 1)
    ensures Rows(cells, width, c, w, i + 1)
         == Rows(cells, width, c, w, i) + cells[RowStart(width, c, i)..RowStart(width, c, i) + w]
  {
    ContainedRowsFit(width, height, c, w, i);
    RowEndFits(width, c.y + i, height);
  }

  /** When the rectangle lies inside the grid, cell (x, y) of the extracted
      rows is grid cell (c.x + x, c.y + y). */
  lemma {:induction false} RowsAt<T>(cells: seq<T>, width: nat, height: nat, c: Coord2D,
                                     w: nat, i: nat, p: Coord2D)
    requires |cells| == width * height && c.x + w <= width && c.y + i <= height
    requires CoordIsValid(w, i, p)
    ensures RowsFit(|cells|, width, c, w, i)
    ensures Rows(cells, width, c, w, i)[CoordIndex(w, i, p)]
         == cells[CoordIndex(width, height, Coord2D(c.x + p.x, c.y + p.y))]
    decreases i
  {
    ContainedRowsFit(width, height, c, w, i);
    var prev := Rows(cells, width, c, w, i - 1);
    if p.y < i - 1 {
      RowsAt(cells, width, height, c, w, i - 1, p);
      assert CoordIndex(w, i - 1, p) < |prev|;
    } else {
      assert CoordIndex(w, i, p) == |prev| + p.x;
    }
  }

  /** `RowsAt` for every cell of the extracted rectangle. */
  lemma RowsEverywhere<T>(cells: seq<T>, width: nat, height: nat, c: Coord2D, w: nat, h: nat)
    requires |cells| == width * height && c.x + w <= width && c.y + h <= height
    ensures RowsFit(|cells|, width, c, w, h)
    ensures forall p :: CoordIsValid(w, h, p) ==>
      Rows(cells, width, c, w, h)[CoordIndex(w, h, p)]
      == cells[CoordIndex(width, height, Coord2D(c.x + p.x, c.y + p.y))]
  {
    ContainedRowsFit(width, height, c, w, h);
    forall p | CoordIsValid(w, h, p)
      ensures Rows(cells, width, c, w, h)[CoordIndex(w, h, p)]
           == cells[CoordIndex(width, height, Coord2D(c.x + p.x, c.y + p.y))]
    {
      RowsAt(cells, width, height, c, w, h, p);
    }
  }

  /** `cells` with the slice starting at `begin` replaced by `row`. */
  function PasteRow<T>(cells: seq<T>, begin: nat, row: seq<T>): (r: seq<T>)
    requires begin + |row| <= |cells|
    ensures |r| == |cells|
    ensures forall j :: 0 <= j < |r| ==>
      r[j] == if begin <= j < begin + |row| then row[j - begin] else cells[j]
  {
    cells[..begin] + row + cells[begin + |row|..]
  }

  /** `clone_from_slice` on the slice of `dst` starting at `begin`. */
  method CloneFromSlice<T>(dst: array<T>, begin: nat, src: seq<T>)
    requires begin + |src| <= dst.Length
    modifies dst
    ensures dst[..] == PasteRow(old(dst[..]), begin, src)
  {
    forall j | begin <= j < begin + |src| {
      dst[j] := src[j - begin];
    }
  }

  /** The blit of `copy`: a `width` x `height` buffer after the first `i` rows
      of the `sw` x `sh` source `src` have been written over the rectangle
      whose top-left corner is `d`. */
  function Blit<T>(cells: seq<T>, width: nat, height: nat, src: seq<T>, sw: nat, sh: nat,
                   d: Coord2D, i: nat): (r: seq<T>)
    requires |cells| == width * height && |src| == sw * sh
    requires d.x + sw <= width && d.y + sh <= height && i <= sh
    ensures |r| == |cells|
    decreases i
  {
    if i == 0 then cells
    else
      var dst := RowStart(width, d, i - 1);
      var s := sw * (i - 1);
      RowEndFits(width, d.y + (i - 1), height);
      RowEndFits(sw, i - 1, sh);
      PasteRow(Blit(cells, width, height, src, sw, sh, d, i - 1), dst, src[s..s + sw])
  }

  /** A blit of an empty source (no columns or no rows) changes nothing. */
  lemma {:induction false} BlitEmpty<T>(cells: seq<T>, width: nat, height: nat, src: seq<T>,
                                        sw: nat, sh: nat, d: Coord2D, i: nat)
    requires |cells| == width * height && |src| == sw * sh
    requires d.x + sw <= width && d.y + sh <= height && i <= sh
    requires sw == 0 || sh == 0
    ensures Blit(cells, width, height, src, sw, sh, d, i) == cells
    decreases i
  {
    if i > 0 {
      BlitEmpty(cells, width, height, src, sw, sh, d, i - 1);
      BlitNextRow(cells, width, height, src, sw, sh, d, i - 1);
      assert src[sw * (i - 1)..sw * (i - 1) + sw] == [];
    }
  }

  /** Whether `p` lies in the rectangle of `w` x `h` cells with corner `d`. */
  predicate InRect(p: Coord2D, d: Coord2D, w: nat, h: nat) {
    d.x <= p.x < d.x + w && d.y <= p.y < d.y + h
  }

  /** Row i of the `source` grid goes to offsets RowStart(width, d, i) onwards, and
      both that row and its destination lie inside their buffers. */
  lemma BlitNextRow<T>(cells: seq<T>, width: nat, height: nat, src: seq<T>,
                       sw: nat, sh: nat, d: Coord2D, i: nat)
    requires |cells| == width * height && |src| == sw * sh
    requires d.x + sw <= width && d.y + sh <= height && i < sh
    ensures RowStart(width, d, i) + sw <= |cells| && 0 <= sw * i && sw * i + sw <= |src|
    ensures Blit(cells, width, height, src, sw, sh, d, i + 1)
         == PasteRow(Blit(cells, width, height, src, sw, sh, d, i),
                     RowStart(width, d, i), src[sw * i..sw * i + sw])
  {
    RowEndFits(width, d.y + i, height);
    RowEndFits(sw, i, sh);
  }

  /** The i-th row of a blit writes source row i - 1 over grid row
      d.y + i - 1, columns d.x to d.x + sw - 1, and nothing else. */
  lemma BlitLastRow<T>(cells: seq<T>, width: nat, height: nat, src: seq<T>,
                       sw: nat, sh: nat, d: Coord2D, i: nat, p: Coord2D)
    requires |cells| == width * height && |src| == sw * sh
    requires d.x + sw <= width && d.y + sh <= height && 0 < i <= sh
    requires CoordIsValid(width, height, p)
    ensures var j := CoordIndex(width, height, p);
      Blit(cells, width, height, src, sw, sh, d, i)[j]
      == if p.y == d.y + i - 1 && d.x <= p.x < d.x + sw
         then src[CoordIndex(sw, sh, Coord2D(p.x - d.x, i - 1))]
         else Blit(cells, width, height, src, sw, sh, d, i - 1)[j]
  {
    var prev := Blit(cells, width, height, src, sw, sh, d, i - 1);
    var dst, s := RowStart(width, d, i - 1), sw * (i - 1);
    RowEndFits(width, d.y + (i - 1), height);
    RowEndFits(sw, i - 1, sh);
    var row := src[s..s + sw];
    assert Blit(cells, width, height, src, sw, sh, d, i) == PasteRow(prev, dst, row);
    var j := CoordIndex(width, height, p);
    RowSpan(width, p.x, p.y, d.y + (i - 1), d.x, sw);
    if p.y == d.y + i - 1 && d.x <= p.x < d.x + sw {
      assert j - dst == p.x - d.x by {
        assert j == p.x + width * (d.y + (i - 1));
      }
      assert CoordIndex(sw, sh, Coord2D(p.x - d.x, i - 1)) == s + (p.x - d.x);
    }
  }

  /** After a blit of `i` rows, a cell inside those rows holds the
      corresponding source cell and every other cell is unchanged. */
  lemma {:induction false} BlitAt<T>(cells: seq<T>, width: nat, height: nat, src: seq<T>,
                                     sw: nat, sh: nat, d: Coord2D, i: nat, p: Coord2D)
    requires |cells| == width * height && |src| == sw * sh
    requires d.x + sw <= width && d.y + sh <= height && i <= sh
    requires CoordIsValid(width, height, p)
    ensures Blit(cells, width, height, src, sw, sh, d, i)[CoordIndex(width, height, p)]
         == if InRect(p, d, sw, i)
            then src[CoordIndex(sw, sh, Coord2D(p.x - d.x, p.y - d.y))]
            else cells[CoordIndex(width, height, p)]
    decreases i
  {
    if i > 0 {
      BlitAt(cells, width, height, src, sw, sh, d, i - 1, p);
      BlitLastRow(cells, width, height, src, sw, sh, d, i, p);
      if p.y == d.y + i - 1 && d.x <= p.x < d.x + sw {
        assert Coord2D(p.x - d.x, i - 1) == Coord2D(p.x - d.x, p.y - d.y);
      } else {
        assert InRect(p, d, sw, i) == InRect(p, d, sw, i - 1);
      }
    }
  }

  /** `BlitAt` for every cell of a whole blit. */
  lemma BlitEverywhere<T>(cells: seq<T>, width: nat, height: nat, src: seq<T>,
                          sw: nat, sh: nat, d: Coord2D)
    requires |cells| == width * height && |src| == sw * sh
    requires d.x + sw <= width && d.y + sh <= height
    ensures forall p :: CoordIsValid(width, height, p) ==>
      Blit(cells, width, height, src, sw, sh, d, sh)[CoordIndex(width, height, p)]
      == if InRect(p, d, sw, sh)
         then src[CoordIndex(sw, sh, Coord2D(p.x - d.x, p.y - d.y))]
         else cells[CoordIndex(width, height, p)]
  {
    forall p | CoordIsValid(width, height, p) {
      BlitAt(cells, width, height, src, sw, sh, d, sh, p);
    }
  }

  /** Copying a rectangle cut out of one grid back to the same corner of a
      grid of the same dimensions makes the two agree on the rectangle and
      leaves the rest of the destination as it was. */
  lemma SubCopyRoundTrip<T>(a: seq<T>, b: seq<T>, width: nat, height: nat,
                            c: Coord2D, w: nat, h: nat, p: Coord2D)
    requires |a| == width * height && |b| == width * height
    requires c.x + w <= width && c.y + h <= height
    requires CoordIsValid(width, height, p)
    ensures RowsFit(|a|, width, c, w, h)
    ensures Blit(b, width, height, Rows(a, width, c, w, h), w, h, c, h)[CoordIndex(width, height, p)]
         == if InRect(p, c, w, h) then a[CoordIndex(width, height, p)] else b[CoordIndex(width, height, p)]
  {
    ContainedRowsFit(width, height, c, w, h);
    var rows := Rows(a, width, c, w, h);
    BlitAt(b, width, height, rows, w, h, c, h, p);
    if InRect(p, c, w, h) {
      var q := Coord2D(p.x - c.x, p.y - c.y);
      RowsAt(a, width, height, c, w, h, q);
      assert Coord2D(c.x + q.x, c.y + q.y) == p;
    }
  }

  // ---------------------------------------------------------------------
  // The grid

  /** A `width` x `height` grid of `T`. The buffer is never reallocated, so
      the dimensions and the buffer reference are constants. */
  class Array2D<T> {
    const width: nat
    const height: nat
    const data: array<T>

    /** The buffer holds exactly one slot per cell. */
    ghost predicate Valid() {
      data.Length == width * height
    }

    /** `new_with`: every cell holds `fill`. */
    constructor NewWith(width: nat, height: nat, fill: T)
      ensures Valid() && fresh(data)
      ensures this.width == width && this.height == height
      ensures data.Length == width * height
      ensures forall i :: 0 <= i < data.Length ==> data[i] == fill
    {
      this.width := width;
      this.height := height;
      this.data := new T[width * height](_ => fill);
    }

    /** The struct literal that ends `sub`: a grid over an existing buffer. */
    constructor FromData(width: nat, height: nat, cells: seq<T>)
      requires |cells| == width * height
      ensures Valid() && fresh(data)
      ensures this.width == width && this.height == height && data[..] == cells
    {
      this.width := width;
      this.height := height;
      this.data := new T[|cells|](i requires 0 <= i < |cells| => cells[i]);
    }

    function Width(): (w: nat)
      ensures Valid() ==> w * height == data.Length
    {
      width
    }

    function Height(): (h: nat)
      ensures Valid() ==> width * h == data.Length
    {
      height
    }

    /** The whole buffer, in row-major order. */
    function Data(): (s: seq<T>)
      reads data
      ensures |s| == data.Length
      ensures Valid() ==> forall c :: CoordIsValid(width, height, c) ==>
        s[CoordIndex(width, height, c)] == At(c)
    {
      data[..]
    }

    /** `at`: the value of cell `c`. */
    function At(c: Coord2D): T
      reads data
      requires Valid() && CoordIsValid(width, height, c)
    {
      data[CoordIndex(width, height, c)]
    }

    /** `at_mut`: the exclusive reference to cell `c`, as its offset. */
    method AtMut(c: Coord2D) returns (i: nat)
      requires Valid() && CoordIsValid(width, height, c)
      ensures i < data.Length && i == CoordIndex(width, height, c)
    {
      i := CoordIndex(width, height, c);
    }

    /** `set`: cell `c` now holds `v`; every other cell keeps its value. */
    method Set(c: Coord2D, v: T)
      requires Valid() && CoordIsValid(width, height, c)
      modifies data
      ensures data[..] == old(data[..])[CoordIndex(width, height, c) := v]
      ensures At(c) == v
      ensures forall p :: CoordIsValid(width, height, p) && p != c ==> At(p) == old(At(p))
    {
      var i := AtMut(c);
      data[i] := v;
      forall p | CoordIsValid(width, height, p) && p != c
        ensures At(p) == old(At(p))
      {
        if CoordIndex(width, height, p) == i {
          CoordIndexInjective(width, height, p, c);
        }
      }
    }

    /** `sub`: a fresh `w` x `h` grid holding the rectangle with top-left
        corner `c`. The requirement that the rectangle lie inside the grid
        is not checked by the Rust `sub` (see `SubAsWritten`). */
    method Sub(c: Coord2D, w: nat, h: nat) returns (r: Array2D<T>)
      requires Valid()
      requires w > 0 && h > 0 && CoordIsValid(width, height, c)
      requires c.x + w <= width && c.y + h <= height
      ensures fresh(r) && fresh(r.data) && r.Valid()
      ensures r.width == w && r.height == h
      ensures RowsFit(data.Length, width, c, w, h) && r.data[..] == Rows(data[..], width, c, w, h)
      ensures forall p :: CoordIsValid(w, h, p) ==>
        r.At(p) == At(Coord2D(c.x + p.x, c.y + p.y))
    {
      var rows := CollectRows(c, w, h);
      r := new Array2D.FromData(w, h, rows);
      RowsEverywhere(data[..], width, height, c, w, h);
    }

    /** The rows loop of `sub`: one slice of `w` cells per row of the
        rectangle with top-left corner `c`, appended in order. */
    method CollectRows(c: Coord2D, w: nat, h: nat) returns (rows: seq<T>)
      requires Valid() && c.x + w <= width && c.y + h <= height
      ensures RowsFit(data.Length, width, c, w, h) && rows == Rows(data[..], width, c, w, h)
    {
      rows := [];
      for i := 0 to h
        invariant RowsFit(data.Length, width, c, w, i)
        invariant rows == Rows(data[..], width, c, w, i)
      {
        RowsNext(data[..], width, height, c, w, i);
        rows := rows + data[RowStart(width, c, i)..RowStart(width, c, i) + w];
      }
    }

    /** `copy`: writes all of `source` over the rectangle whose top-left
        corner is `d`, row by row. */
    method Copy(source: Array2D<T>, d: Coord2D)
      requires Valid() && source.Valid() && source.data != data
      requires d.x + source.width <= width && d.y + source.height <= height
      modifies data
      ensures data[..] == Blit(old(data[..]), width, height, source.data[..],
                               source.width, source.height, d, source.height)
    {
      var sw, sh := source.width, source.height;
      ghost var cells, src := data[..], source.data[..];
      for i := 0 to sh
        invariant source.data[..] == src
        invariant data[..] == Blit(cells, width, height, src, sw, sh, d, i)
      {
        BlitNextRow(cells, width, height, src, sw, sh, d, i);
        CloneFromSlice(data, RowStart(width, d, i), source.data[sw * i..sw * i + sw]);
      }
    }

    /** `iter`: a fresh read-only traversal starting at (0, 0). */
    method Iter() returns (it: Iter<T>)
      requires Valid()
      ensures fresh(it) && it.Valid() && it.grid == this && it.steps == 0
    {
      it := new Iter(this);
    }

    /** `iter_mut`: a fresh mutable traversal starting at (0, 0). */
    method IterMut() returns (it: IterMut<T>)
      requires Valid()
      ensures fresh(it) && it.Valid() && it.grid == this && it.steps == 0
    {
      it := new IterMut(this);
    }
  }

  /** The row-major read-only iterator over a grid. `steps` counts the calls
      to `Next` so far. */
  class Iter<T> {
    const grid: Array2D<T>
    var coord: Coord2D
    ghost var steps: nat

    ghost predicate Valid()
      reads this
    {
      grid.Valid() && coord == CursorAfter(grid.width, steps)
    }

    constructor (grid: Array2D<T>)
      requires grid.Valid()
      ensures Valid() && this.grid == grid && coord == Coord2D(0, 0) && steps == 0
    {
      this.grid := grid;
      coord := Coord2D(0, 0);
      steps := 0;
    }

    /** The k-th call yields the cell stored at offset k with its value, for
        k below width * height, and nothing afterwards. */
    method Next() returns (item: Option<(Coord2D, T)>)
      requires Valid()
      modifies this
      ensures Valid() && steps == old(steps) + 1
      ensures item == if old(steps) < grid.data.Length
                      then Some((CursorAfter(grid.width, old(steps)), grid.data[old(steps)]))
                      else None
      ensures item.Some? ==>
        CoordIsValid(grid.width, grid.height, item.value.0) &&
        CoordIndex(grid.width, grid.height, item.value.0) == old(steps)
      ensures item.Some? ==> item.value.1 == grid.At(item.value.0)
    {
      CursorEnumerates(grid.width, grid.height, steps);
      if CoordIsValid(grid.width, grid.height, coord) {
        item := Some((coord, grid.At(coord)));
      } else {
        item := None;
      }
      coord := coord.(x := coord.x + 1);
      if coord.x >= grid.width {
        coord := coord.(x := 0, y := coord.y + 1);
      }
      steps := steps + 1;
    }
  }

  /** The row-major mutable iterator. The mutable reference it hands out is
      modelled as the offset of the cell in the grid's buffer. */
  class IterMut<T> {
    const grid: Array2D<T>
    var coord: Coord2D
    ghost var steps: nat

    ghost predicate Valid()
      reads this
    {
      grid.Valid() && coord == CursorAfter(grid.width, steps)
    }

    constructor (grid: Array2D<T>)
      requires grid.Valid()
      ensures Valid() && this.grid == grid && coord == Coord2D(0, 0) && steps == 0
    {
      this.grid := grid;
      coord := Coord2D(0, 0);
      steps := 0;
    }

    /** The k-th call yields the cell stored at offset k and that offset, for
        k below width * height, and nothing afterwards. */
    method Next() returns (item: Option<(Coord2D, nat)>)
      requires Valid()
      modifies this
      ensures Valid() && steps == old(steps) + 1
      ensures item == if old(steps) < grid.data.Length
                      then Some((CursorAfter(grid.width, old(steps)), old(steps)))
                      else None
      ensures item.Some? ==>
        CoordIsValid(grid.width, grid.height, item.value.0) &&
        CoordIndex(grid.width, grid.height, item.value.0) == item.value.1
    {
      CursorEnumerates(grid.width, grid.height, steps);
      if CoordIsValid(grid.width, grid.height, coord) {
        var i := grid.AtMut(coord);
        item := Some((coord, i));
      } else {
        item := None;
      }
      coord := coord.(x := coord.x + 1);
      if coord.x >= grid.width {
        coord := coord.(x := 0, y := coord.y + 1);
      }
      steps := steps + 1;
    }
  }

  /** A full mutable traversal that writes `f(c)` through the reference
      yielded for each cell `c`: afterwards every cell holds its own marker,
      so no write landed on another cell. */
  method WriteThroughIterMut<T>(a: Array2D<T>, f: Coord2D -> T)
    requires a.Valid()
    modifies a.data
    ensures forall c :: CoordIsValid(a.width, a.height, c) ==> a.At(c) == f(c)
  {
    var it := a.IterMut();
    ghost var n := a.data.Length;
    while true
      invariant fresh(it) && it.Valid() && it.grid == a && it.steps <= n
      invariant forall j {:trigger a.data[j]} :: 0 <= j < it.steps ==> a.data[j] == f(CursorAfter(a.width, j))
      decreases n - it.steps
    {
      var item := it.Next();
      if item.None? {
        break;
      }
      var (c, i) := item.value;
      a.data[i] := f(c);
    }
    forall c | CoordIsValid(a.width, a.height, c)
      ensures a.At(c) == f(c)
    {
      CursorVisitsOnce(a.width, a.height, c);
    }
  }

  // ---------------------------------------------------------------------
  // `sub` exactly as the Rust code writes it

  /** `sub` as the Rust code writes it: the three assertions, then one slice of
      `w` cells per row starting at the row starts of `c`; `None` is a
      panic. Nothing checks that c.x + w <= width or c.y + h <= height, so
      only a slice running past the end of the buffer panics. */
  function SubAsWritten<T>(cells: seq<T>, width: nat, height: nat, c: Coord2D,
                           w: nat, h: nat): (r: Option<seq<T>>)
    ensures r.Some? <==>
      w > 0 && h > 0 && CoordIsValid(width, height, c) && RowsFit(|cells|, width, c, w, h)
    ensures r.Some? ==> |r.value| == w * h
  {
    if w == 0 || h == 0 || !CoordIsValid(width, height, c) then None
    else if !RowsFit(|cells|, width, c, w, h) then None
    else Some(Rows(cells, width, c, w, h))
  }

  /** On the 2 x 2 grid [0, 1, 2, 3], `sub((1, 0), 2, 1)` passes every
      assertion although the rectangle sticks out of the grid, and its cell
      (1, 0) is grid cell (0, 1) of the next row. */
  lemma SubAsWrittenWrapsRow()
    ensures var r := SubAsWritten<int>([0, 1, 2, 3], 2, 2, Coord2D(1, 0), 2, 1);
      r == Some([1, 2]) &&
      r.value[CoordIndex(2, 1, Coord2D(1, 0))] == [0, 1, 2, 3][CoordIndex(2, 2, Coord2D(0, 1))]
  {
    var cells: seq<int> := [0, 1, 2, 3];
    assert RowsFit(|cells|, 2, Coord2D(1, 0), 2, 1);
    assert Rows(cells, 2, Coord2D(1, 0), 2, 1) == Rows(cells, 2, Coord2D(1, 0), 2, 0) + cells[1..3];
    assert cells[1..3] == [1, 2];
    assert Rows(cells, 2, Coord2D(1, 0), 2, 1) == [1, 2];
    assert CoordIsValid(2, 2, Coord2D(1, 0));
    assert SubAsWritten(cells, 2, 2, Coord2D(1, 0), 2, 1) == Some(Rows(cells, 2, Coord2D(1, 0), 2, 1));
    assert CoordIndex(2, 1, Coord2D(1, 0)) == 1;
    assert CoordIndex(2, 2, Coord2D(0, 1)) == 2;
  }
}
