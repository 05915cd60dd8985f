/**
 * The grid builders of the buffer-copy benchmarks: a generator of a
 * rows x cols source grid of random ASCII glyphs, and the two ways of
 * copying a possibly ragged source into a fresh rows x cols buffer, one
 * allocating every row on its own and one cutting every row out of a
 * single flat backing array.
 */
module Grid {

  /** One screen cell: a code point, the style bits and the two colours. */
  datatype Glyph = Glyph(ch: int, mode: int, fg: int, bg: int)

  /** Go's zero Glyph, which every freshly made cell holds. */
  const Zero := Glyph(0, 0, 0, 0)

  /** A glyph as the generator writes it: an ASCII code point and nothing else set. */
  predicate IsAscii(g: Glyph) {
    0 <= g.ch < 128 && g == Glyph(g.ch, 0, 0, 0)
  }

  /** The value of a slice of lines made of separately allocated row arrays. */
  function Lines(a: array<array<Glyph>>): seq<seq<Glyph>>
    reads a, set y | 0 <= y < a.Length :: a[y]
  {
    seq(a.Length, y requires 0 <= y < a.Length reads a, set i | 0 <= i < a.Length :: a[i] => a[y][..])
  }

  /** Cell (y, x) of a copy of src: the source cell where src has one, otherwise a zero glyph. */
  function Cell(src: seq<seq<Glyph>>, y: nat, x: nat): Glyph {
    if y < |src| && x < |src[y]| then src[y][x] else Zero
  }

  /** Row y of a cols-wide copy of src, cell by cell. */
  function CopiedRow(src: seq<seq<Glyph>>, y: nat, cols: nat): (row: seq<Glyph>)
    ensures |row| == cols
    ensures forall x :: 0 <= x < cols ==> row[x] == Cell(src, y, x)
  {
    seq(cols, x requires 0 <= x < cols => Cell(src, y, x))
  }

  /** n zero glyphs. */
  function Zeros(n: nat): (z: seq<Glyph>)
    ensures |z| == n && forall k :: 0 <= k < n ==> z[k] == Zero
  {
    seq(n, _ => Zero)
  }

  function Min(a: nat, b: nat): nat {
    if a < b then a else b
  }

  /** Row y of the flat copy: what copy() moves in from src[y], then the zeros that were there. */
  function FlatRow(src: seq<seq<Glyph>>, y: nat, cols: nat): seq<Glyph> {
    if y < |src| then
      var n := Min(cols, |src[y]|);
      src[y][..n] + Zeros(cols - n)
    else
      Zeros(cols)
  }

  /** The flat layout's row is the cell-by-cell row: both copies build the same grid. */
  lemma FlatRowIsCopiedRow(src: seq<seq<Glyph>>, y: nat, cols: nat)
    ensures FlatRow(src, y, cols) == CopiedRow(src, y, cols)
  {
    var f, c := FlatRow(src, y, cols), CopiedRow(src, y, cols);
    assert |f| == cols;
    forall x | 0 <= x < cols
      ensures f[x] == c[x]
    {
      if y < |src| && x < Min(cols, |src[y]|) {
        assert f[x] == src[y][x];
      } else {
        assert f[x] == Zero;
      }
    }
  }

  /** A source shorter or narrower than the buffer only pads: its first min(cols, len) cells survive. */
  lemma CopiedRowPrefix(src: seq<seq<Glyph>>, y: nat, cols: nat)
    requires y < |src|
    ensures CopiedRow(src, y, cols)[..Min(cols, |src[y]|)] == src[y][..Min(cols, |src[y]|)]
    ensures CopiedRow(src, y, cols)[Min(cols, |src[y]|)..] == Zeros(cols - Min(cols, |src[y]|))
  {
    FlatRowIsCopiedRow(src, y, cols);
    var n := Min(cols, |src[y]|);
    assert FlatRow(src, y, cols)[..n] == src[y][..n];
    assert FlatRow(src, y, cols)[n..] == Zeros(cols - n);
  }

  /** Copying a grid of the buffer's own shape reproduces it. */
  lemma CopyOfFullGrid(src: seq<seq<Glyph>>, cols: nat)
    requires forall y :: 0 <= y < |src| ==> |src[y]| == cols
    ensures forall y :: 0 <= y < |src| ==> CopiedRow(src, y, cols) == src[y]
  {
    forall y | 0 <= y < |src|
      ensures CopiedRow(src, y, cols) == src[y]
    {
      assert |CopiedRow(src, y, cols)| == |src[y]|;
    }
  }

  /** Where row i of a flat rows x cols backing array starts: i rows of cols cells before it. */
  function RowStart(i: nat, cols: nat): nat {
    if i == 0 then 0 else RowStart(i - 1, cols) + cols
  }

  /** That start is the offset i*cols the flat copy computes. */
  lemma {:induction false} RowStartIsProduct(i: nat, cols: nat)
    ensures RowStart(i, cols) == i * cols
  {
    if i > 0 {
      RowStartIsProduct(i - 1, cols);
      assert i * cols == (i - 1) * cols + cols;
    }
  }

  /**
   * Rows of a flat backing array lie in row order without overlapping:
   * row y1 ends no later than row y2 starts, and (taking y2 = rows) every
   * row ends within the rows*cols cells.
   */
  lemma {:induction false} RowsOrdered(y1: nat, y2: nat, cols: nat)
    requires y1 < y2
    ensures RowStart(y1, cols) + cols <= RowStart(y2, cols)
    decreases y2
  {
    if y1 + 1 < y2 {
      RowsOrdered(y1, y2 - 1, cols);
    }
  }

  /**
   * generateSrc: rows freshly made rows of cols glyphs each, every glyph
   * holding an arbitrary code point below 128 (rand.Intn(128)).
   */
  method GenerateSrc(rows: nat, cols: nat) returns (src: array<array<Glyph>>)
    ensures fresh(src) && src.Length == rows
    ensures forall y :: 0 <= y < rows ==> fresh(src[y]) && src[y].Length == cols
    ensures forall y, y' :: 0 <= y < y' < rows ==> src[y] != src[y']
    ensures forall y, x :: 0 <= y < rows && 0 <= x < cols ==> IsAscii(src[y][x])
  {
    var none := new Glyph[0];  // the nil line make() leaves in every slot
    src := new array<Glyph>[rows](_ => none);
    for y := 0 to rows
      invariant forall i :: 0 <= i < y ==> fresh(src[i]) && src[i].Length == cols
      invariant forall i, i' :: 0 <= i < i' < y ==> src[i] != src[i']
      invariant forall i, x :: 0 <= i < y && 0 <= x < cols ==> IsAscii(src[i][x])
    {
      var row := new Glyph[cols](_ => Zero);
      for x := 0 to cols
        modifies row
        invariant forall i :: 0 <= i < y ==> src[i] != row
        invariant forall k :: 0 <= k < x ==> IsAscii(row[k])
      {
        var c: int :| 0 <= c < 128;
        row[x] := Glyph(c, 0, 0, 0);
      }
      src[y] := row;
    }
  }

  /** The generated source is a full rows x cols grid, which the copies reproduce unchanged. */
  lemma GeneratedIsFull(src: array<array<Glyph>>, rows: nat, cols: nat)
    requires src.Length == rows && forall y :: 0 <= y < rows ==> src[y].Length == cols
    ensures |Lines(src)| == rows
    ensures forall y :: 0 <= y < rows ==> |Lines(src)[y]| == cols && CopiedRow(Lines(src), y, cols) == Lines(src)[y]
  {
    CopyOfFullGrid(Lines(src), cols);
  }

  /**
   * The original copyBuffer: rows freshly made rows of cols cells; cell
   * (y, x) is src[y][x] where the source has that cell and the zero
   * glyph otherwise.
   */
  method CopyBufferOriginal(src: seq<seq<Glyph>>, rows: nat, cols: nat) returns (buf: array<array<Glyph>>)
    ensures fresh(buf) && buf.Length == rows
    ensures forall y :: 0 <= y < rows ==> fresh(buf[y]) && buf[y][..] == CopiedRow(src, y, cols)
    ensures forall y, y' :: 0 <= y < y' < rows ==> buf[y] != buf[y']
  {
    var none := new Glyph[0];
    buf := new array<Glyph>[rows](_ => none);
    for y := 0 to rows
      invariant forall i :: 0 <= i < y ==> fresh(buf[i]) && buf[i][..] == CopiedRow(src, i, cols)
      invariant forall i, i' :: 0 <= i < i' < y ==> buf[i] != buf[i']
    {
      var row := new Glyph[cols](_ => Zero);
      buf[y] := row;
      for x := 0 to cols
        modifies row
        invariant forall k :: 0 <= k < x ==> row[k] == Cell(src, y, k)
        invariant forall k :: x <= k < cols ==> row[k] == Zero
        invariant forall i :: 0 <= i < y ==> buf[i] != row && buf[i][..] == CopiedRow(src, i, cols)
      {
        if y < |src| && x < |src[y]| {
          row[x] := src[y][x];
        }
      }
    }
  }

  /** A view of part of a backing array, as a Go slice: the element at k is arr[off + k]. */
  datatype Slice = Slice(arr: array<Glyph>, off: nat, len: nat)
  {
    predicate Valid() reads {} {
      off + len <= arr.Length
    }

    function Elements(): seq<Glyph>
      reads arr
      requires Valid()
    {
      arr[off..off + len]
    }
  }

  /**
   * Go's built-in copy(dst, src): moves min(len(dst), len(src)) elements
   * into the front of dst, leaving the rest of the backing array alone.
   */
  method Copy(dst: Slice, src: seq<Glyph>) returns (n: nat)
    requires dst.Valid()
    modifies dst.arr
    ensures n == Min(dst.len, |src|)
    ensures forall k :: 0 <= k < dst.arr.Length ==>
      dst.arr[k] == if dst.off <= k < dst.off + n then src[k - dst.off] else old(dst.arr[k])
  {
    n := Min(dst.len, |src|);
    for k := 0 to n
      invariant forall i :: 0 <= i < dst.arr.Length ==>
        dst.arr[i] == if dst.off <= i < dst.off + k then src[i - dst.off] else old(dst.arr[i])
    {
      dst.arr[dst.off + k] := src[k];
    }
  }

  /**
   * The flat copyBuffer: one zeroed backing array of rows*cols glyphs; row
   * y is its slice [y*cols, (y+1)*cols), into which copy() moves the head
   * of src[y] when there is one. The made slice of row headers is
   * modelled by its final value, a sequence of slices. Every row shares the
   * one fresh backing array and holds the row of the cell-by-cell copy, so
   * the two copies build the same grid.
   */
  method CopyBufferFlat(src: seq<seq<Glyph>>, rows: nat, cols: nat) returns (buf: seq<Slice>)
    ensures |buf| == rows
    ensures rows > 0 ==> fresh(buf[0].arr) && buf[0].arr.Length == rows * cols
    ensures forall y :: 0 <= y < rows ==>
      buf[y].arr == buf[0].arr && buf[y].off == y * cols && buf[y].len == cols && buf[y].Valid()
    ensures forall y :: 0 <= y < rows ==> buf[y].Elements() == FlatRow(src, y, cols)
    ensures forall y :: 0 <= y < rows ==> buf[y].Elements() == CopiedRow(src, y, cols)
  {
    var flat := new Glyph[rows * cols](_ => Zero);
    buf := seq(rows, _ => Slice(flat, 0, 0));
    for y := 0 to rows
      invariant |buf| == rows
      invariant forall i :: 0 <= i < rows ==> buf[i].arr == flat
      invariant forall i :: 0 <= i < y ==> buf[i] == Slice(flat, i * cols, cols)
      invariant Filled(flat[..], src, y, cols)
      invariant forall k :: y * cols <= k < flat.Length ==> flat[k] == Zero
    {
      var row := CutRow(flat, src, y, rows, cols);
      buf := buf[y := row];
    }
    SlicesHoldRows(flat, buf, src, rows, cols);
  }

  /**
   * The slices the flat copy hands out, read back from the filled backing
   * array: each holds its row of the flat copy, which is the row of the
   * cell-by-cell copy.
   */
  lemma SlicesHoldRows(flat: array<Glyph>, buf: seq<Slice>, src: seq<seq<Glyph>>, rows: nat, cols: nat)
    requires flat.Length == rows * cols && |buf| == rows
    requires forall y :: 0 <= y < rows ==> buf[y] == Slice(flat, y * cols, cols)
    requires Filled(flat[..], src, rows, cols)
    ensures forall y :: 0 <= y < rows ==> buf[y].Valid() && buf[y].Elements() == FlatRow(src, y, cols)
    ensures forall y :: 0 <= y < rows ==> buf[y].Elements() == CopiedRow(src, y, cols)
  {
    RowStartIsProduct(rows, cols);
    forall y | 0 <= y < rows
      ensures buf[y].Valid() && buf[y].Elements() == FlatRow(src, y, cols)
      ensures buf[y].Elements() == CopiedRow(src, y, cols)
    {
      RowStartIsProduct(y, cols);
      RowsOrdered(y, rows, cols);
      FilledRow(flat[..], src, y, rows, cols);
      FlatRowIsCopiedRow(src, y, cols);
    }
  }

  /**
   * One turn of the flat copy: row y is the slice flat[y*cols : (y+1)*cols],
   * and copy() moves the head of src[y], if there is one, into it.
   */
  method CutRow(flat: array<Glyph>, src: seq<seq<Glyph>>, y: nat, rows: nat, cols: nat) returns (row: Slice)
    requires y < rows && flat.Length == rows * cols
    requires Filled(flat[..], src, y, cols)
    requires forall k :: y * cols <= k < flat.Length ==> flat[k] == Zero
    modifies flat
    ensures row == Slice(flat, y * cols, cols)
    ensures Filled(flat[..], src, y + 1, cols)
    ensures forall k :: (y + 1) * cols <= k < flat.Length ==> flat[k] == Zero
  {
    RowsOrdered(y, rows, cols);
    RowStartIsProduct(y, cols);
    RowStartIsProduct(y + 1, cols);
    RowStartIsProduct(rows, cols);
    row := Slice(flat, y * cols, cols);
    ghost var before := flat[..];
    var n := 0;
    if y < |src| {
      n := Copy(row, src[y]);
    }
    FillStep(before, flat[..], src, y, cols, n);
  }

  /** Rows 0 up to y of a flat backing array hold the cells of a copy of src. */
  ghost predicate Filled(a: seq<Glyph>, src: seq<seq<Glyph>>, y: nat, cols: nat) {
    forall i, k :: 0 <= i < y && 0 <= k < cols ==> HoldsCell(a, src, i, k, cols)
  }

  /** Cell k of row i sits at its place in the flat backing array. */
  ghost predicate HoldsCell(a: seq<Glyph>, src: seq<seq<Glyph>>, i: nat, k: nat, cols: nat) {
    RowStart(i, cols) + k < |a| && a[RowStart(i, cols) + k] == Cell(src, i, k)
  }

  /** A filled row, read as the slice the flat copy hands out for it. */
  lemma FilledRow(a: seq<Glyph>, src: seq<seq<Glyph>>, y: nat, rows: nat, cols: nat)
    requires Filled(a, src, rows, cols) && y < rows
    requires RowStart(y, cols) + cols <= |a|
    ensures a[RowStart(y, cols)..RowStart(y, cols) + cols] == FlatRow(src, y, cols)
  {
    FlatRowIsCopiedRow(src, y, cols);
    var lo := RowStart(y, cols);
    forall k | 0 <= k < cols
      ensures a[lo..lo + cols][k] == CopiedRow(src, y, cols)[k]
    {
      assert HoldsCell(a, src, y, k, cols);
    }
  }

  /**
   * One turn of the flat copy: copying the head of src[y] into its still
   * zeroed row fills that row and leaves the rows before and after it alone.
   */
  lemma FillStep(before: seq<Glyph>, after: seq<Glyph>, src: seq<seq<Glyph>>, y: nat, cols: nat, n: nat)
    requires Filled(before, src, y, cols)
    requires RowStart(y, cols) + cols <= |before| == |after|
    requires n == if y < |src| then Min(cols, |src[y]|) else 0
    requires forall k :: 0 <= k < |after| ==>
      after[k] == if RowStart(y, cols) <= k < RowStart(y, cols) + n then src[y][k - RowStart(y, cols)] else before[k]
    requires forall k :: RowStart(y, cols) <= k < |before| ==> before[k] == Zero
    ensures Filled(after, src, y + 1, cols)
    ensures forall k :: RowStart(y + 1, cols) <= k < |after| ==> after[k] == Zero
  {
    var lo := RowStart(y, cols);
    forall i, k | 0 <= i < y + 1 && 0 <= k < cols
      ensures HoldsCell(after, src, i, k, cols)
    {
      if i < y {
        RowsOrdered(i, y, cols);
        assert HoldsCell(before, src, i, k, cols);
        assert after[RowStart(i, cols) + k] == before[RowStart(i, cols) + k];
      } else {
        assert RowStart(i, cols) + k == lo + k;
        if k < n {
          assert after[lo + k] == src[y][k];
        } else {
          assert after[lo + k] == before[lo + k];
        }
      }
    }
    assert RowStart(y + 1, cols) == lo + cols;
    forall k | lo + cols <= k < |after|
      ensures after[k] == Zero
    {
      assert after[k] == before[k];
    }
  }
}
