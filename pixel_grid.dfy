/**
 * The pixel grid shared by the HEX codec, the median filter and the HEX
 * writer: a rectangle of 8-bit greyscale samples, kept row by row. The
 * pipeline fixes the size at 256 x 256; the definitions here take the
 * number of rows and columns as parameters.
 */
module PixelGrid {

  /** An unsigned 8-bit sample (numpy's uint8). */
  type Byte = b: int | 0 <= b < 256

  /** A grid as a sequence of rows. */
  type Grid = seq<seq<Byte>>

  /** The side length the tools work with (IMG_SIZE and TARGET_SIZE). */
  const ImageSize: nat := 256

  predicate IsGrid(g: Grid, rows: nat, cols: nat)
  {
    |g| == rows && forall r :: 0 <= r < rows ==> |g[r]| == cols
  }

  /** The samples in row-major order (numpy's flatten). */
  function Flatten(g: Grid): (f: seq<Byte>)
    ensures forall r, c :: 0 <= r < |g| && 0 <= c < |g[r]| ==> g[r][c] in f
    ensures forall v :: v in f ==> exists r :: 0 <= r < |g| && v in g[r]
  {
    if g == [] then [] else g[0] + Flatten(g[1..])
  }

  /** Cuts a row-major sample list into rows of `cols` samples (numpy's reshape). */
  function Reshape(px: seq<Byte>, rows: nat, cols: nat): (g: Grid)
    requires |px| == rows * cols
    ensures IsGrid(g, rows, cols)
  {
    if rows == 0 then [] else [px[..cols]] + Reshape(px[cols..], rows - 1, cols)
  }

  lemma {:induction false} FlattenLength(g: Grid, rows: nat, cols: nat)
    requires IsGrid(g, rows, cols)
    ensures |Flatten(g)| == rows * cols
  {
    if rows > 0 {
      FlattenLength(g[1..], rows - 1, cols);
      assert rows * cols == cols + (rows - 1) * cols;
    }
  }

  /** Flattening puts cell (r, c) of a rows x cols grid at index r * cols + c. */
  lemma {:induction false} FlattenAt(g: Grid, rows: nat, cols: nat, r: nat, c: nat)
    requires IsGrid(g, rows, cols) && r < rows && c < cols
    ensures |Flatten(g)| == rows * cols
    ensures r * cols + c < rows * cols && Flatten(g)[r * cols + c] == g[r][c]
  {
    FlattenLength(g, rows, cols);
    var f := Flatten(g);
    assert f == g[0] + Flatten(g[1..]);
    PeelRow(rows, cols);
    if r > 0 {
      var rest := g[1..];
      var k := (r - 1) * cols + c;
      FlattenAt(rest, rows - 1, cols, r - 1, c);
      PeelRow(r, cols);
      assert f[cols + k] == Flatten(rest)[k] && rest[r - 1] == g[r];
    }
  }

  /** n rows of cols samples are one row followed by n - 1 rows. */
  lemma PeelRow(n: nat, cols: nat)
    requires n > 0
    ensures n * cols == cols + (n - 1) * cols && 0 <= (n - 1) * cols
  {
  }

  /** Reshape undoes Flatten. */
  lemma {:induction false} ReshapeFlatten(g: Grid, rows: nat, cols: nat)
    requires IsGrid(g, rows, cols)
    ensures |Flatten(g)| == rows * cols
    ensures Reshape(Flatten(g), rows, cols) == g
  {
    FlattenLength(g, rows, cols);
    if rows > 0 {
      var rest := g[1..];
      FlattenLength(rest, rows - 1, cols);
      ReshapeFlatten(rest, rows - 1, cols);
      var f := Flatten(g);
      assert f == g[0] + Flatten(rest);
      assert f[..cols] == g[0];
      assert f[cols..] == Flatten(rest);
      assert g == [g[0]] + rest;
    }
  }

  /** Flatten undoes Reshape. */
  lemma {:induction false} FlattenReshape(px: seq<Byte>, rows: nat, cols: nat)
    requires |px| == rows * cols
    ensures Flatten(Reshape(px, rows, cols)) == px
  {
    if rows > 0 {
      var g := Reshape(px, rows, cols);
      FlattenReshape(px[cols..], rows - 1, cols);
      assert g[1..] == Reshape(px[cols..], rows - 1, cols);
      assert px == px[..cols] + px[cols..];
    }
  }

  /** Cell (r, c) of a reshaped list is sample r * cols + c. */
  lemma ReshapeAt(px: seq<Byte>, rows: nat, cols: nat, r: nat, c: nat)
    requires |px| == rows * cols && r < rows && c < cols
    ensures r * cols + c < |px| && Reshape(px, rows, cols)[r][c] == px[r * cols + c]
  {
    FlattenReshape(px, rows, cols);
    FlattenAt(Reshape(px, rows, cols), rows, cols, r, c);
  }

  /** The contents of a two-dimensional array, as a grid. */
  function GridOf(a: array2<Byte>): (g: Grid)
    reads a
    ensures IsGrid(g, a.Length0, a.Length1)
    ensures forall r, c :: 0 <= r < a.Length0 && 0 <= c < a.Length1 ==> g[r][c] == a[r, c]
  {
    seq(a.Length0, r reads a requires 0 <= r < a.Length0 =>
      seq(a.Length1, c reads a requires 0 <= c < a.Length1 => a[r, c]))
  }
}
