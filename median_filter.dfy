/**
 * The 3x3 median filter: the grid is padded by one sample on every side in
 * numpy's 'reflect' mode, each output pixel takes the 3x3 neighbourhood of
 * the padded grid around it, runs the sorting network on a scratch copy
 * and writes the centre element into a fresh output array.
 */
module MedianFilter {
  import opened PixelGrid
  import opened SortingNetwork

  // ---------------------------------------------------------------------
  // Reflect padding
  // ---------------------------------------------------------------------

  /**
   * The source index of position k (from -1 to n) of an axis of n samples
   * padded by one in 'reflect' mode: -1 maps to 1 and n to n - 2, so the
   * edge sample is not repeated. numpy extends an axis of a single sample
   * with that sample instead.
   */
  function Reflect(k: int, n: nat): (i: nat)
    requires n >= 1 && -1 <= k <= n
    ensures i < n
  {
    if n == 1 then 0 else if k == -1 then 1 else if k == n then n - 2 else k
  }

  /** Mirror image about the edge samples 0 and n - 1: numpy's general rule for 'reflect'. */
  function Mirror(k: int, n: nat): int
  {
    if k < 0 then -k else if k > n - 1 then 2 * (n - 1) - k else k
  }

  /** For axes of two or more samples Reflect is the mirror about the edge samples, which are not duplicated. */
  lemma ReflectIsMirror(k: int, n: nat)
    requires n >= 2 && -1 <= k <= n
    ensures Reflect(k, n) == Mirror(k, n)
    ensures (k == -1 || k == n) ==> Reflect(k, n) != Reflect(k + (if k == -1 then 1 else -1), n)
  {
  }

  /** The grid padded by one sample on every side. */
  function PadReflect(g: Grid, rows: nat, cols: nat): (p: Grid)
    requires IsGrid(g, rows, cols) && rows >= 1 && cols >= 1
    ensures IsGrid(p, rows + 2, cols + 2)
  {
    seq(rows + 2, i requires 0 <= i < rows + 2 =>
      seq(cols + 2, j requires 0 <= j < cols + 2 => g[Reflect(i - 1, rows)][Reflect(j - 1, cols)]))
  }

  /**
   * For grids of at least two rows and columns, padded cell (i, j) is the
   * input sample mirrored about the edge samples: the interior is the grid
   * itself and the border copies the rows and columns next to the edge.
   */
  lemma PadIsMirror(g: Grid, rows: nat, cols: nat, i: nat, j: nat)
    requires IsGrid(g, rows, cols) && rows >= 2 && cols >= 2 && i < rows + 2 && j < cols + 2
    ensures 0 <= Mirror(i - 1, rows) < rows && 0 <= Mirror(j - 1, cols) < cols
    ensures PadReflect(g, rows, cols)[i][j] == g[Mirror(i - 1, rows)][Mirror(j - 1, cols)]
    ensures 1 <= i <= rows && 1 <= j <= cols ==> PadReflect(g, rows, cols)[i][j] == g[i - 1][j - 1]
  {
    ReflectIsMirror(i - 1, rows);
    ReflectIsMirror(j - 1, cols);
  }

  /** The padded corners hold the samples diagonally inside the grid's corners. */
  lemma PadReflectCorners(g: Grid, rows: nat, cols: nat)
    requires IsGrid(g, rows, cols) && rows >= 2 && cols >= 2
    ensures PadReflect(g, rows, cols)[0][0] == g[1][1]
    ensures PadReflect(g, rows, cols)[0][cols + 1] == g[1][cols - 2]
    ensures PadReflect(g, rows, cols)[rows + 1][0] == g[rows - 2][1]
    ensures PadReflect(g, rows, cols)[rows + 1][cols + 1] == g[rows - 2][cols - 2]
  {
  }

  /** An axis of a single sample is extended with that sample on both sides. */
  lemma PadSingleRow(g: Grid, cols: nat, j: nat)
    requires IsGrid(g, 1, cols) && cols >= 1 && j < cols + 2
    ensures PadReflect(g, 1, cols)[0][j] == PadReflect(g, 1, cols)[1][j] == PadReflect(g, 1, cols)[2][j]
  {
  }

  // ---------------------------------------------------------------------
  // Windows and output pixels
  // ---------------------------------------------------------------------

  /** The 3x3 block of the padded grid whose top-left corner is (y, x), row by row. */
  function Window(p: Grid, y: nat, x: nat): (w: seq<int>)
    requires y + 3 <= |p| && forall i :: 0 <= i < |p| ==> x + 3 <= |p[i]|
    ensures |w| == 9
  {
    [p[y][x], p[y][x + 1], p[y][x + 2],
     p[y + 1][x], p[y + 1][x + 1], p[y + 1][x + 2],
     p[y + 2][x], p[y + 2][x + 1], p[y + 2][x + 2]]
  }

  /** The window the filter reads for output pixel (y, x). */
  function PixelWindow(g: Grid, rows: nat, cols: nat, y: nat, x: nat): (w: seq<int>)
    requires IsGrid(g, rows, cols) && rows >= 1 && cols >= 1 && y < rows && x < cols
    ensures |w| == 9
  {
    Window(PadReflect(g, rows, cols), y, x)
  }

  /**
   * Entry 3 * dy + dx of the window of (y, x) is the input sample at row
   * y + dy - 1 and column x + dx - 1, reflected back into the grid: each
   * output pixel depends on its own 3x3 neighbourhood of the input only.
   */
  lemma PixelWindowOfInput(g: Grid, rows: nat, cols: nat, y: nat, x: nat, dy: nat, dx: nat)
    requires IsGrid(g, rows, cols) && rows >= 1 && cols >= 1 && y < rows && x < cols && dy < 3 && dx < 3
    ensures PixelWindow(g, rows, cols, y, x)[3 * dy + dx] == g[Reflect(y + dy - 1, rows)][Reflect(x + dx - 1, cols)]
  {
  }

  /** The value the filter writes at (y, x) after `rounds` rounds of the network. */
  function FilterPixel(g: Grid, rows: nat, cols: nat, rounds: nat, y: nat, x: nat): (v: Byte)
    requires IsGrid(g, rows, cols) && rows >= 1 && cols >= 1 && y < rows && x < cols
    ensures v in PixelWindow(g, rows, cols, y, x)
  {
    var w := PixelWindow(g, rows, cols, y, x);
    NetworkCentreInWindow(w, rounds);
    Network(w, rounds)[4]
  }

  // ---------------------------------------------------------------------
  // The filter
  // ---------------------------------------------------------------------

  /** The whole filtered grid, cell by cell. */
  function FilterGrid(g: Grid, rows: nat, cols: nat, rounds: nat): (f: Grid)
    requires IsGrid(g, rows, cols) && rows >= 1 && cols >= 1
    ensures IsGrid(f, rows, cols)
  {
    seq(rows, y requires 0 <= y < rows =>
      seq(cols, x requires 0 <= x < cols => FilterPixel(g, rows, cols, rounds, y, x)))
  }

  /**
   * Copies a window into a fresh scratch array, runs the network on it in
   * place and reads the centre element.
   */
  method CentreAfterNetwork(w: seq<int>, rounds: nat) returns (m: int)
    requires |w| == 9
    ensures m == Network(w, rounds)[4]
  {
    var window := new int[9](k requires 0 <= k < 9 => w[k]);
    assert window[..] == w;
    SortWindow(window, rounds);
    m := window[4];
  }

  /** One output pixel: the network run on the padded window of (y, x). */
  method FilterAt(img: Grid, rows: nat, cols: nat, rounds: nat, padded: Grid, y: nat, x: nat) returns (m: Byte)
    requires IsGrid(img, rows, cols) && rows >= 1 && cols >= 1 && y < rows && x < cols
    requires padded == PadReflect(img, rows, cols)
    ensures m == FilterPixel(img, rows, cols, rounds, y, x)
    ensures m in PixelWindow(img, rows, cols, y, x)
  {
    var centre := CentreAfterNetwork(Window(padded, y, x), rounds);
    assert centre == FilterPixel(img, rows, cols, rounds, y, x);
    m := centre;
  }

  /**
   * The inner loop of the filter: fills row y of the output array and
   * leaves every other row as it was.
   */
  method FilterRow(img: Grid, rows: nat, cols: nat, rounds: nat, padded: Grid, filtered: array2<Byte>, y: nat)
    requires IsGrid(img, rows, cols) && rows >= 1 && cols >= 1 && y < rows
    requires padded == PadReflect(img, rows, cols)
    requires filtered.Length0 == rows && filtered.Length1 == cols
    modifies filtered
    ensures forall yy, xx :: 0 <= yy < rows && yy != y && 0 <= xx < cols ==> filtered[yy, xx] == old(filtered[yy, xx])
    ensures forall xx :: 0 <= xx < cols ==> filtered[y, xx] == FilterPixel(img, rows, cols, rounds, y, xx)
  {
    var x := 0;
    while x < cols
      invariant x <= cols
      invariant forall yy, xx :: 0 <= yy < rows && yy != y && 0 <= xx < cols ==> filtered[yy, xx] == old(filtered[yy, xx])
      invariant forall xx :: 0 <= xx < x ==> filtered[y, xx] == FilterPixel(img, rows, cols, rounds, y, xx)
    {
      var m := FilterAt(img, rows, cols, rounds, padded, y, x);
      filtered[y, x] := m;
      x := x + 1;
    }
  }

  /**
   * Filters the grid into a fresh rows x cols array; the input is a value
   * and is not changed. Every output cell holds FilterPixel of the input.
   */
  method OriginalMedianFilter(img: Grid, rows: nat, cols: nat, rounds: nat) returns (filtered: array2<Byte>)
    requires IsGrid(img, rows, cols) && rows >= 1 && cols >= 1
    ensures fresh(filtered)
    ensures filtered.Length0 == rows && filtered.Length1 == cols
    ensures forall y, x :: 0 <= y < rows && 0 <= x < cols ==> filtered[y, x] == FilterPixel(img, rows, cols, rounds, y, x)
  {
    var padded := PadReflect(img, rows, cols);
    filtered := new Byte[rows, cols]((_, _) => 0);
    var y := 0;
    while y < rows
      invariant y <= rows
      invariant fresh(filtered) && filtered.Length0 == rows && filtered.Length1 == cols
      invariant forall yy, xx :: 0 <= yy < y && 0 <= xx < cols ==> filtered[yy, xx] == FilterPixel(img, rows, cols, rounds, yy, xx)
    {
      FilterRow(img, rows, cols, rounds, padded, filtered, y);
      y := y + 1;
    }
  }

  /** An array holding FilterPixel in every cell holds the filtered grid. */
  lemma FilteredArrayIsFilterGrid(a: array2<Byte>, img: Grid, rows: nat, cols: nat, rounds: nat)
    requires IsGrid(img, rows, cols) && rows >= 1 && cols >= 1
    requires a.Length0 == rows && a.Length1 == cols
    requires forall y, x :: 0 <= y < rows && 0 <= x < cols ==> a[y, x] == FilterPixel(img, rows, cols, rounds, y, x)
    ensures GridOf(a) == FilterGrid(img, rows, cols, rounds)
  {
    forall r | 0 <= r < rows
      ensures GridOf(a)[r] == FilterGrid(img, rows, cols, rounds)[r]
    {
    }
  }

  // ---------------------------------------------------------------------
  // What the filter promises
  // ---------------------------------------------------------------------

  /** A uniform grid filters to itself: every window is constant. */
  lemma UniformGridUnchanged(g: Grid, rows: nat, cols: nat, rounds: nat, v: Byte, y: nat, x: nat)
    requires IsGrid(g, rows, cols) && rows >= 1 && cols >= 1 && y < rows && x < cols
    requires forall r, c :: 0 <= r < rows && 0 <= c < cols ==> g[r][c] == v
    ensures FilterPixel(g, rows, cols, rounds, y, x) == v
  {
    var p := PadReflect(g, rows, cols);
    forall i, j | 0 <= i < rows + 2 && 0 <= j < cols + 2
      ensures p[i][j] == v
    {
      var a, b := Reflect(i - 1, rows), Reflect(j - 1, cols);
      assert p[i][j] == g[a][b];
    }
    var w := PixelWindow(g, rows, cols, y, x);
    assert w == Window(p, y, x);
    NetworkConstant(w, rounds, v);
  }

  /**
   * A single white sample in the corner of a black grid is removed: the
   * window of (0, 0) holds it once, among eight reflected zeros.
   */
  lemma CornerImpulseRemoved(g: Grid, rows: nat, cols: nat)
    requires IsGrid(g, rows, cols) && rows >= 2 && cols >= 2
    requires g[0][0] == 255
    requires forall r, c :: 0 <= r < rows && 0 <= c < cols && (r != 0 || c != 0) ==> g[r][c] == 0
    ensures PixelWindow(g, rows, cols, 0, 0) == [0, 0, 0, 0, 255, 0, 0, 0, 0]
    ensures FilterPixel(g, rows, cols, SourceRounds, 0, 0) == 0
  {
    var w := PixelWindow(g, rows, cols, 0, 0);
    var p := PadReflect(g, rows, cols);
    assert g[0][1] == 0 && g[1][0] == 0 && g[1][1] == 0;
    assert p[0][0] == p[0][2] == p[2][0] == p[2][2] == g[1][1];
    assert p[0][1] == p[2][1] == g[1][0];
    assert p[1][0] == p[1][2] == g[0][1];
    assert p[1][1] == g[0][0];
    assert w == [0, 0, 0, 0, 255, 0, 0, 0, 0];
    AboveNetwork(w, 1, SourceRounds);
    FourRoundsBits(Above(w, 1));
  }

  /**
   * The filter as written does not compute the median: in this 3x3 image
   * the centre pixel's window is the interior itself, the four rounds
   * leave 6 at the centre, and the median of the window is 5.
   */
  lemma SourceFilterNotMedian()
    ensures IsGrid([[6, 7, 8], [9, 1, 2], [3, 4, 5]], 3, 3)
    ensures PixelWindow([[6, 7, 8], [9, 1, 2], [3, 4, 5]], 3, 3, 1, 1) == [6, 7, 8, 9, 1, 2, 3, 4, 5]
    ensures FilterPixel([[6, 7, 8], [9, 1, 2], [3, 4, 5]], 3, 3, SourceRounds, 1, 1) == 6
    ensures !IsMedian(PixelWindow([[6, 7, 8], [9, 1, 2], [3, 4, 5]], 3, 3, 1, 1), 6)
  {
    var g: Grid := [[6, 7, 8], [9, 1, 2], [3, 4, 5]];
    var p := PadReflect(g, 3, 3);
    assert p[1][1] == 6 && p[1][2] == 7 && p[1][3] == 8;
    assert p[2][1] == 9 && p[2][2] == 1 && p[2][3] == 2;
    assert p[3][1] == 3 && p[3][2] == 4 && p[3][3] == 5;
    FourRoundsNotMedian();
  }

  /** With the corrected number of rounds every output pixel is the median of its window. */
  lemma CorrectedFilterSelectsMedian(g: Grid, rows: nat, cols: nat, y: nat, x: nat)
    requires IsGrid(g, rows, cols) && rows >= 1 && cols >= 1 && y < rows && x < cols
    ensures IsMedian(PixelWindow(g, rows, cols, y, x), FilterPixel(g, rows, cols, CorrectedRounds, y, x))
  {
    FiveRoundsSelectMedian(PixelWindow(g, rows, cols, y, x));
  }
}
