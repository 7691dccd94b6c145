/** The escape-time kernel `mandel` and the serial row renderer
    `mandelbrotSerial` of the threaded Mandelbrot program.

    Single-precision floats are modelled as reals; the iteration buffer is a
    sequence of iteration counts, and the renderer returns the updated buffer
    instead of writing through a pointer. */
module Mandelbrot {
  import opened Arith

  /** A point of the complex plane. */
  datatype Complex = Complex(re: real, im: real)

  /** The rectangle of the complex plane shown by the image. */
  datatype Viewport = Viewport(x0: real, y0: real, x1: real, y1: real)

  /** What every call of the renderer shares: the viewport, the image size
      and the iteration budget. */
  datatype Frame = Frame(view: Viewport, width: int, height: int, maxIterations: int)

  /** The squared modulus threshold above which an orbit has escaped. */
  const EscapeThreshold: real := 4.0

  // ---------------------------------------------------------------------------
  // Escape-time kernel
  // ---------------------------------------------------------------------------

  /** One step z <- z*z + c, with the real and imaginary parts as the source computes them. */
  function Step(z: Complex, c: Complex): Complex
  {
    Complex(c.re + (z.re * z.re - z.im * z.im), c.im + 2.0 * z.re * z.im)
  }

  /** The orbit of c as a reference: z_0 = c and z_(k+1) = z_k * z_k + c. */
  function Orbit(c: Complex, k: nat): Complex
  {
    if k == 0 then c else Step(Orbit(c, k - 1), c)
  }

  predicate Escaped(z: Complex)
  {
    z.re * z.re + z.im * z.im > EscapeThreshold
  }

  /** The counting loop of `mandel`, entered at iteration `i` with current point `z`:
      the budget test comes first, then the escape test, then one step. */
  function MandelFrom(c: Complex, z: Complex, i: int, count: int): (r: int)
    ensures r == i || i < r <= count
    decreases count - i
  {
    if i >= count then i
    else if Escaped(z) then i
    else MandelFrom(c, Step(z, c), i + 1, count)
  }

  /** `mandel(c_re, c_im, count)`: the number of iterations before the orbit
      escapes, capped at the budget. A budget of zero or less gives 0. */
  function Mandel(cRe: real, cIm: real, count: int): (r: int)
    ensures 0 <= r
    ensures count >= 0 ==> r <= count
    ensures count <= 0 ==> r == 0
  {
    MandelFrom(Complex(cRe, cIm), Complex(cRe, cIm), 0, count)
  }

  /** r is the first index from i on at which the orbit of c has escaped,
      or r has reached the budget with no escape from i on before it. */
  predicate FirstEscapeFrom(c: Complex, i: nat, count: int, r: int)
  {
    (forall k: nat :: i <= k < r ==> !Escaped(Orbit(c, k)))
    && (0 <= r < count ==> Escaped(Orbit(c, r)))
  }

  lemma {:induction false} MandelFromFirstEscape(c: Complex, i: nat, count: int)
    ensures FirstEscapeFrom(c, i, count, MandelFrom(c, Orbit(c, i), i, count))
    decreases count - i
  {
    if i >= count || Escaped(Orbit(c, i)) {
    } else {
      assert Orbit(c, i + 1) == Step(Orbit(c, i), c);
      MandelFromFirstEscape(c, i + 1, count);
    }
  }

  /** The result of `mandel` is the first index at which the orbit has
      escaped, or the budget when no orbit point up to it escapes. */
  lemma {:induction false} MandelIsFirstEscape(c: Complex, count: int)
    ensures FirstEscapeFrom(c, 0, count, Mandel(c.re, c.im, count))
  {
    MandelFromFirstEscape(c, 0, count);
  }

  // ---------------------------------------------------------------------------
  // Viewport mapping and the row renderer
  // ---------------------------------------------------------------------------

  /** The complex point of pixel (column i, row j): x0 + i*dx, y0 + j*dy with
      dx = (x1-x0)/width and dy = (y1-y0)/height. A zero width or height
      divides by zero in the source; the model then uses a step of 0. */
  function PixelPoint(f: Frame, i: int, j: int): Complex
  {
    var dx := if f.width == 0 then 0.0 else (f.view.x1 - f.view.x0) / (f.width as real);
    var dy := if f.height == 0 then 0.0 else (f.view.y1 - f.view.y0) / (f.height as real);
    Complex(f.view.x0 + (i as real) * dx, f.view.y0 + (j as real) * dy)
  }

  /** The iteration count stored for pixel (column i, row j). */
  function PixelValue(f: Frame, i: int, j: int): int
  {
    var p := PixelPoint(f, i, j);
    Mandel(p.re, p.im, f.maxIterations)
  }

  /** The row-major buffer index of pixel (column i, row j). */
  function Index(width: int, j: int, i: int): int
  {
    j * width + i
  }

  /** Buffer index k is one of those the rows [startRow, startRow+totalRows)
      occupy in a row-major buffer of the given width. */
  predicate Written(width: int, startRow: int, totalRows: int, k: int)
  {
    width > 0 && startRow * width <= k < (startRow + totalRows) * width
  }

  /** The buffer after the indices in [startRow*width, upTo) have received their
      pixel values: row k / width, column k % width. */
  function FilledUpTo(f: Frame, startRow: int, upTo: int, buf: seq<int>): seq<int>
  {
    seq(|buf|, k requires 0 <= k < |buf| =>
      if f.width > 0 && startRow * f.width <= k < upTo then PixelValue(f, k % f.width, k / f.width)
      else buf[k])
  }

  /** Reference result of rendering rows [startRow, startRow+totalRows) into buf. */
  function RenderRows(f: Frame, startRow: int, totalRows: int, buf: seq<int>): seq<int>
  {
    FilledUpTo(f, startRow, (startRow + totalRows) * f.width, buf)
  }

  /** What the source demands of a render call: every written index is in the buffer. */
  predicate RowsFit(width: int, startRow: int, totalRows: int, size: int)
  {
    width > 0 && totalRows > 0 ==> 0 <= startRow && (startRow + totalRows) * width <= size
  }

  /** Row-major layout: for 0 <= i < width, index j*width+i lies in row j, column i. */
  lemma IndexLayout(width: int, j: int, i: int)
    requires width > 0 && 0 <= i < width
    ensures (j * width + i) / width == j
    ensures (j * width + i) % width == i
  {
    var k := j * width + i;
    var q, m := k / width, k % width;
    assert k == q * width + m;
    assert (j - q) * width == m - i;
    if j - q >= 1 {
      MulMono(1, j - q, width);
    } else if j - q <= -1 {
      MulMono(j - q, -1, width);
    }
  }

  /** Distinct (row, column) pairs with an in-range column map to distinct indices. */
  lemma IndexInjective(width: int, j1: int, i1: int, j2: int, i2: int)
    requires width > 0 && 0 <= i1 < width && 0 <= i2 < width
    requires j1 != j2 || i1 != i2
    ensures j1 * width + i1 != j2 * width + i2
  {
    IndexLayout(width, j1, i1);
    IndexLayout(width, j2, i2);
  }

  /** Every index the rows write lies in [startRow*width, (startRow+totalRows)*width). */
  lemma IndexInRows(width: int, startRow: int, totalRows: int, j: int, i: int)
    requires width > 0 && 0 <= i < width
    requires startRow <= j < startRow + totalRows
    ensures Written(width, startRow, totalRows, j * width + i)
  {
    MulMono(startRow, j, width);
    MulMono(j + 1, startRow + totalRows, width);
  }

  /** One pixel of the reference render: index j*width+i holds PixelValue(f, i, j). */
  lemma RenderRowsAt(f: Frame, startRow: int, totalRows: int, buf: seq<int>, j: int, i: int)
    requires RowsFit(f.width, startRow, totalRows, |buf|)
    requires startRow <= j < startRow + totalRows && 0 <= i < f.width
    ensures 0 <= j * f.width + i < |buf|
    ensures RenderRows(f, startRow, totalRows, buf)[j * f.width + i] == PixelValue(f, i, j)
  {
    var k := j * f.width + i;
    IndexInRows(f.width, startRow, totalRows, j, i);
    MulMono(0, startRow, f.width);
    assert 0 <= k < |buf|;
    IndexLayout(f.width, j, i);
    assert k / f.width == j && k % f.width == i;
  }

  /** The reference render stores PixelValue at index j*width+i for every pixel
      of the rows, and leaves every other index as it was. */
  lemma RenderRowsContents(f: Frame, startRow: int, totalRows: int, buf: seq<int>)
    requires RowsFit(f.width, startRow, totalRows, |buf|)
    ensures |RenderRows(f, startRow, totalRows, buf)| == |buf|
    ensures forall j, i {:trigger Index(f.width, j, i)} :: startRow <= j < startRow + totalRows && 0 <= i < f.width ==>
      0 <= Index(f.width, j, i) < |buf| && RenderRows(f, startRow, totalRows, buf)[Index(f.width, j, i)] == PixelValue(f, i, j)
    ensures forall k :: 0 <= k < |buf| && !Written(f.width, startRow, totalRows, k) ==>
      RenderRows(f, startRow, totalRows, buf)[k] == buf[k]
  {
    forall j, i | startRow <= j < startRow + totalRows && 0 <= i < f.width
      ensures 0 <= Index(f.width, j, i) < |buf|
      ensures RenderRows(f, startRow, totalRows, buf)[Index(f.width, j, i)] == PixelValue(f, i, j)
    {
      RenderRowsAt(f, startRow, totalRows, buf, j, i);
    }
  }

  /** Storing one more pixel extends the filled prefix of the rows by one index. */
  lemma FillOne(f: Frame, startRow: int, j: int, i: int, buf: seq<int>)
    requires 0 <= i < f.width && startRow <= j
    requires 0 <= Index(f.width, j, i) < |buf|
    ensures FilledUpTo(f, startRow, Index(f.width, j, i), buf)[Index(f.width, j, i) := PixelValue(f, i, j)]
      == FilledUpTo(f, startRow, Index(f.width, j, i) + 1, buf)
  {
    var u := Index(f.width, j, i);
    IndexLayout(f.width, j, i);
    MulMono(startRow, j, f.width);
    assert startRow * f.width <= u;
  }

  /** Filling up to any bound at or below the first row's index changes nothing. */
  lemma FillNothing(f: Frame, startRow: int, upTo: int, buf: seq<int>)
    requires upTo <= startRow * f.width || f.width <= 0
    ensures FilledUpTo(f, startRow, upTo, buf) == buf
  {
  }

  /** `mandelbrotSerial`: render rows [startRow, startRow+totalRows) of the
      image into the buffer, row by row and column by column. */
  method MandelbrotSerial(f: Frame, startRow: int, totalRows: int, output: seq<int>) returns (out: seq<int>)
    requires RowsFit(f.width, startRow, totalRows, |output|)
    ensures |out| == |output|
    ensures forall j, i {:trigger Index(f.width, j, i)} :: startRow <= j < startRow + totalRows && 0 <= i < f.width ==>
      0 <= Index(f.width, j, i) < |out| && out[Index(f.width, j, i)] == PixelValue(f, i, j)
    ensures forall k :: 0 <= k < |output| && !Written(f.width, startRow, totalRows, k) ==> out[k] == output[k]
    ensures out == RenderRows(f, startRow, totalRows, output)
  {
    var w := f.width;
    var endRow := startRow + totalRows;
    out := output;
    if w <= 0 || totalRows <= 0 {
      // No pixel is visited: either no column or no row.
      if w > 0 {
        MulMono(endRow, startRow, w);
      }
      FillNothing(f, startRow, endRow * w, output);
      RenderRowsContents(f, startRow, totalRows, output);
      return;
    }
    var j := startRow;
    while j < endRow
      invariant startRow <= j <= endRow
      invariant out == FilledUpTo(f, startRow, Index(w, j, 0), output)
    {
      MulMono(j + 1, endRow, w);
      MulMono(0, startRow, w);
      MulMono(startRow, j, w);
      var i := 0;
      while i < w
        invariant 0 <= i <= w
        invariant out == FilledUpTo(f, startRow, Index(w, j, i), output)
      {
        var index := j * w + i;
        FillOne(f, startRow, j, i, output);
        out := out[index := Mandel(PixelPoint(f, i, j).re, PixelPoint(f, i, j).im, f.maxIterations)];
        i := i + 1;
      }
      assert Index(w, j, w) == Index(w, j + 1, 0);
      j := j + 1;
    }
    RenderRowsContents(f, startRow, totalRows, output);
  }
}
