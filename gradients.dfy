/** Directional differences: scipy.ndimage.convolve of an image with a 3x3 kernel under
    the default 'reflect' boundary, and the neighbour-minus-centre differences it yields
    for the kernels of the bank. */
module Gradients {
  import opened Grids
  import opened Kernels

  /** One product of the convolution sum. convolve flips the kernel: entry (u, v), which
      sits at relative offset (u - 1, v - 1), weighs the sample at offset (1 - u, 1 - v). */
  function Tap(im: Image, k: Kernel, r: int, c: int, u: int, v: int): (t: real)
    requires Rectangular(im) && InBounds(im, r, c) && Is3x3(k)
    requires 0 <= u < 3 && 0 <= v < 3
  {
    (k[u][v] as real) * Sample(im, r + 1 - u, c + 1 - v)
  }

  /** The convolution at one pixel: the nine taps of the 3x3 window. */
  function ConvolveAt(im: Image, k: Kernel, r: int, c: int): (v: real)
    requires Rectangular(im) && InBounds(im, r, c) && Is3x3(k)
  {
    Tap(im, k, r, c, 0, 0) + Tap(im, k, r, c, 0, 1) + Tap(im, k, r, c, 0, 2) +
    Tap(im, k, r, c, 1, 0) + Tap(im, k, r, c, 1, 1) + Tap(im, k, r, c, 1, 2) +
    Tap(im, k, r, c, 2, 0) + Tap(im, k, r, c, 2, 1) + Tap(im, k, r, c, 2, 2)
  }

  /** ndimage.filters.convolve(im, k): an array of the image's shape. */
  function Convolve(im: Image, k: Kernel): (out: Image)
    requires Rectangular(im) && Is3x3(k)
    ensures HasShape(out, |im|, Cols(im))
    ensures forall r, c | InBounds(im, r, c) :: out[r][c] == ConvolveAt(im, k, r, c)
  {
    seq(|im|, r requires 0 <= r < |im| =>
      seq(Cols(im), c requires 0 <= c < Cols(im) => ConvolveAt(im, k, r, c)))
  }

  /** The textbook first difference towards the neighbour at offset (dr, dc): the neighbour's
      value, reflected into the image at its border, minus the centre's. */
  function NeighbourDifference(im: Image, r: int, c: int, dr: int, dc: int): (d: real)
    requires Rectangular(im) && InBounds(im, r, c)
    requires -1 <= dr <= 1 && -1 <= dc <= 1
  {
    Sample(im, r + dr, c + dc) - im[r][c]
  }

  /** Convolving with the kernel whose +1 sits in cell (u, v) takes the difference towards the
      OPPOSITE neighbour, at offset (1 - u, 1 - v), because convolution flips the kernel. */
  lemma ConvolveDifferenceKernel(im: Image, k: Kernel, u: int, v: int, r: int, c: int)
    requires Rectangular(im) && InBounds(im, r, c) && IsDifferenceKernel(k, u, v)
    ensures ConvolveAt(im, k, r, c) == NeighbourDifference(im, r, c, 1 - u, 1 - v)
  {
    forall i, j | 0 <= i < 3 && 0 <= j < 3 && (i, j) != (1, 1) && (i, j) != (u, v)
      ensures Tap(im, k, r, c, i, j) == 0.0
    {
      assert k[i][j] == 0;
    }
    assert Tap(im, k, r, c, 1, 1) == -im[r][c];
    assert Tap(im, k, r, c, u, v) == Sample(im, r + 1 - u, c + 1 - v);
  }

  /** The gradient image of kernel i of the bank: at every pixel, a difference towards a neighbour. */
  lemma BankGradient(im: Image, i: int, r: int, c: int)
    requires Rectangular(im) && InBounds(im, r, c) && 0 <= i < 8
    ensures Convolve(im, GenerateKernels()[i])[r][c]
         == NeighbourDifference(im, r, c, 1 - PlusCells[i].0, 1 - PlusCells[i].1)
  {
    ConvolveDifferenceKernel(im, GenerateKernels()[i], PlusCells[i].0, PlusCells[i].1, r, c);
  }

  /** An image whose pixels all hold one value. */
  ghost predicate IsConstant(im: Image) {
    Rectangular(im) &&
    forall r, c, r', c' | InBounds(im, r, c) && InBounds(im, r', c') :: im[r][c] == im[r'][c']
  }

  /** On a constant image every difference vanishes, at the border too: reflection only reads pixels. */
  lemma ConstantDifference(im: Image, r: int, c: int, dr: int, dc: int)
    requires InBounds(im, r, c) && IsConstant(im)
    requires -1 <= dr <= 1 && -1 <= dc <= 1
    ensures NeighbourDifference(im, r, c, dr, dc) == 0.0
  {
    var r', c' := Reflect(r + dr, |im|), Reflect(c + dc, Cols(im));
    assert InBounds(im, r', c');
  }
}
