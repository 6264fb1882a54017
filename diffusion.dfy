/** Perona_Malik: one explicit step of rational Perona-Malik diffusion,
    im + delta * sum over the eight kernels of g(nab_i) * nab_i. */
module Diffusion {
  import opened Grids
  import opened Kernels
  import opened Gradients
  import opened EdgeStop

  /** sum(res) at one pixel: Python's sum adds the fluxes g(n) * n to 0, left to right. */
  function FluxSum(ns: seq<real>, kappa: real): (total: real)
    requires kappa != 0.0
  {
    if ns == [] then 0.0 else FluxSum(ns[..|ns| - 1], kappa) + Flux(ns[|ns| - 1], kappa)
  }

  /** The differences towards the eight neighbours of (r, c), in row-major order of the 3x3
      neighbourhood. */
  function NeighbourDifferences(im: Image, r: int, c: int): (ds: seq<real>)
    requires Rectangular(im) && InBounds(im, r, c)
    ensures |ds| == 8
  {
    [NeighbourDifference(im, r, c, -1, -1), NeighbourDifference(im, r, c, -1, 0),
     NeighbourDifference(im, r, c, -1, 1), NeighbourDifference(im, r, c, 0, -1),
     NeighbourDifference(im, r, c, 0, 1), NeighbourDifference(im, r, c, 1, -1),
     NeighbourDifference(im, r, c, 1, 0), NeighbourDifference(im, r, c, 1, 1)]
  }

  /** Reference definition of the update direction: the fluxes towards all eight neighbours. */
  function NeighbourhoodFlux(im: Image, r: int, c: int, kappa: real): (total: real)
    requires Rectangular(im) && InBounds(im, r, c) && kappa != 0.0
  {
    FluxSum(NeighbourDifferences(im, r, c), kappa)
  }

  /** The eight gradient values nab[i][r][c] at pixel (r, c): the image convolved with each
      kernel of the bank, in the bank's order. */
  function PixelGradients(im: Image, r: int, c: int): (ns: seq<real>)
    requires Rectangular(im) && InBounds(im, r, c)
    ensures |ns| == 8
  {
    seq(8, i requires 0 <= i < 8 => ConvolveAt(im, GenerateKernels()[i], r, c))
  }

  /** Gradient i is the difference towards the neighbour opposite the +1 cell of kernel i. */
  lemma PixelGradientsAreDifferences(im: Image, r: int, c: int)
    requires Rectangular(im) && InBounds(im, r, c)
    ensures forall i | 0 <= i < 8 ::
      PixelGradients(im, r, c)[i] == NeighbourDifference(im, r, c, 1 - PlusCells[i].0, 1 - PlusCells[i].1)
  {
    var ks := GenerateKernels();
    forall i | 0 <= i < 8
      ensures PixelGradients(im, r, c)[i] == NeighbourDifference(im, r, c, 1 - PlusCells[i].0, 1 - PlusCells[i].1)
    {
      ConvolveDifferenceKernel(im, ks[i], PlusCells[i].0, PlusCells[i].1, r, c);
    }
  }

  /** sum(res) at pixel (r, c): the fluxes of the eight gradients there, added in the bank's order. */
  function PixelFlux(im: Image, r: int, c: int, kappa: real): (total: real)
    requires Rectangular(im) && InBounds(im, r, c) && kappa != 0.0
  {
    FluxSum(PixelGradients(im, r, c), kappa)
  }

  /** Eight fluxes added left to right. */
  lemma FluxSumEight(ns: seq<real>, kappa: real)
    requires kappa != 0.0 && |ns| == 8
    ensures FluxSum(ns, kappa)
         == Flux(ns[0], kappa) + Flux(ns[1], kappa) + Flux(ns[2], kappa) + Flux(ns[3], kappa) +
            Flux(ns[4], kappa) + Flux(ns[5], kappa) + Flux(ns[6], kappa) + Flux(ns[7], kappa)
  {
    assert ns[..1][..0] == [];
    assert FluxSum(ns[..1], kappa) == Flux(ns[0], kappa);
    assert ns[..2][..1] == ns[..1];
    assert FluxSum(ns[..2], kappa) == FluxSum(ns[..1], kappa) + Flux(ns[1], kappa);
    assert ns[..3][..2] == ns[..2];
    assert FluxSum(ns[..3], kappa) == FluxSum(ns[..2], kappa) + Flux(ns[2], kappa);
    assert ns[..4][..3] == ns[..3];
    assert FluxSum(ns[..4], kappa) == FluxSum(ns[..3], kappa) + Flux(ns[3], kappa);
    assert ns[..5][..4] == ns[..4];
    assert FluxSum(ns[..5], kappa) == FluxSum(ns[..4], kappa) + Flux(ns[4], kappa);
    assert ns[..6][..5] == ns[..5];
    assert FluxSum(ns[..6], kappa) == FluxSum(ns[..5], kappa) + Flux(ns[5], kappa);
    assert ns[..7][..6] == ns[..6];
    assert FluxSum(ns[..7], kappa) == FluxSum(ns[..6], kappa) + Flux(ns[6], kappa);
    assert FluxSum(ns, kappa) == FluxSum(ns[..7], kappa) + Flux(ns[7], kappa);
  }

  /** The kernel bank's gradients are the eight neighbour differences in another order: kernel
      i reads the neighbour opposite its +1 cell, and every neighbour is read once. */
  lemma BankReordersNeighbours(im: Image, r: int, c: int)
    requires Rectangular(im) && InBounds(im, r, c)
    ensures var ns, ds := PixelGradients(im, r, c), NeighbourDifferences(im, r, c);
      ns[0] == ds[6] && ns[1] == ds[1] && ns[2] == ds[3] && ns[3] == ds[4] &&
      ns[4] == ds[5] && ns[5] == ds[0] && ns[6] == ds[2] && ns[7] == ds[7]
  {
    PixelGradientsAreDifferences(im, r, c);
  }

  /** The kernel bank's fluxes, summed in the bank's order, are the fluxes towards all eight
      neighbours: the sum does not depend on the order the bank visits them in. */
  lemma BankFluxIsNeighbourhoodFlux(im: Image, r: int, c: int, kappa: real)
    requires Rectangular(im) && InBounds(im, r, c) && kappa != 0.0
    ensures PixelFlux(im, r, c, kappa) == NeighbourhoodFlux(im, r, c, kappa)
  {
    BankReordersNeighbours(im, r, c);
    FluxSumEight(PixelGradients(im, r, c), kappa);
    FluxSumEight(NeighbourDifferences(im, r, c), kappa);
  }

  /** delta * sum(res): the additive update of one step, with the shape of the image. */
  function Correction(im: Image, delta: real, kappa: real): (res: Image)
    requires Rectangular(im) && kappa != 0.0
    ensures HasShape(res, |im|, Cols(im))
  {
    seq(|im|, r requires 0 <= r < |im| =>
      seq(Cols(im), c requires 0 <= c < Cols(im) => delta * PixelFlux(im, r, c, kappa)))
  }

  /** The update at pixel (r, c) is delta times the eight gradient fluxes, summed in bank order. */
  lemma CorrectionAt(im: Image, delta: real, kappa: real, r: int, c: int)
    requires Rectangular(im) && kappa != 0.0 && InBounds(im, r, c)
    ensures Correction(im, delta, kappa)[r][c] == delta * PixelFlux(im, r, c, kappa)
  {
    var row := Correction(im, delta, kappa)[r];
    assert row[c] == delta * PixelFlux(im, r, c, kappa);
  }

  /** Perona_Malik(im, dd, delta, kappa): a new image of the same shape whose every pixel moved
      by delta times the sum of its eight neighbour fluxes. dd is accepted and never read. */
  function PeronaMalik(im: Image, dd: real, delta: real, kappa: real): (out: Image)
    requires Rectangular(im) && kappa != 0.0
    ensures HasShape(out, |im|, Cols(im))
  {
    var res := Correction(im, delta, kappa);
    seq(|im|, r requires 0 <= r < |im| =>
      seq(Cols(im), c requires 0 <= c < Cols(im) => im[r][c] + res[r][c]))
  }

  /** Each pixel of the new image is the old value plus delta times the eight gradient fluxes at
      that pixel, summed in the bank's order; BankFluxIsNeighbourhoodFlux identifies that sum
      with the fluxes towards the eight neighbours. */
  lemma PeronaMalikAt(im: Image, dd: real, delta: real, kappa: real, r: int, c: int)
    requires Rectangular(im) && kappa != 0.0 && InBounds(im, r, c)
    ensures PeronaMalik(im, dd, delta, kappa)[r][c] == im[r][c] + delta * PixelFlux(im, r, c, kappa)
  {
    CorrectionAt(im, delta, kappa, r, c);
    var row := PeronaMalik(im, dd, delta, kappa)[r];
    assert row[c] == im[r][c] + Correction(im, delta, kappa)[r][c];
  }

  /** The result does not depend on dd. */
  lemma PeronaMalikIgnoresDd(im: Image, dd1: real, dd2: real, delta: real, kappa: real)
    requires Rectangular(im) && kappa != 0.0
    ensures PeronaMalik(im, dd1, delta, kappa) == PeronaMalik(im, dd2, delta, kappa)
  {
  }

  /** Fluxes of zero differences add up to zero. */
  lemma {:induction false} FluxSumOfZeros(ns: seq<real>, kappa: real)
    requires kappa != 0.0 && forall i | 0 <= i < |ns| :: ns[i] == 0.0
    ensures FluxSum(ns, kappa) == 0.0
  {
    if ns != [] {
      FluxSumOfZeros(ns[..|ns| - 1], kappa);
      FluxRange(0.0, kappa);
    }
  }

  /** On a constant image all eight gradients vanish at every pixel, border pixels included,
      and so do their fluxes. */
  lemma ConstantImageNoFlux(im: Image, r: int, c: int, kappa: real)
    requires IsConstant(im) && InBounds(im, r, c) && kappa != 0.0
    ensures forall i | 0 <= i < 8 :: PixelGradients(im, r, c)[i] == 0.0
    ensures PixelFlux(im, r, c, kappa) == 0.0
  {
    var ns := PixelGradients(im, r, c);
    PixelGradientsAreDifferences(im, r, c);
    forall i | 0 <= i < 8
      ensures ns[i] == 0.0
    {
      ConstantDifference(im, r, c, 1 - PlusCells[i].0, 1 - PlusCells[i].1);
    }
    FluxSumOfZeros(ns, kappa);
  }

  /** A constant image is a fixed point, for every step size and contrast. */
  lemma ConstantImageIsFixed(im: Image, dd: real, delta: real, kappa: real)
    requires IsConstant(im) && kappa != 0.0
    ensures PeronaMalik(im, dd, delta, kappa) == im
  {
    var out := PeronaMalik(im, dd, delta, kappa);
    forall r | 0 <= r < |im|
      ensures out[r] == im[r]
    {
      forall c | 0 <= c < Cols(im)
        ensures out[r][c] == im[r][c]
      {
        ConstantPixelIsFixed(im, dd, delta, kappa, r, c);
      }
    }
  }

  lemma ConstantPixelIsFixed(im: Image, dd: real, delta: real, kappa: real, r: int, c: int)
    requires IsConstant(im) && kappa != 0.0 && InBounds(im, r, c)
    ensures PeronaMalik(im, dd, delta, kappa)[r][c] == im[r][c]
  {
    PeronaMalikAt(im, dd, delta, kappa, r, c);
    ConstantImageNoFlux(im, r, c, kappa);
  }

  predicate Within(v: real, lo: real, hi: real) {
    lo <= v <= hi
  }

  /** Every pixel of im lies in [lo, hi]. */
  ghost predicate Bounded(im: Image, lo: real, hi: real) {
    forall r, c | 0 <= r < |im| && 0 <= c < |im[r]| :: lo <= im[r][c] <= hi
  }

  /** A flux never overshoots the difference it damps: it stays between the distances from the
      centre value to the ends of any range that holds both. */
  lemma FluxBetween(n: real, kappa: real, a: real, b: real)
    requires kappa != 0.0 && a <= 0.0 <= b && a <= n <= b
    ensures a <= Flux(n, kappa) <= b
  {
    var f := Flux(n, kappa);
    FluxRange(n, kappa);
    if n < 0.0 {
      assert Abs(f) <= -n && f < 0.0;
    } else {
      assert Abs(f) <= n && 0.0 <= f;
    }
  }

  /** A value x in [lo, hi] moved by a step of at most 1/8 times a sum of eight terms, each
      between lo - x and hi - x, stays in [lo, hi]. */
  lemma StepBetween(x: real, delta: real, s: real, lo: real, hi: real)
    requires lo <= x <= hi && 0.0 <= delta && 8.0 * delta <= 1.0
    requires 8.0 * (lo - x) <= s <= 8.0 * (hi - x)
    ensures lo <= x + delta * s <= hi
  {
    MulNonNegative(delta, 8.0 * (hi - x) - s);
    MulNonNegative(1.0 - 8.0 * delta, hi - x);
    MulNonNegative(delta, s - 8.0 * (lo - x));
    MulNonNegative(1.0 - 8.0 * delta, x - lo);
  }

  /** k copies of a added up: k * a without a product of two unknowns. */
  function Times(k: nat, a: real): (p: real) {
    if k == 0 then 0.0 else Times(k - 1, a) + a
  }

  /** A sum of fluxes of differences that all lie in [a, b] lies between |ns| copies of a and
      |ns| copies of b. */
  lemma {:induction false} FluxSumBetween(ns: seq<real>, kappa: real, a: real, b: real)
    requires kappa != 0.0 && a <= 0.0 <= b
    requires forall i | 0 <= i < |ns| :: a <= ns[i] <= b
    ensures Times(|ns|, a) <= FluxSum(ns, kappa) <= Times(|ns|, b)
  {
    if ns != [] {
      var n := |ns| - 1;
      FluxSumBetween(ns[..n], kappa, a, b);
      FluxBetween(ns[n], kappa, a, b);
    }
  }

  /** In a bounded image, the difference from a pixel to any neighbour (reflected at the border)
      lies between the pixel's distances to the ends of the range. */
  lemma DifferenceBetween(im: Image, r: int, c: int, dr: int, dc: int, lo: real, hi: real)
    requires Rectangular(im) && InBounds(im, r, c) && Bounded(im, lo, hi)
    requires -1 <= dr <= 1 && -1 <= dc <= 1
    ensures lo - im[r][c] <= NeighbourDifference(im, r, c, dr, dc) <= hi - im[r][c]
  {
    var rr, cc := Reflect(r + dr, |im|), Reflect(c + dc, Cols(im));
    assert lo <= im[rr][cc] <= hi;
    assert lo <= im[r][c] <= hi;
  }

  lemma EightFluxesBetween(ns: seq<real>, kappa: real, a: real, b: real)
    requires kappa != 0.0 && a <= 0.0 <= b && |ns| == 8
    requires forall i | 0 <= i < 8 :: a <= ns[i] <= b
    ensures 8.0 * a <= FluxSum(ns, kappa) <= 8.0 * b
  {
    FluxSumBetween(ns, kappa, a, b);
    TimesEight(a);
    TimesEight(b);
  }

  lemma TimesEight(a: real)
    ensures Times(8, a) == 8.0 * a
  {
    assert Times(0, a) == 0.0;
    assert Times(1, a) == a;
    assert Times(2, a) == 2.0 * a;
    assert Times(3, a) == 3.0 * a;
    assert Times(4, a) == 4.0 * a;
    assert Times(5, a) == 5.0 * a;
    assert Times(6, a) == 6.0 * a;
    assert Times(7, a) == 7.0 * a;
  }

  /** At a pixel of a bounded image every gradient of the bank lies between the pixel's
      distances to the ends of the range. */
  lemma PixelGradientsBetween(im: Image, r: int, c: int, lo: real, hi: real)
    requires Rectangular(im) && InBounds(im, r, c) && Bounded(im, lo, hi)
    ensures forall i | 0 <= i < 8 :: lo - im[r][c] <= PixelGradients(im, r, c)[i] <= hi - im[r][c]
  {
    PixelGradientsAreDifferences(im, r, c);
    forall i | 0 <= i < 8
      ensures lo - im[r][c] <= PixelGradients(im, r, c)[i] <= hi - im[r][c]
    {
      DifferenceBetween(im, r, c, 1 - PlusCells[i].0, 1 - PlusCells[i].1, lo, hi);
    }
  }

  /** A value x in [lo, hi], moved by a step of at most 1/8 times the fluxes of eight differences
      that each keep x + difference inside [lo, hi], stays in [lo, hi]. */
  lemma FluxStepBetween(x: real, delta: real, ns: seq<real>, kappa: real, s: real, lo: real, hi: real)
    requires kappa != 0.0 && lo <= x <= hi && 0.0 <= delta && 8.0 * delta <= 1.0
    requires |ns| == 8 && forall i | 0 <= i < 8 :: lo - x <= ns[i] <= hi - x
    requires s == FluxSum(ns, kappa)
    ensures Within(x + delta * s, lo, hi)
  {
    EightFluxesBetween(ns, kappa, lo - x, hi - x);
    StepBetween(x, delta, s, lo, hi);
  }

  /** At a pixel of a bounded image, the pixel plus a step of at most 1/8 times its flux sum `s`
      stays in the range. */
  lemma PixelStepWithin(im: Image, delta: real, kappa: real, lo: real, hi: real, r: int, c: int, s: real, v: real)
    requires Rectangular(im) && InBounds(im, r, c) && kappa != 0.0 && Bounded(im, lo, hi)
    requires 0.0 <= delta && 8.0 * delta <= 1.0
    requires s == FluxSum(PixelGradients(im, r, c), kappa) && v == im[r][c] + delta * s
    ensures Within(v, lo, hi)
  {
    assert lo <= im[r][c] <= hi;
    PixelGradientsBetween(im, r, c, lo, hi);
    FluxStepBetween(im[r][c], delta, PixelGradients(im, r, c), kappa, s, lo, hi);
  }

  /** `s`, the flux sum at a pixel, is the left fold over the bank's gradients: the definition of
      `PixelFlux` with the sum passed in as `s`. Taking the sum as a parameter keeps the unfolded
      fluxes out of the proof of `MaximumPrinciplePixel`, which is then cheap for the solver. */
  lemma PixelFluxIsBankSum(im: Image, r: int, c: int, kappa: real, s: real)
    requires Rectangular(im) && InBounds(im, r, c) && kappa != 0.0 && s == PixelFlux(im, r, c, kappa)
    ensures s == FluxSum(PixelGradients(im, r, c), kappa)
  {
  }

  /** `PeronaMalikAt` with the flux sum passed in as `s`, for the same reason as
      `PixelFluxIsBankSum`: the new pixel is the old one plus delta times `s`. */
  lemma PeronaMalikStep(im: Image, dd: real, delta: real, kappa: real, r: int, c: int, s: real)
    requires Rectangular(im) && InBounds(im, r, c) && kappa != 0.0 && s == PixelFlux(im, r, c, kappa)
    ensures PeronaMalik(im, dd, delta, kappa)[r][c] == im[r][c] + delta * s
  {
    PeronaMalikAt(im, dd, delta, kappa, r, c);
  }

  /** Discrete maximum principle at one pixel. */
  lemma MaximumPrinciplePixel(im: Image, dd: real, delta: real, kappa: real, lo: real, hi: real, r: int, c: int)
    requires Rectangular(im) && InBounds(im, r, c) && kappa != 0.0 && Bounded(im, lo, hi)
    requires 0.0 <= delta && 8.0 * delta <= 1.0
    ensures Within(PeronaMalik(im, dd, delta, kappa)[r][c], lo, hi)
  {
    var s := PixelFlux(im, r, c, kappa);
    PixelFluxIsBankSum(im, r, c, kappa, s);
    PeronaMalikStep(im, dd, delta, kappa, r, c, s);
    PixelStepWithin(im, delta, kappa, lo, hi, r, c, s, PeronaMalik(im, dd, delta, kappa)[r][c]);
  }

  /** With a step of at most 1/8, one step never leaves the range of the input image: no new
      extrema, whatever the contrast parameter. */
  lemma MaximumPrinciple(im: Image, dd: real, delta: real, kappa: real, lo: real, hi: real)
    requires Rectangular(im) && kappa != 0.0 && Bounded(im, lo, hi)
    requires 0.0 <= delta && 8.0 * delta <= 1.0
    ensures Bounded(PeronaMalik(im, dd, delta, kappa), lo, hi)
  {
    var out := PeronaMalik(im, dd, delta, kappa);
    forall r, c | 0 <= r < |out| && 0 <= c < |out[r]|
      ensures lo <= out[r][c] <= hi
    {
      MaximumPrinciplePixel(im, dd, delta, kappa, lo, hi, r, c);
    }
  }
}
