/** impaint_Perona_Malik: one Perona-Malik step applied only at the pixels a mask selects. */
module Inpaint {
  import opened Grids
  import opened Diffusion

  /** The step size and contrast the inpainting step fixes internally. */
  const InpaintDelta: real := 0.1
  const InpaintKappa: real := 15.0

  /** (r, c) comes strictly before (r', c') in row-major order. */
  predicate RowMajorBefore(p: (int, int), q: (int, int)) {
    p.0 < q.0 || (p.0 == q.0 && p.1 < q.1)
  }

  predicate StrictlyIncreasing(pts: seq<(int, int)>) {
    forall i, j | 0 <= i < j < |pts| :: RowMajorBefore(pts[i], pts[j])
  }

  lemma {:induction false} ConcatIncreasing(a: seq<(int, int)>, b: seq<(int, int)>)
    requires StrictlyIncreasing(a) && StrictlyIncreasing(b)
    requires forall p, q | p in a && q in b :: RowMajorBefore(p, q)
    ensures StrictlyIncreasing(a + b)
  {
    forall i, j | 0 <= i < j < |a + b|
      ensures RowMajorBefore((a + b)[i], (a + b)[j])
    {
      if j < |a| {
        assert (a + b)[i] == a[i] && (a + b)[j] == a[j];
      } else if i < |a| {
        assert (a + b)[i] == a[i] && (a + b)[j] == b[j - |a|];
        assert a[i] in a && b[j - |a|] in b;
      } else {
        assert (a + b)[i] == b[i - |a|] && (a + b)[j] == b[j - |a|];
      }
    }
  }

  /** The masked columns of row r from column c on, left to right. */
  function RowPoints(row: seq<bool>, r: int, c: nat): (pts: seq<(int, int)>)
    requires c <= |row|
    ensures forall p :: p in pts <==> p.0 == r && c <= p.1 < |row| && row[p.1]
    ensures StrictlyIncreasing(pts)
    decreases |row| - c
  {
    if c == |row| then []
    else
      var rest := RowPoints(row, r, c + 1);
      var here := if row[c] then [(r, c)] else [];
      ConcatIncreasing(here, rest);
      here + rest
  }

  /** The masked coordinates of rows r and below, in row-major order. */
  function MaskPointsFrom(mask: Grid<bool>, r: nat): (pts: seq<(int, int)>)
    requires Rectangular(mask) && r <= |mask|
    ensures forall p :: p in pts <==> r <= p.0 < |mask| && 0 <= p.1 < Cols(mask) && mask[p.0][p.1]
    ensures StrictlyIncreasing(pts)
    decreases |mask| - r
  {
    if r == |mask| then []
    else
      var here := RowPoints(mask[r], r, 0);
      var rest := MaskPointsFrom(mask, r + 1);
      ConcatIncreasing(here, rest);
      here + rest
  }

  /** mask_pts = np.array(np.where(mask)).T: every coordinate where the mask is true, each once,
      in row-major order. */
  function MaskPoints(mask: Grid<bool>): (pts: seq<(int, int)>)
    requires Rectangular(mask)
    ensures forall p :: p in pts <==> InBounds(mask, p.0, p.1) && mask[p.0][p.1]
    ensures StrictlyIncreasing(pts)
  {
    MaskPointsFrom(mask, 0)
  }

  /** Lines 93-95 and 104-107 of impaint_Perona_Malik: im_new starts as zeros, receives the
      correction `res` at each masked coordinate, and the result is im + im_new. */
  method AddAtMask(im: Image, mask: Grid<bool>, res: Image) returns (out: Image)
    requires Rectangular(im) && HasShape(mask, |im|, Cols(im)) && HasShape(res, |im|, Cols(im))
    ensures HasShape(out, |im|, Cols(im))
    ensures forall r, c | InBounds(im, r, c) ::
      out[r][c] == if mask[r][c] then im[r][c] + res[r][c] else im[r][c]
  {
    var h, w := |im|, Cols(im);
    assert Cols(mask) == w by {
      assert h > 0 ==> |mask[0]| == w;
    }
    var imNew := new real[h, w]((_, _) => 0.0);
    var pts := MaskPoints(mask);
    var n := 0;
    while n < |pts|
      invariant 0 <= n <= |pts|
      invariant imNew.Length0 == h && imNew.Length1 == w
      invariant forall r, c | 0 <= r < h && 0 <= c < w ::
        imNew[r, c] == if (r, c) in pts[..n] then res[r][c] else 0.0
    {
      var p := pts[n];
      assert p in pts;
      imNew[p.0, p.1] := res[p.0][p.1];
      assert pts[..n + 1] == pts[..n] + [p];
      n := n + 1;
    }
    assert pts[..n] == pts;
    out := seq(h, r requires 0 <= r < h reads imNew =>
      seq(w, c requires 0 <= c < w reads imNew => im[r][c] + imNew[r, c]));
  }

  /** impaint_Perona_Malik(im, mask): the correction delta * sum(res) of one Perona-Malik step
      (delta = 0.1, kappa = 15) applied at the masked pixels only. Unmasked pixels are returned
      unchanged; masked ones get the value Perona_Malik gives them. */
  method InpaintPeronaMalik(im: Image, mask: Grid<bool>) returns (out: Image)
    requires Rectangular(im) && HasShape(mask, |im|, Cols(im))
    ensures HasShape(out, |im|, Cols(im))
    ensures forall r, c | InBounds(im, r, c) && !mask[r][c] :: out[r][c] == im[r][c]
    ensures forall r, c | InBounds(im, r, c) && mask[r][c] ::
      out[r][c] == PeronaMalik(im, 0.0, InpaintDelta, InpaintKappa)[r][c]
  {
    var res := Correction(im, InpaintDelta, InpaintKappa);
    out := AddAtMask(im, mask, res);
  }

  /** With every pixel selected, the inpainting step is the plain Perona-Malik step. */
  method InpaintAllMasked(im: Image, mask: Grid<bool>) returns (out: Image)
    requires Rectangular(im) && HasShape(mask, |im|, Cols(im))
    requires forall r, c | InBounds(im, r, c) :: mask[r][c]
    ensures out == PeronaMalik(im, 0.0, InpaintDelta, InpaintKappa)
  {
    out := InpaintPeronaMalik(im, mask);
    var pm := PeronaMalik(im, 0.0, InpaintDelta, InpaintKappa);
    forall r | 0 <= r < |im|
      ensures out[r] == pm[r]
    {
      assert |out[r]| == |pm[r]| == Cols(im);
    }
  }
}
