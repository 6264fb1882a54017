/** Two-dimensional arrays (images, masks, kernels) as sequences of rows, and the
    boundary rule scipy.ndimage applies when a filter reads past an edge. */
module Grids {

  /** A 2-D array stored row by row: g[r][c] is the entry at row r, column c. */
  type Grid<T> = seq<seq<T>>

  /** A grayscale image of real intensities. */
  type Image = Grid<real>

  /** Number of columns: the length of the first row (0 when there are no rows). */
  function Cols<T>(g: Grid<T>): (n: nat) {
    if |g| == 0 then 0 else |g[0]|
  }

  /** Every row has the same length, as in any 2-D numpy array. */
  predicate Rectangular<T>(g: Grid<T>) {
    forall r | 0 <= r < |g| :: |g[r]| == Cols(g)
  }

  /** `g` has h rows of w entries each: numpy shape (h, w). */
  predicate HasShape<T>(g: Grid<T>, h: nat, w: nat) {
    |g| == h && forall r | 0 <= r < h :: |g[r]| == w
  }

  predicate InBounds<T>(g: Grid<T>, r: int, c: int) {
    0 <= r < |g| && 0 <= c < Cols(g)
  }

  /** Position read for index i on an axis of length n under the 'reflect' boundary mode
      (d c b a | a b c d | d c b a): the edge sample is repeated once, then the axis mirrors. */
  function Reflect(i: int, n: nat): (j: nat)
    requires 0 < n && 0 <= i + n && i < 2 * n
    ensures j < n
    ensures 0 <= i < n ==> j == i
    ensures i < 0 ==> j == -i - 1
    ensures n <= i ==> j == 2 * n - 1 - i
  {
    if i < 0 then -i - 1 else if i >= n then 2 * n - 1 - i else i
  }

  /** A 3x3 filter reads at most one sample beyond each edge, and there 'reflect' is clamping. */
  lemma ReflectIsClamp(i: int, n: nat)
    requires 0 < n && -1 <= i <= n
    ensures Reflect(i, n) == if i < 0 then 0 else if i >= n then n - 1 else i
  {
  }

  /** The sample of `im` at (r, c), which may lie one step outside the image, reflected inside. */
  function Sample(im: Image, r: int, c: int): (v: real)
    requires Rectangular(im) && 0 < |im| && 0 < Cols(im)
    requires -1 <= r <= |im| && -1 <= c <= Cols(im)
    ensures InBounds(im, r, c) ==> v == im[r][c]
  {
    im[Reflect(r, |im|)][Reflect(c, Cols(im))]
  }
}
