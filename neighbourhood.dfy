/** generate_neighb_matrix: the 3x3 neighbourhood of an interior pixel, laid out transposed. */
module Neighbourhood {
  import opened Grids
  import opened Gradients

  /** (r, c) is not on the image border, so all eight neighbours exist. */
  predicate Interior(image: Image, r: int, c: int) {
    1 <= r < |image| - 1 && 1 <= c < Cols(image) - 1
  }

  /** generate_neighb_matrix(coordinate, image): rows u1..u3, u4..u6, u7..u9, where entry (i, j)
      is the pixel at row offset j - 1 and column offset i - 1, so the matrix is the transpose of
      the image window. The centre entry is the pixel itself. */
  function NeighbMatrix(coordinate: (int, int), image: Image): (m: Grid<real>)
    requires Rectangular(image) && Interior(image, coordinate.0, coordinate.1)
    ensures HasShape(m, 3, 3)
    ensures forall i, j | 0 <= i < 3 && 0 <= j < 3 ::
      m[i][j] == image[coordinate.0 + j - 1][coordinate.1 + i - 1]
    ensures m[1][1] == image[coordinate.0][coordinate.1]
  {
    var (r, c) := coordinate;
    var u1 := image[r - 1][c - 1];
    var u2 := image[r][c - 1];
    var u3 := image[r + 1][c - 1];
    var u4 := image[r - 1][c];
    var u5 := image[r][c];
    var u6 := image[r + 1][c];
    var u7 := image[r - 1][c + 1];
    var u8 := image[r][c + 1];
    var u9 := image[r + 1][c + 1];
    [[u1, u2, u3], [u4, u5, u6], [u7, u8, u9]]
  }

  /** The 3x3 window of the image around (r, c), in the image's own row-major layout. */
  function Window(image: Image, r: int, c: int): (w: Grid<real>)
    requires Rectangular(image) && Interior(image, r, c)
    ensures HasShape(w, 3, 3)
  {
    seq(3, i requires 0 <= i < 3 => seq(3, j requires 0 <= j < 3 => image[r + i - 1][c + j - 1]))
  }

  function Transpose(m: Grid<real>): (t: Grid<real>)
    requires HasShape(m, 3, 3)
    ensures HasShape(t, 3, 3)
  {
    seq(3, i requires 0 <= i < 3 => seq(3, j requires 0 <= j < 3 => m[j][i]))
  }

  /** The extractor returns the transpose of the window, not the window itself. */
  lemma NeighbMatrixIsTransposedWindow(image: Image, r: int, c: int)
    requires Rectangular(image) && Interior(image, r, c)
    ensures NeighbMatrix((r, c), image) == Transpose(Window(image, r, c))
  {
    var m, t := NeighbMatrix((r, c), image), Transpose(Window(image, r, c));
    forall i | 0 <= i < 3
      ensures m[i] == t[i]
    {
      assert |m[i]| == |t[i]|;
    }
  }

  /** Away from the border the directional differences read the neighbourhood matrix, with no
      reflection: the difference towards offset (dr, dc) is entry (1 + dc, 1 + dr) minus the centre. */
  lemma InteriorDifferenceReadsNeighbourhood(image: Image, r: int, c: int, dr: int, dc: int)
    requires Rectangular(image) && Interior(image, r, c)
    requires -1 <= dr <= 1 && -1 <= dc <= 1
    ensures NeighbourDifference(image, r, c, dr, dc)
         == NeighbMatrix((r, c), image)[1 + dc][1 + dr] - NeighbMatrix((r, c), image)[1][1]
  {
    assert InBounds(image, r + dr, c + dc);
  }

  /** On a 5x5 image holding 5 * row + column, the neighbourhood of (2, 2). */
  lemma NeighbMatrixExample()
    ensures NeighbMatrix((2, 2), [[0.0, 1.0, 2.0, 3.0, 4.0],
                                  [5.0, 6.0, 7.0, 8.0, 9.0],
                                  [10.0, 11.0, 12.0, 13.0, 14.0],
                                  [15.0, 16.0, 17.0, 18.0, 19.0],
                                  [20.0, 21.0, 22.0, 23.0, 24.0]])
         == [[6.0, 11.0, 16.0], [7.0, 12.0, 17.0], [8.0, 13.0, 18.0]]
  {
    var image := [[0.0, 1.0, 2.0, 3.0, 4.0],
                  [5.0, 6.0, 7.0, 8.0, 9.0],
                  [10.0, 11.0, 12.0, 13.0, 14.0],
                  [15.0, 16.0, 17.0, 18.0, 19.0],
                  [20.0, 21.0, 22.0, 23.0, 24.0]];
    assert Rectangular(image);
  }
}
