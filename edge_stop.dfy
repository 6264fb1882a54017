/** The rational edge-stopping function g(n) = 1 / (1 + (n / kappa)^2) of Perona_Malik. */
module EdgeStop {

  /** The diffusion coefficient for a difference n: 1 on flat regions, decaying across edges.
      Its range is stated by EdgeStopRange. */
  function EdgeStop(n: real, kappa: real): (g: real)
    requires kappa != 0.0
  {
    1.0 / (1.0 + Ratio(n, kappa))
  }

  /** (n / kappa)^2: the squared difference measured in units of the contrast parameter. */
  function Ratio(n: real, kappa: real): (s: real)
    requires kappa != 0.0
  {
    (n / kappa) * (n / kappa)
  }

  /** The squared ratio is non-negative and vanishes exactly on a zero difference. */
  lemma RatioRange(n: real, kappa: real)
    requires kappa != 0.0
    ensures 0.0 <= Ratio(n, kappa)
    ensures Ratio(n, kappa) == 0.0 <==> n == 0.0
  {
    var q := n / kappa;
    assert q == 0.0 <==> n == 0.0;
    if q != 0.0 {
      SquareOfAbs(q);
      MulPositive(Abs(q), Abs(q));
    }
  }

  /** g lies in (0, 1], and is 1 exactly on a zero difference. */
  lemma EdgeStopRange(n: real, kappa: real)
    requires kappa != 0.0
    ensures 0.0 < EdgeStop(n, kappa) <= 1.0
    ensures EdgeStop(n, kappa) == 1.0 <==> n == 0.0
  {
    RatioRange(n, kappa);
    ReciprocalAntitone(0.0, Ratio(n, kappa));
  }

  function Abs(x: real): (y: real) {
    if x < 0.0 then -x else x
  }

  lemma MulPositive(x: real, y: real)
    requires 0.0 < x && 0.0 < y
    ensures 0.0 < x * y
  {
  }

  lemma MulNonNegative(x: real, y: real)
    requires 0.0 <= x && 0.0 <= y
    ensures 0.0 <= x * y
  {
    if x > 0.0 && y > 0.0 {
      MulPositive(x, y);
    }
  }

  /** n * n is |n| * |n|. */
  lemma SquareOfAbs(n: real)
    ensures n * n == Abs(n) * Abs(n)
  {
    if n < 0.0 {
      assert Abs(n) == -n;
      assert (-n) * (-n) == n * n;
    }
  }

  lemma SquareMonotone(a: real, b: real)
    requires 0.0 <= a <= b
    ensures a * a <= b * b
    ensures a < b ==> a * a < b * b
  {
    MulNonNegative(a, b - a);
    assert a * (b - a) == a * b - a * a;
    assert b * (b - a) == b * b - a * b;
    if a < b {
      MulPositive(b, b - a);
    } else {
      MulNonNegative(b, b - a);
    }
  }

  /** |n / kappa| grows with |n|, strictly so. */
  lemma QuotientMonotone(n1: real, n2: real, kappa: real)
    requires kappa != 0.0 && Abs(n1) <= Abs(n2)
    ensures Abs(n1 / kappa) <= Abs(n2 / kappa)
    ensures Abs(n1) < Abs(n2) ==> Abs(n1 / kappa) < Abs(n2 / kappa)
  {
    var k := Abs(kappa);
    assert Abs(n1 / kappa) == Abs(n1) / k;
    assert Abs(n2 / kappa) == Abs(n2) / k;
    var d := 1.0 / k;
    assert Abs(n1) / k == Abs(n1) * d && Abs(n2) / k == Abs(n2) * d;
    assert Abs(n2) * d - Abs(n1) * d == (Abs(n2) - Abs(n1)) * d;
    MulNonNegative(Abs(n2) - Abs(n1), d);
    if Abs(n1) < Abs(n2) {
      MulPositive(Abs(n2) - Abs(n1), d);
    }
  }

  /** 1 / (1 + s) shrinks as s >= 0 grows, strictly so. */
  lemma ReciprocalAntitone(s1: real, s2: real)
    requires 0.0 <= s1 <= s2
    ensures 1.0 / (1.0 + s2) <= 1.0 / (1.0 + s1)
    ensures s1 < s2 ==> 1.0 / (1.0 + s2) < 1.0 / (1.0 + s1)
  {
    var x, y := 1.0 + s1, 1.0 + s2;
    var p := 1.0 / (x * y);
    assert 1.0 / x == y * p && 1.0 / y == x * p;
    MulPositive(x, y);
    assert 1.0 / x - 1.0 / y == (y - x) * p;
    MulNonNegative(y - x, p);
    if s1 < s2 {
      MulPositive(y - x, p);
    }
  }

  /** The coefficient depends only on |n| and shrinks as |n| grows: strictly for a strictly larger |n|. */
  lemma EdgeStopDecreasing(n1: real, n2: real, kappa: real)
    requires kappa != 0.0 && Abs(n1) <= Abs(n2)
    ensures EdgeStop(n2, kappa) <= EdgeStop(n1, kappa)
    ensures Abs(n1) < Abs(n2) ==> EdgeStop(n2, kappa) < EdgeStop(n1, kappa)
  {
    RatioMonotone(n1, n2, kappa);
    ReciprocalAntitone(Ratio(n1, kappa), Ratio(n2, kappa));
  }

  lemma RatioMonotone(n1: real, n2: real, kappa: real)
    requires kappa != 0.0 && Abs(n1) <= Abs(n2)
    ensures Ratio(n1, kappa) <= Ratio(n2, kappa)
    ensures Abs(n1) < Abs(n2) ==> Ratio(n1, kappa) < Ratio(n2, kappa)
  {
    var q1, q2 := n1 / kappa, n2 / kappa;
    QuotientMonotone(n1, n2, kappa);
    SquareOfAbs(q1);
    SquareOfAbs(q2);
    SquareMonotone(Abs(q1), Abs(q2));
  }

  /** The coefficient tends to 0 as |n| grows: it stays below (kappa / n)^2. */
  lemma EdgeStopDecay(n: real, kappa: real)
    requires kappa != 0.0 && n != 0.0
    ensures EdgeStop(n, kappa) * Ratio(n, kappa) < 1.0
  {
    var s := Ratio(n, kappa);
    var g := EdgeStop(n, kappa);
    RatioRange(n, kappa);
    EdgeStopRange(n, kappa);
    assert g * (1.0 + s) == 1.0;
    assert g * s == 1.0 - g;
    assert EdgeStop(n, kappa) * Ratio(n, kappa) == g * s;
  }

  /** The flux g(n) * n carried along one direction. */
  function Flux(n: real, kappa: real): (f: real)
    requires kappa != 0.0
  {
    EdgeStop(n, kappa) * n
  }

  /** The flux has the sign of the difference, vanishes only with it, and never exceeds it in
      magnitude: the coefficient only damps. */
  lemma FluxRange(n: real, kappa: real)
    requires kappa != 0.0
    ensures Abs(Flux(n, kappa)) <= Abs(n)
    ensures Flux(n, kappa) < 0.0 <==> n < 0.0
    ensures Flux(n, kappa) == 0.0 <==> n == 0.0
  {
    var g := EdgeStop(n, kappa);
    EdgeStopRange(n, kappa);
    if n < 0.0 {
      MulPositive(g, -n);
      MulNonNegative(1.0 - g, -n);
    } else if n > 0.0 {
      MulPositive(g, n);
      MulNonNegative(1.0 - g, n);
    }
  }
}
