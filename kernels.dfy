/** The kernel bank: eight constant 3x3 first-difference kernels. */
module Kernels {

  /** A convolution kernel of integer weights, stored row by row. */
  type Kernel = seq<seq<int>>

  predicate Is3x3(k: Kernel) {
    |k| == 3 && forall i | 0 <= i < 3 :: |k[i]| == 3
  }

  /** `k` is 3x3 with -1 at the centre, +1 at the off-centre cell (u, v) and 0 everywhere else. */
  predicate IsDifferenceKernel(k: Kernel, u: int, v: int) {
    && Is3x3(k)
    && 0 <= u < 3 && 0 <= v < 3 && (u, v) != (1, 1)
    && forall i, j | 0 <= i < 3 && 0 <= j < 3 ::
         k[i][j] == if i == 1 && j == 1 then -1 else if i == u && j == v then 1 else 0
  }

  /** The cell holding +1 in each kernel of the bank, in the bank's order. */
  const PlusCells: seq<(int, int)> := [(0, 1), (2, 1), (1, 2), (1, 0), (0, 2), (2, 2), (2, 0), (0, 0)]

  /** generate_kern: the eight kernels, in the source's order. */
  function GenerateKernels(): (ks: seq<Kernel>)
    ensures |ks| == 8
    ensures forall i | 0 <= i < 8 :: IsDifferenceKernel(ks[i], PlusCells[i].0, PlusCells[i].1)
  {
    [ [[0, 1, 0],
       [0, -1, 0],
       [0, 0, 0]],
      [[0, 0, 0],
       [0, -1, 0],
       [0, 1, 0]],
      [[0, 0, 0],
       [0, -1, 1],
       [0, 0, 0]],
      [[0, 0, 0],
       [1, -1, 0],
       [0, 0, 0]],
      [[0, 0, 1],
       [0, -1, 0],
       [0, 0, 0]],
      [[0, 0, 0],
       [0, -1, 0],
       [0, 0, 1]],
      [[0, 0, 0],
       [0, -1, 0],
       [1, 0, 0]],
      [[1, 0, 0],
       [0, -1, 0],
       [0, 0, 0]] ]
  }

  /** The nine entries of a 3x3 kernel in row-major order. */
  function Entries(k: Kernel): (s: seq<int>)
    requires Is3x3(k)
    ensures |s| == 9
    ensures forall i, j | 0 <= i < 3 && 0 <= j < 3 :: s[3 * i + j] == k[i][j]
  {
    k[0] + k[1] + k[2]
  }

  function Sum(s: seq<int>): (total: int) {
    if s == [] then 0 else s[0] + Sum(s[1..])
  }

  /** How many entries of `s` equal `x`. */
  function Count(s: seq<int>, x: int): (n: nat) {
    if s == [] then 0 else (if s[0] == x then 1 else 0) + Count(s[1..], x)
  }

  /** Entries limited to -1, 0 and +1, as in every first-difference kernel. */
  predicate IsTernary(s: seq<int>) {
    forall m | 0 <= m < |s| :: -1 <= s[m] <= 1
  }

  lemma {:induction false} CountAppend(a: seq<int>, b: seq<int>, x: int)
    ensures Count(a + b, x) == Count(a, x) + Count(b, x)
  {
    if a == [] {
      assert a + b == b;
    } else {
      assert (a + b)[1..] == a[1..] + b;
      CountAppend(a[1..], b, x);
    }
  }

  lemma {:induction false} CountAbsent(s: seq<int>, x: int)
    requires forall m | 0 <= m < |s| :: s[m] != x
    ensures Count(s, x) == 0
  {
    if s != [] {
      CountAbsent(s[1..], x);
    }
  }

  /** An entry that occurs at exactly one position is counted once. */
  lemma CountSingle(s: seq<int>, n: int, x: int)
    requires 0 <= n < |s| && s[n] == x
    requires forall m | 0 <= m < |s| && m != n :: s[m] != x
    ensures Count(s, x) == 1
  {
    assert s == s[..n] + ([s[n]] + s[n + 1..]);
    CountAbsent(s[..n], x);
    CountAbsent(s[n + 1..], x);
    CountAppend([s[n]], s[n + 1..], x);
    CountAppend(s[..n], [s[n]] + s[n + 1..], x);
  }

  /** With entries in {-1, 0, 1}: the three counts partition the length, and the sum is
      the number of +1 entries minus the number of -1 entries. */
  lemma {:induction false} TernaryCounts(s: seq<int>)
    requires IsTernary(s)
    ensures Count(s, 1) + Count(s, -1) + Count(s, 0) == |s|
    ensures Sum(s) == Count(s, 1) - Count(s, -1)
  {
    if s != [] {
      TernaryCounts(s[1..]);
    }
  }

  /** The entries of a difference kernel: one -1 (the centre), one +1, seven zeros, summing to 0. */
  lemma DifferenceKernelEntries(k: Kernel, u: int, v: int)
    requires IsDifferenceKernel(k, u, v)
    ensures k[1][1] == -1
    ensures Count(Entries(k), 1) == 1 && Count(Entries(k), -1) == 1 && Count(Entries(k), 0) == 7
    ensures Sum(Entries(k)) == 0
  {
    var s := Entries(k);
    var n := 3 * u + v;
    forall m | 0 <= m < 9
      ensures s[m] == (if m == 4 then -1 else if m == n then 1 else 0)
    {
      assert s[3 * (m / 3) + m % 3] == k[m / 3][m % 3];
    }
    CountSingle(s, n, 1);
    CountSingle(s, 4, -1);
    TernaryCounts(s);
  }

  /** Every kernel of the bank is a difference kernel: 3x3, -1 at the centre, one +1, entries summing to 0. */
  lemma KernelBankEntries(i: int)
    requires 0 <= i < 8
    ensures Is3x3(GenerateKernels()[i]) && GenerateKernels()[i][1][1] == -1
    ensures Count(Entries(GenerateKernels()[i]), 1) == 1
    ensures Count(Entries(GenerateKernels()[i]), 0) == 7
    ensures Sum(Entries(GenerateKernels()[i])) == 0
  {
    DifferenceKernelEntries(GenerateKernels()[i], PlusCells[i].0, PlusCells[i].1);
  }

  /** Each of the eight off-centre cells holds the +1 of exactly one kernel of the bank. */
  lemma KernelBankCoversNeighbourhood(u: int, v: int)
    requires 0 <= u < 3 && 0 <= v < 3 && (u, v) != (1, 1)
    ensures exists i | 0 <= i < 8 :: GenerateKernels()[i][u][v] == 1
    ensures forall i, j | 0 <= i < j < 8 :: !(GenerateKernels()[i][u][v] == 1 && GenerateKernels()[j][u][v] == 1)
  {
    var ks := GenerateKernels();
    if (u, v) == (0, 1) { assert ks[0][u][v] == 1; }
    else if (u, v) == (2, 1) { assert ks[1][u][v] == 1; }
    else if (u, v) == (1, 2) { assert ks[2][u][v] == 1; }
    else if (u, v) == (1, 0) { assert ks[3][u][v] == 1; }
    else if (u, v) == (0, 2) { assert ks[4][u][v] == 1; }
    else if (u, v) == (2, 2) { assert ks[5][u][v] == 1; }
    else if (u, v) == (2, 0) { assert ks[6][u][v] == 1; }
    else { assert ks[7][u][v] == 1; }
  }
}
