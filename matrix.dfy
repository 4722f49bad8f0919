/** Integer matrices as sequences of rows, with the operations the two
    recommendation pipelines need: row and column selection, column sums and
    the Gram product MᵀM. */
module Matrix {

  type Mat = seq<seq<int>>

  /** Every row has `cols` entries. */
  predicate IsMatrix(m: Mat, cols: nat)
  {
    forall r :: 0 <= r < |m| ==> |m[r]| == cols
  }

  /** Every entry is 0 or 1 (an incidence matrix). */
  predicate Binary(m: Mat)
  {
    forall r, c :: 0 <= r < |m| && 0 <= c < |m[r]| ==> m[r][c] == 0 || m[r][c] == 1
  }

  predicate NonNegative(m: Mat)
  {
    forall r, c :: 0 <= r < |m| && 0 <= c < |m[r]| ==> m[r][c] >= 0
  }

  /** Rows `idx[0], idx[1], ...` of `m` (numpy fancy indexing on rows). */
  function SelectRows(m: Mat, idx: seq<nat>): (r: Mat)
    requires forall k :: 0 <= k < |idx| ==> idx[k] < |m|
    ensures |r| == |idx|
    ensures forall k :: 0 <= k < |idx| ==> r[k] == m[idx[k]]
  {
    seq(|idx|, k requires 0 <= k < |idx| => m[idx[k]])
  }

  /** Columns `cols[0], cols[1], ...` of `m`. */
  function SelectCols(m: Mat, width: nat, cols: seq<nat>): (r: Mat)
    requires IsMatrix(m, width)
    requires forall k :: 0 <= k < |cols| ==> cols[k] < width
    ensures |r| == |m| && IsMatrix(r, |cols|)
    ensures forall i, k :: 0 <= i < |m| && 0 <= k < |cols| ==> r[i][k] == m[i][cols[k]]
  {
    seq(|m|, i requires 0 <= i < |m| => seq(|cols|, k requires 0 <= k < |cols| => m[i][cols[k]]))
  }

  /** Sum of column `c` over all rows. */
  function ColSum(m: Mat, c: nat): int
    requires forall r :: 0 <= r < |m| ==> c < |m[r]|
  {
    if m == [] then 0 else m[0][c] + ColSum(m[1..], c)
  }

  /** Dot product of columns `a` and `b`: entry (a, b) of MᵀM. */
  function ColDot(m: Mat, a: nat, b: nat): int
    requires forall r :: 0 <= r < |m| ==> a < |m[r]| && b < |m[r]|
  {
    if m == [] then 0 else m[0][a] * m[0][b] + ColDot(m[1..], a, b)
  }

  /** Number of rows with a 1 in both column `a` and column `b`. */
  function CountBoth(m: Mat, a: nat, b: nat): nat
    requires forall r :: 0 <= r < |m| ==> a < |m[r]| && b < |m[r]|
  {
    if m == [] then 0
    else (if m[0][a] == 1 && m[0][b] == 1 then 1 else 0) + CountBoth(m[1..], a, b)
  }

  /** The Gram matrix MᵀM of an n-column matrix. */
  function Gram(m: Mat, n: nat): (g: Mat)
    requires IsMatrix(m, n)
    ensures |g| == n && IsMatrix(g, n)
    ensures forall i, j :: 0 <= i < n && 0 <= j < n ==> g[i][j] == ColDot(m, i, j)
  {
    seq(n, i requires 0 <= i < n => seq(n, j requires 0 <= j < n => ColDot(m, i, j)))
  }

  lemma {:induction false} ColDotSymmetric(m: Mat, a: nat, b: nat)
    requires forall r :: 0 <= r < |m| ==> a < |m[r]| && b < |m[r]|
    ensures ColDot(m, a, b) == ColDot(m, b, a)
  {
    if m != [] {
      ColDotSymmetric(m[1..], a, b);
    }
  }

  /** On 0/1 data the Gram entry counts the rows having both columns. */
  lemma {:induction false} ColDotBinary(m: Mat, a: nat, b: nat)
    requires forall r :: 0 <= r < |m| ==> a < |m[r]| && b < |m[r]|
    requires Binary(m)
    ensures ColDot(m, a, b) == CountBoth(m, a, b)
  {
    if m != [] {
      assert m[0][a] == 0 || m[0][a] == 1;
      assert m[0][b] == 0 || m[0][b] == 1;
      assert Binary(m[1..]) by {
        forall r, c | 0 <= r < |m[1..]| && 0 <= c < |m[1..][r]|
          ensures m[1..][r][c] == 0 || m[1..][r][c] == 1
        {
          assert m[1..][r] == m[r + 1];
        }
      }
      ColDotBinary(m[1..], a, b);
    }
  }

  /** The Gram matrix is symmetric. */
  lemma GramSymmetric(m: Mat, n: nat)
    requires IsMatrix(m, n)
    ensures forall i, j :: 0 <= i < n && 0 <= j < n ==> Gram(m, n)[i][j] == Gram(m, n)[j][i]
  {
    forall i, j | 0 <= i < n && 0 <= j < n ensures Gram(m, n)[i][j] == Gram(m, n)[j][i] {
      ColDotSymmetric(m, i, j);
    }
  }

  /** On 0/1 data entry (i, j) of MᵀM is the number of rows having both i and j,
      and the diagonal entry (i, i) the number of rows having i. */
  lemma GramCounts(m: Mat, n: nat)
    requires IsMatrix(m, n) && Binary(m)
    ensures forall i, j :: 0 <= i < n && 0 <= j < n ==> Gram(m, n)[i][j] == CountBoth(m, i, j)
  {
    forall i, j | 0 <= i < n && 0 <= j < n ensures Gram(m, n)[i][j] == CountBoth(m, i, j) {
      ColDotBinary(m, i, j);
    }
  }

  lemma {:induction false} ColSumPositiveIffSomeRow(m: Mat, c: nat)
    requires forall r :: 0 <= r < |m| ==> c < |m[r]|
    requires NonNegative(m)
    ensures ColSum(m, c) > 0 <==> exists r :: 0 <= r < |m| && m[r][c] > 0
    ensures ColSum(m, c) >= 0
  {
    if m != [] {
      assert NonNegative(m[1..]) by {
        forall r, k | 0 <= r < |m[1..]| && 0 <= k < |m[1..][r]| ensures m[1..][r][k] >= 0 {
          assert m[1..][r] == m[r + 1];
        }
      }
      ColSumPositiveIffSomeRow(m[1..], c);
      assert m[0][c] >= 0;
      if exists r :: 0 <= r < |m| && m[r][c] > 0 {
        var r :| 0 <= r < |m| && m[r][c] > 0;
        if r > 0 {
          assert m[1..][r - 1][c] > 0;
        }
      }
      if exists r :: 0 <= r < |m[1..]| && m[1..][r][c] > 0 {
        var r :| 0 <= r < |m[1..]| && m[1..][r][c] > 0;
        assert m[r + 1][c] > 0;
      }
    }
  }
}
