/**
 * The multiplication loop of MatrixMultiplication.main: C[i][j] is the sum over k of
 * A[i][k] * B[k][j], accumulated in `sum` by the innermost loop.
 */
module Matrix {
  /** The partial dot product of row `i` of A and column `j` of B: the sum over k' < k of A[i,k'] * B[k',j]. */
  function DotRowCol(A: array2<int>, B: array2<int>, i: int, j: int, k: int): int
    reads A, B
    requires 0 <= i < A.Length0 && 0 <= j < B.Length1
    requires 0 <= k <= A.Length1 && k <= B.Length0
    decreases k
  {
    if k == 0 then 0 else DotRowCol(A, B, i, j, k - 1) + A[i, k - 1] * B[k - 1, j]
  }

  /**
   * The product C of A and B: `rowsA` = A.Length0 rows, `colsB` = B.Length1 columns,
   * every entry the sum over the `colsA` = A.Length1 columns of A. A[0] and B[0] are
   * read for the dimensions, so neither matrix may be empty, and B[k] is read for
   * every k < colsA, so B needs at least colsA rows.
   */
  method Multiply(A: array2<int>, B: array2<int>) returns (C: array2<int>)
    requires A.Length0 > 0 && B.Length0 > 0
    requires A.Length1 <= B.Length0
    ensures fresh(C)
    ensures C.Length0 == A.Length0 && C.Length1 == B.Length1
    ensures forall i, j :: 0 <= i < C.Length0 && 0 <= j < C.Length1 ==> C[i, j] == DotRowCol(A, B, i, j, A.Length1)
  {
    var rowsA, colsA, colsB := A.Length0, A.Length1, B.Length1;
    C := new int[rowsA, colsB];
    for i := 0 to rowsA
      invariant forall i', j' :: 0 <= i' < i && 0 <= j' < colsB ==> C[i', j'] == DotRowCol(A, B, i', j', colsA)
    {
      for j := 0 to colsB
        invariant forall i', j' :: 0 <= i' < i && 0 <= j' < colsB ==> C[i', j'] == DotRowCol(A, B, i', j', colsA)
        invariant forall j' :: 0 <= j' < j ==> C[i, j'] == DotRowCol(A, B, i, j', colsA)
      {
        var sum := 0;
        for k := 0 to colsA
          invariant sum == DotRowCol(A, B, i, j, k)
        {
          sum := sum + A[i, k] * B[k, j];
        }
        C[i, j] := sum;
      }
    }
  }

  /** B is the n-by-n identity matrix. */
  ghost predicate IsIdentity(B: array2<int>)
    reads B
  {
    B.Length0 == B.Length1 &&
    forall r, c :: 0 <= r < B.Length0 && 0 <= c < B.Length1 ==> B[r, c] == if r == c then 1 else 0
  }

  /** Against the identity, the partial dot product picks out A[i,j] once k has passed column j. */
  lemma {:induction false} DotRowColIdentity(A: array2<int>, B: array2<int>, i: int, j: int, k: int)
    requires IsIdentity(B) && A.Length1 == B.Length0
    requires 0 <= i < A.Length0 && 0 <= j < B.Length1 && 0 <= k <= A.Length1
    ensures DotRowCol(A, B, i, j, k) == if j < k then A[i, j] else 0
    decreases k
  {
    if k > 0 {
      DotRowColIdentity(A, B, i, j, k - 1);
    }
  }

  /**
   * Only the first colsA rows of B take part: two right operands that agree on
   * those rows give the same entries.
   */
  lemma {:induction false} DotRowColUsesLeadingRows(A: array2<int>, B: array2<int>, B': array2<int>, i: int, j: int, k: int)
    requires 0 <= i < A.Length0 && 0 <= j < B.Length1 && B'.Length1 == B.Length1
    requires 0 <= k <= A.Length1 && k <= B.Length0 && k <= B'.Length0
    requires forall r :: 0 <= r < k ==> B[r, j] == B'[r, j]
    ensures DotRowCol(A, B, i, j, k) == DotRowCol(A, B', i, j, k)
    decreases k
  {
    if k > 0 {
      DotRowColUsesLeadingRows(A, B, B', i, j, k - 1);
    }
  }

  /** A dot product over three columns, written out. */
  lemma DotRowColThree(A: array2<int>, B: array2<int>, i: int, j: int)
    requires 0 <= i < A.Length0 && 0 <= j < B.Length1 && A.Length1 == 3 && B.Length0 == 3
    ensures DotRowCol(A, B, i, j, 3) == A[i, 0] * B[0, j] + A[i, 1] * B[1, j] + A[i, 2] * B[2, j]
  {
    assert DotRowCol(A, B, i, j, 1) == A[i, 0] * B[0, j];
  }

  /** The literal example of `main`: [[1,2,3],[4,5,6]] times [[7,8],[9,10],[11,12]] is [[58,64],[139,154]]. */
  method LiteralProduct() returns (C: array2<int>)
    ensures C.Length0 == 2 && C.Length1 == 2
    ensures C[0, 0] == 58 && C[0, 1] == 64 && C[1, 0] == 139 && C[1, 1] == 154
  {
    var A := new int[2, 3];
    A[0, 0], A[0, 1], A[0, 2] := 1, 2, 3;
    A[1, 0], A[1, 1], A[1, 2] := 4, 5, 6;
    var B := new int[3, 2];
    B[0, 0], B[0, 1] := 7, 8;
    B[1, 0], B[1, 1] := 9, 10;
    B[2, 0], B[2, 1] := 11, 12;
    C := Multiply(A, B);
    DotRowColThree(A, B, 0, 0);
    DotRowColThree(A, B, 0, 1);
    DotRowColThree(A, B, 1, 0);
    DotRowColThree(A, B, 1, 1);
  }
}
