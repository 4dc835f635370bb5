/** trans.c: the blocked transpose, with its deferred diagonal writes, against the row-wise one. */
module Transpose {
  import opened Common

  ghost predicate Shapes(A: array2<int>, B: array2<int>) {
    A != B && B.Length0 == A.Length1 && B.Length1 == A.Length0
  }

  /** is_transpose */
  ghost predicate IsTranspose(A: array2<int>, B: array2<int>)
    requires Shapes(A, B)
    reads A, B
  {
    forall i, j :: 0 <= i < A.Length0 && 0 <= j < A.Length1 ==> B[j, i] == A[i, j]
  }

  /** trans: the simple row-wise scan */
  method Trans(A: array2<int>, B: array2<int>)
    requires Shapes(A, B)
    modifies B
    ensures IsTranspose(A, B)
  {
    for i := 0 to A.Length0
      invariant forall r, c :: 0 <= r < i && 0 <= c < A.Length1 ==> B[c, r] == A[r, c]
    {
      for j := 0 to A.Length1
        invariant forall r, c :: 0 <= r < i && 0 <= c < A.Length1 ==> B[c, r] == A[r, c]
        invariant forall c :: 0 <= c < j ==> B[c, i] == A[i, c]
      {
        var tmp := A[i, j];
        B[j, i] := tmp;
      }
    }
  }

  /** temp is the diagonal entry that diag names. */
  ghost predicate Remembered(A: array2<int>, cap: nat, diag: nat, temp: int)
    reads A
  {
    diag < cap <= A.Length1 && diag < A.Length0 && temp == A[diag, diag]
  }

  /** Only entries with j < cap were written, and every entry that was written is right. */
  twostate predicate Progress(A: array2<int>, B: array2<int>, cap: nat)
    requires Shapes(A, B)
    reads A, B
  {
    forall i, j {:trigger B[j, i]} :: 0 <= i < A.Length0 && 0 <= j < A.Length1 ==>
      B[j, i] == old(B[j, i]) || (j < cap && B[j, i] == A[i, j])
  }

  /** One row of one block: entries off the diagonal at once, the diagonal one afterwards. */
  method Row(A: array2<int>, B: array2<int>, i: nat, lo: nat, hi: nat, diag0: nat, temp0: int, onDiagonal: bool,
             ghost cap: nat)
    returns (diag: nat, temp: int)
    requires Shapes(A, B) && i < A.Length0 && lo <= hi <= cap <= A.Length1
    requires if onDiagonal then lo <= i < hi || Remembered(A, cap, diag0, temp0) else !(lo <= i < hi)
    modifies B
    ensures if lo <= i < hi then Remembered(A, cap, diag, temp) else diag == diag0 && temp == temp0
    ensures forall j :: lo <= j < hi ==> B[j, i] == A[i, j]
    ensures Progress(A, B, cap)
  {
    diag, temp := diag0, temp0;
    for j := lo to hi
      invariant if lo <= i < j then diag == i && temp == A[i, i] else diag == diag0 && temp == temp0
      invariant forall c :: lo <= c < j && c != i ==> B[c, i] == A[i, c]
      invariant Progress(A, B, cap)
    {
      if i != j {
        B[j, i] := A[i, j];
      } else {
        temp := A[i, j];
        diag := i;
      }
    }
    if onDiagonal {
      B[diag, diag] := temp;
    }
  }

  /** One block: rows [top, bottom), columns [lo, hi). */
  method Block(A: array2<int>, B: array2<int>, top: nat, bottom: nat, lo: nat, hi: nat, diag0: nat, temp0: int,
               ghost cap: nat)
    returns (diag: nat, temp: int)
    requires Shapes(A, B) && top <= bottom <= A.Length0 && lo <= hi <= cap <= A.Length1
    requires top != lo ==> bottom <= lo || hi <= top
    requires Remembered(A, cap, diag0, temp0) || (top == lo == 0 && hi > 0)
    modifies B
    ensures Remembered(A, cap, diag0, temp0) ==> Remembered(A, cap, diag, temp)
    ensures bottom > top && top == lo && lo < hi ==> Remembered(A, cap, diag, temp)
    ensures forall i, j :: top <= i < bottom && lo <= j < hi ==> B[j, i] == A[i, j]
    ensures Progress(A, B, cap)
  {
    diag, temp := diag0, temp0;
    for i := top to bottom
      invariant Remembered(A, cap, diag0, temp0) ==> Remembered(A, cap, diag, temp)
      invariant i > top && top == lo && lo < hi ==> Remembered(A, cap, diag, temp)
      invariant forall r, c :: top <= r < i && lo <= c < hi ==> B[c, r] == A[r, c]
      invariant Progress(A, B, cap)
    {
      diag, temp := Row(A, B, i, lo, hi, diag, temp, top == lo, cap);
    }
  }

  /** The block side transpose_submit uses. */
  function Step(M: nat, N: nat): (step: nat)
    ensures step > 0
  {
    if N != 32 && N != 64 then 16 else if M == 64 then 4 else if N == 32 then 8 else 1
  }

  /** The columns of A that transpose_submit visits. */
  function Reached(M: nat, N: nat): nat {
    if N == 32 || N == 64 then N else M
  }

  /** x is where a block of side `step` may start. */
  predicate OnGrid(x: nat, step: nat)
    requires step > 0
  {
    x == 0 || (x >= step && OnGrid(x - step, step))
  }

  /** Blocks of the grid start at the same place or do not overlap. */
  lemma {:induction false} BlocksApart(x: nat, y: nat, step: nat)
    requires step > 0 && OnGrid(x, step) && OnGrid(y, step)
    ensures x == y || x + step <= y || y + step <= x
  {
    if x > 0 && y > 0 {
      BlocksApart(x - step, y - step, step);
    }
  }

  /**
   The block loops with side `step`, for rows 0 .. N and columns 0 .. cap. In the first branch of the
   source the blocks fill the area exactly, so cutting them at its border changes nothing there.
   */
  method Sweep(A: array2<int>, B: array2<int>, step: nat, cap: nat)
    requires Shapes(A, B) && step > 0 && 0 < cap <= A.Length1 && 0 < A.Length0
    modifies B
    ensures forall i, j :: 0 <= i < A.Length0 && 0 <= j < cap ==> B[j, i] == A[i, j]
    ensures Progress(A, B, cap)
  {
    var N := A.Length0;
    var diag, temp, colBlock := 0, 0, 0;
    while colBlock < cap
      invariant OnGrid(colBlock, step)
      invariant colBlock > 0 ==> Remembered(A, cap, diag, temp)
      invariant forall i, j :: 0 <= i < N && 0 <= j < Least(colBlock, cap) ==> B[j, i] == A[i, j]
      invariant Progress(A, B, cap)
    {
      diag, temp := Column(A, B, step, cap, colBlock, diag, temp);
      colBlock := colBlock + step;
    }
  }

  /** The blocks of one block column. */
  method Column(A: array2<int>, B: array2<int>, step: nat, cap: nat, colBlock: nat, diag0: nat, temp0: int)
    returns (diag: nat, temp: int)
    requires Shapes(A, B) && step > 0 && colBlock < cap <= A.Length1 && 0 < A.Length0 && OnGrid(colBlock, step)
    requires Remembered(A, cap, diag0, temp0) || colBlock == 0
    modifies B
    ensures Remembered(A, cap, diag, temp)
    ensures forall i, j :: 0 <= i < A.Length0 && colBlock <= j < Least(colBlock + step, cap) ==> B[j, i] == A[i, j]
    ensures Progress(A, B, cap)
  {
    var N := A.Length0;
    var rowBlock := 0;
    diag, temp := diag0, temp0;
    while rowBlock < N
      invariant OnGrid(rowBlock, step)
      invariant Remembered(A, cap, diag, temp) || (colBlock == 0 && rowBlock == 0)
      invariant forall i, j :: 0 <= i < Least(rowBlock, N) && colBlock <= j < Least(colBlock + step, cap) ==>
                B[j, i] == A[i, j]
      invariant Progress(A, B, cap)
    {
      BlocksApart(rowBlock, colBlock, step);
      var bottom, right := Least(rowBlock + step, N), Least(colBlock + step, cap);
      diag, temp := Block(A, B, rowBlock, bottom, colBlock, right, diag, temp, cap);
      rowBlock := rowBlock + step;
    }
  }

  /**
   transpose_submit. With N = 32 or 64 it works as if the matrix were square: it must not be called
   with fewer columns than rows then, and leaves the columns past N alone.
   */
  method TransposeSubmit(A: array2<int>, B: array2<int>)
    requires Shapes(A, B) && A.Length0 > 0 && A.Length1 > 0
    requires (A.Length0 != 32 && A.Length0 != 64) || A.Length0 <= A.Length1
    modifies B
    ensures A.Length0 != 32 && A.Length0 != 64 ==> IsTranspose(A, B)
    ensures forall i, j :: 0 <= i < A.Length0 && 0 <= j < Least(A.Length0, A.Length1) ==> B[j, i] == A[i, j]
    ensures forall i, j :: 0 <= i < A.Length0 && 0 <= j < Reached(A.Length1, A.Length0) ==> B[j, i] == A[i, j]
    ensures forall i, j :: 0 <= i < A.Length0 && Reached(A.Length1, A.Length0) <= j < A.Length1 ==>
              B[j, i] == old(B[j, i])
    ensures IsTranspose(A, B) <==>
            forall i, j :: 0 <= i < A.Length0 && Reached(A.Length1, A.Length0) <= j < A.Length1 ==>
              old(B[j, i]) == A[i, j]
  {
    var M, N := A.Length1, A.Length0;
    if N == 32 || N == 64 {
      Sweep(A, B, Step(M, N), N);
    } else {
      Sweep(A, B, Step(M, N), M);
    }
  }

  /** With 32 rows and 33 columns the last column is not transposed. */
  method WideMatrixMissed() returns (A: array2<int>, B: array2<int>)
    ensures Shapes(A, B) && A.Length0 == 32 && A.Length1 == 33 && !IsTranspose(A, B)
  {
    A := new int[32, 33]((i, j) => 1);
    B := new int[33, 32]((i, j) => 0);
    assert B[32, 0] != A[0, 32];
    TransposeSubmit(A, B);
  }

  /** The fast form computes what the simple one does for every shape but N in {32, 64} with M > N. */
  method SubmitEqualsTrans(A: array2<int>, B: array2<int>, C: array2<int>)
    requires Shapes(A, B) && Shapes(A, C) && B != C && A.Length0 > 0 && A.Length1 > 0
    requires (A.Length0 != 32 && A.Length0 != 64) || A.Length1 == A.Length0
    modifies B, C
    ensures IsTranspose(A, B)
    ensures forall i, j :: 0 <= i < A.Length0 && 0 <= j < A.Length1 ==> B[j, i] == C[j, i]
  {
    TransposeSubmit(A, B);
    Trans(A, C);
  }

  /** The blocks of the first branch fill the N by N area exactly. */
  lemma BlocksFill(M: nat, N: nat, start: nat)
    requires N == 32 || N == 64
    requires OnGrid(start, Step(M, N)) && start < N
    ensures start + Step(M, N) <= N
  {
    GridMultiple(start, Step(M, N));
  }

  lemma {:induction false} GridMultiple(x: nat, step: nat)
    requires (step == 1 || step == 4 || step == 8) && OnGrid(x, step)
    ensures (step == 4 ==> x % 4 == 0) && (step == 8 ==> x % 8 == 0)
  {
    if x > 0 {
      GridMultiple(x - step, step);
    }
  }

  // ---- which entries are visited ----

  /** Whether the block loops come to A[i][j]; only those of the second branch are cut at the border. */
  ghost predicate Visited(M: nat, N: nat, i: nat, j: nat) {
    var step := Step(M, N);
    exists r: nat, c: nat {:trigger OnGrid(r, step), OnGrid(c, step)} ::
      && OnGrid(r, step) && OnGrid(c, step) && r < N && c < Reached(M, N)
      && r <= i < r + step && c <= j < c + step
      && (N == 32 || N == 64 || (i < N && j < M))
  }

  lemma {:induction false} GridStart(x: nat, step: nat) returns (start: nat)
    requires step > 0
    ensures OnGrid(start, step) && start <= x < start + step
  {
    if x < step {
      start := 0;
    } else {
      start := GridStart(x - step, step);
      start := start + step;
    }
  }

  lemma VisitedExactly(M: nat, N: nat, i: nat, j: nat)
    ensures Visited(M, N, i, j) <==> i < N && j < Reached(M, N)
  {
    var step := Step(M, N);
    if Visited(M, N, i, j) && (N == 32 || N == 64) {
      var r: nat, c: nat :| OnGrid(r, step) && OnGrid(c, step) && r < N && c < N
                            && i < r + step && j < c + step;
      BlocksFill(M, N, r);
      BlocksFill(M, N, c);
    }
    var r := GridStart(i, step);
    var c := GridStart(j, step);
  }

  /** transpose_submit stays inside the matrices exactly if it visits no more columns than there are. */
  lemma InsideIff(M: nat, N: nat)
    ensures (forall i: nat, j: nat :: Visited(M, N, i, j) ==> i < N && j < M) <==> (N != 32 && N != 64) || N <= M
  {
    forall i: nat, j: nat
      ensures Visited(M, N, i, j) <==> i < N && j < Reached(M, N)
    {
      VisitedExactly(M, N, i, j);
    }
    if Reached(M, N) > M {
      assert Visited(M, N, 0, N - 1);
    }
  }
}
