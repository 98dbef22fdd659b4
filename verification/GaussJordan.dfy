/** In-place Gauss-Jordan inversion over GF(2^8): sound, and complete in that it fails only on
    matrices with a non-trivial kernel. */
module GaussJordan {
  import opened Wrappers
  import opened GaloisField
  import opened GaloisTables
  import opened LinearAlgebra

  /** The augmented system (a | inv) has the same solutions as (m | identity). */
  ghost predicate Tracks(m: Matrix, a: Matrix, inv: Matrix, n: nat)
    requires Square(m, n) && Square(a, n) && Square(inv, n)
  {
    forall x: Vector, y: Vector | |x| == n && |y| == n :: Apply(a, x) == Apply(inv, y) <==> Apply(m, x) == y
  }

  /** The first c columns are those of the identity. */
  predicate ColumnsDone(a: Matrix, n: nat, c: nat)
    requires Square(a, n) && c <= n
  {
    forall r, j :: 0 <= r < n && 0 <= j < c ==> a[r][j] == if r == j then 1 else 0
  }

  lemma ApplyIdentity(a: Matrix, n: nat, x: Vector)
    requires Square(a, n) && ColumnsDone(a, n, n) && |x| == n
    ensures Apply(a, x) == x
  {
    hide Mul, Add;
    forall r | 0 <= r < n
      ensures Dot(a[r], x) == x[r]
    {
      DotUnit(a[r], x, r, n);
    }
  }

  lemma StartTracks(m: Matrix, n: nat)
    requires Square(m, n)
    ensures Square(Identity(n), n) && Tracks(m, m, Identity(n), n)
  {
    hide Dot;
    forall y: Vector | |y| == n
      ensures Apply(Identity(n), y) == y
    {
      ApplyIdentity(Identity(n), n, y);
    }
  }

  lemma EndInverts(m: Matrix, a: Matrix, inv: Matrix, n: nat)
    requires Square(m, n) && Square(a, n) && Square(inv, n) && Tracks(m, a, inv, n) && ColumnsDone(a, n, n)
    ensures IsInverse(inv, m, n) && !Singular(m, n)
  {
    hide Dot;
    forall x: Vector | |x| == n
      ensures Apply(a, x) == x
    {
      ApplyIdentity(a, n, x);
    }
    InverseExcludesKernel(inv, m, n);
  }

  // ---------- Each row operation keeps the solutions ----------

  function Swapped<T>(s: seq<T>, i: nat, j: nat): seq<T>
    requires i < |s| && j < |s|
  {
    s[i := s[j]][j := s[i]]
  }

  lemma SwapTracks(m: Matrix, a: Matrix, inv: Matrix, n: nat, i: nat, j: nat)
    requires Square(m, n) && Square(a, n) && Square(inv, n) && Tracks(m, a, inv, n) && i < n && j < n
    ensures Tracks(m, Swapped(a, i, j), Swapped(inv, i, j), n)
  {
    hide Dot;
    var a', inv' := Swapped(a, i, j), Swapped(inv, i, j);
    forall x: Vector, y: Vector | |x| == n && |y| == n
      ensures Apply(a', x) == Apply(inv', y) <==> Apply(a, x) == Apply(inv, y)
    {
      assert Apply(a', x) == Swapped(Apply(a, x), i, j);
      assert Apply(inv', y) == Swapped(Apply(inv, y), i, j);
      assert Apply(a, x) == Swapped(Apply(a', x), i, j);
      assert Apply(inv, y) == Swapped(Apply(inv', y), i, j);
    }
  }

  lemma ScaleReversible(s: Elem, u: Elem, c: Elem, d: Elem)
    requires Mul(c, d) == 1
    ensures Mul(s, c) == Mul(u, c) <==> s == u
  {
    hide Mul;
    MulAssociates(s, c, d);
    MulAssociates(u, c, d);
    MulUnits(s);
    MulUnits(u);
  }

  lemma ScaleTracks(m: Matrix, a: Matrix, inv: Matrix, n: nat, i: nat, c: Elem, d: Elem)
    requires Square(m, n) && Square(a, n) && Square(inv, n) && Tracks(m, a, inv, n) && i < n
    requires Mul(c, d) == 1
    ensures Tracks(m, a[i := Scaled(a[i], c)], inv[i := Scaled(inv[i], c)], n)
  {
    hide Mul, Scaled;
    var a', inv' := a[i := Scaled(a[i], c)], inv[i := Scaled(inv[i], c)];
    forall x: Vector, y: Vector | |x| == n && |y| == n
      ensures Apply(a', x) == Apply(inv', y) <==> Apply(a, x) == Apply(inv, y)
    {
      hide DotTo;
      DotScaled(a[i], c, x, n);
      DotScaled(inv[i], c, y, n);
      var s, u := Dot(a[i], x), Dot(inv[i], y);
      assert Apply(a', x) == Apply(a, x)[i := Mul(s, c)];
      assert Apply(inv', y) == Apply(inv, y)[i := Mul(u, c)];
      ScaleReversible(s, u, c, d);
      SameButOne(Apply(a, x), Apply(inv, y), i, Mul(s, c), Mul(u, c));
    }
  }

  lemma SameButOne<T>(p: seq<T>, q: seq<T>, i: nat, v: T, w: T)
    requires |p| == |q| && i < |p|
    requires v == w <==> p[i] == q[i]
    ensures p[i := v] == q[i := w] <==> p == q
  {
    if p[i := v] == q[i := w] {
      assert p[i := v][i] == v && q[i := w][i] == w;
      assert forall j :: 0 <= j < |p| && j != i ==> p[i := v][j] == p[j] && q[i := w][j] == q[j];
    }
  }

  lemma CombineReversible(s: Elem, u: Elem, f: Elem)
    ensures Add(s, f) == Add(u, f) <==> s == u
  {
    XorCancels(s, f);
    XorCancels(u, f);
    hide Xor;
  }

  lemma CombineTracks(m: Matrix, a: Matrix, inv: Matrix, n: nat, i: nat, f: Elem, c: nat)
    requires Square(m, n) && Square(a, n) && Square(inv, n) && Tracks(m, a, inv, n) && i < n && c < n && i != c
    ensures Tracks(m, a[i := Combined(a[i], f, a[c])], inv[i := Combined(inv[i], f, inv[c])], n)
  {
    hide Mul, Add, Combined;
    var a', inv' := a[i := Combined(a[i], f, a[c])], inv[i := Combined(inv[i], f, inv[c])];
    forall x: Vector, y: Vector | |x| == n && |y| == n
      ensures Apply(a', x) == Apply(inv', y) <==> Apply(a, x) == Apply(inv, y)
    {
      hide DotTo;
      DotCombined(a[i], f, a[c], x, n);
      DotCombined(inv[i], f, inv[c], y, n);
      var s, u := Dot(a[i], x), Dot(inv[i], y);
      var sc, uc := Dot(a[c], x), Dot(inv[c], y);
      var p, q := Apply(a, x), Apply(inv, y);
      assert p[c] == sc && q[c] == uc;
      assert Apply(a', x) == p[i := Add(s, Mul(f, sc))];
      assert Apply(inv', y) == q[i := Add(u, Mul(f, uc))];
      if sc == uc {
        CombineReversible(s, u, Mul(f, sc));
        SameButOne(p, q, i, Add(s, Mul(f, sc)), Add(u, Mul(f, uc)));
      } else {
        assert Apply(a', x)[c] != Apply(inv', y)[c];
      }
    }
  }

  // ---------- A column without a pivot ----------

  function KernelVector(a: Matrix, n: nat, col: nat): Vector
    requires Square(a, n) && col < n
  {
    seq(n, j requires 0 <= j < n => if j < col then a[j][col] else if j == col then 1 else 0)
  }

  lemma {:induction false} KernelRow(a: Matrix, n: nat, col: nat, r: nat, k: nat)
    requires Square(a, n) && col < n && r < n && k <= n
    requires ColumnsDone(a, n, col)
    requires r >= col ==> a[r][col] == 0
    ensures DotTo(a[r], KernelVector(a, n, col), k) == if r < k <= col then a[r][col] else 0
  {
    hide Mul, Add;
    if k != 0 {
      KernelRow(a, n, col, r, k - 1);
      var u, v := a[r][k - 1], KernelVector(a, n, col)[k - 1];
      MulUnits(u);
      MulUnits(v);
      AddLaws(v, 0, 0);
      AddLaws(a[r][col], a[r][col], 0);
      AddLaws(0, 0, 0);
    }
  }

  lemma NoPivotIsSingular(m: Matrix, a: Matrix, inv: Matrix, n: nat, col: nat)
    requires Square(m, n) && Square(a, n) && Square(inv, n) && Tracks(m, a, inv, n)
    requires col < n && ColumnsDone(a, n, col)
    requires forall r :: col <= r < n ==> a[r][col] == 0
    ensures Singular(m, n)
  {
    hide Mul, Add, DotTo;
    var v := KernelVector(a, n, col);
    assert v[col] == 1 && v != Zeros(n) by {
      assert Zeros(n)[col] == 0;
    }
    forall r | 0 <= r < n
      ensures Dot(a[r], v) == 0
    {
      KernelRow(a, n, col, r, n);
    }
    assert Apply(a, v) == Zeros(n);
    ApplyZeros(inv, n);
    assert Apply(m, v) == Zeros(n);
  }

  // ---------- The algorithm ----------

  method ScaleRows(t: Tables, u: Vector, w: Vector, c: Elem) returns (u': Vector, w': Vector)
    requires t.Built() && |u| == |w|
    ensures u' == Scaled(u, c) && w' == Scaled(w, c)
  {
    hide Mul;
    u', w' := u, w;
    for j := 0 to |u|
      invariant |u'| == |u| && |w'| == |w|
      invariant forall i :: 0 <= i < j ==> u'[i] == Mul(u[i], c) && w'[i] == Mul(w[i], c)
      invariant forall i :: j <= i < |u| ==> u'[i] == u[i] && w'[i] == w[i]
    {
      u' := u'[j := GfMul(t, u'[j], c)];
      w' := w'[j := GfMul(t, w'[j], c)];
    }
  }

  method CombineRows(t: Tables, u: Vector, w: Vector, f: Elem, pu: Vector, pw: Vector) returns (u': Vector, w': Vector)
    requires t.Built() && |u| == |w| == |pu| == |pw|
    ensures u' == Combined(u, f, pu) && w' == Combined(w, f, pw)
  {
    hide Mul, Add;
    u', w' := u, w;
    for j := 0 to |u|
      invariant |u'| == |u| && |w'| == |w|
      invariant forall i :: 0 <= i < j ==> u'[i] == Add(u[i], Mul(f, pu[i])) && w'[i] == Add(w[i], Mul(f, pw[i]))
      invariant forall i :: j <= i < |u| ==> u'[i] == u[i] && w'[i] == w[i]
    {
      u' := u'[j := Add(u'[j], GfMul(t, f, pu[j]))];
      w' := w'[j := Add(w'[j], GfMul(t, f, pw[j]))];
    }
  }

  lemma ScaledColumns(a: Matrix, n: nat, col: nat, c: Elem)
    requires Square(a, n) && col < n && ColumnsDone(a, n, col) && Mul(a[col][col], c) == 1
    ensures var a' := a[col := Scaled(a[col], c)]; ColumnsDone(a', n, col) && a'[col][col] == 1
  {
    hide Mul;
    MulUnits(c);
  }

  lemma CombinedColumns(a: Matrix, n: nat, col: nat, row: nat)
    requires Square(a, n) && col < n && row < n && row != col && ColumnsDone(a, n, col) && a[col][col] == 1
    ensures var a' := a[row := Combined(a[row], a[row][col], a[col])];
      ColumnsDone(a', n, col) && a'[row][col] == 0
  {
    hide Mul, Add;
    var f := a[row][col];
    MulUnits(f);
    AddLaws(f, f, 0);
    forall j | 0 <= j < col
      ensures Add(a[row][j], Mul(f, a[col][j])) == a[row][j]
    {
      AddLaws(a[row][j], 0, 0);
    }
  }

  method FindPivot(a: Matrix, n: nat, col: nat) returns (pivot: nat)
    requires Square(a, n) && col < n
    ensures col <= pivot <= n
    ensures forall p :: col <= p < pivot ==> a[p][col] == 0
    ensures pivot < n ==> a[pivot][col] != 0
  {
    pivot := col;
    while pivot < n && a[pivot][col] == 0
      invariant col <= pivot <= n
      invariant forall p :: col <= p < pivot ==> a[p][col] == 0
    {
      pivot := pivot + 1;
    }
  }

  /** Subtracts multiples of the pivot row from all others, which clears the column. */
  method ClearColumn(t: Tables, ghost m: Matrix, a: Matrix, inv: Matrix, n: nat, col: nat)
    returns (a': Matrix, inv': Matrix)
    requires t.Built() && Square(m, n) && Square(a, n) && Square(inv, n) && Tracks(m, a, inv, n)
    requires col < n && ColumnsDone(a, n, col) && a[col][col] == 1
    ensures Square(a', n) && Square(inv', n) && Tracks(m, a', inv', n) && ColumnsDone(a', n, col + 1)
  {
    hide Mul, Add, Tracks;
    a', inv' := a, inv;
    for row := 0 to n
      invariant Square(a', n) && Square(inv', n) && Tracks(m, a', inv', n) && ColumnsDone(a', n, col)
      invariant a'[col][col] == 1
      invariant forall p :: 0 <= p < row && p != col ==> a'[p][col] == 0
    {
      if row == col {
        continue;
      }
      var factor := a'[row][col];
      if factor == 0 {
        continue;
      }
      var u, w := CombineRows(t, a'[row], inv'[row], factor, a'[col], inv'[col]);
      CombineTracks(m, a', inv', n, row, factor, col);
      CombinedColumns(a', n, col, row);
      hide Combined, ColumnsDone;
      a', inv' := a'[row := u], inv'[row := w];
    }
  }

  method InvertMatrix(t: Tables, matrix: Matrix) returns (r: Option<Matrix>)
    requires t.Built() && Square(matrix, |matrix|)
    ensures r.None? <==> Singular(matrix, |matrix|)
    ensures r.Some? ==> Square(r.value, |matrix|) && IsInverse(r.value, matrix, |matrix|)
  {
    hide Mul, Scaled, Tracks, Singular, IsInverse;
    var n := |matrix|;
    var a, inv := matrix, Identity(n);
    StartTracks(matrix, n);
    for col := 0 to n
      invariant Square(a, n) && Square(inv, n) && Tracks(matrix, a, inv, n) && ColumnsDone(a, n, col)
    {
      var pivot := FindPivot(a, n, col);
      if pivot >= n {
        NoPivotIsSingular(matrix, a, inv, n, col);
        return None;
      }
      if pivot != col {
        SwapTracks(matrix, a, inv, n, col, pivot);
        a, inv := a[col := a[pivot]][pivot := a[col]], inv[col := inv[pivot]][pivot := inv[col]];
      }
      var pivotVal := a[col][col];
      var invPivot := GfInv(t, pivotVal);
      MulCommutes(pivotVal, invPivot.value);
      var u, w := ScaleRows(t, a[col], inv[col], invPivot.value);
      ScaleTracks(matrix, a, inv, n, col, invPivot.value, pivotVal);
      ScaledColumns(a, n, col, invPivot.value);
      a, inv := a[col := u], inv[col := w];
      a, inv := ClearColumn(t, matrix, a, inv, n, col);
    }
    EndInverts(matrix, a, inv, n);
    return Some(inv);
  }
}
