/** Vectors and square matrices over GF(2^8). */
module LinearAlgebra {
  import opened GaloisField

  type Vector = seq<Elem>
  type Matrix = seq<Vector>

  /** The inner product of the first k entries. */
  function DotTo(u: Vector, v: Vector, k: nat): Elem
    requires k <= |u| && k <= |v|
  {
    if k == 0 then 0 else Add(DotTo(u, v, k - 1), Mul(u[k - 1], v[k - 1]))
  }

  function Dot(u: Vector, v: Vector): Elem
    requires |u| == |v|
  {
    DotTo(u, v, |u|)
  }

  function Zeros(n: nat): Vector { seq(n, _ => 0) }

  function Unit(n: nat, i: int): Vector { seq(n, j => if j == i then 1 else 0) }

  function Identity(n: nat): Matrix { seq(n, i => Unit(n, i)) }

  predicate Square(m: Matrix, n: nat) { |m| == n && forall r :: 0 <= r < n ==> |m[r]| == n }

  function Apply(m: Matrix, x: Vector): (y: Vector)
    requires Square(m, |x|)
    ensures |y| == |x|
  {
    seq(|m|, r requires 0 <= r < |m| => Dot(m[r], x))
  }

  /** `b` is a two-sided inverse of `m`: the two maps undo each other. */
  ghost predicate IsInverse(b: Matrix, m: Matrix, n: nat)
    requires Square(b, n) && Square(m, n)
  {
    forall x: Vector, y: Vector | |x| == n && |y| == n :: Apply(m, x) == y <==> Apply(b, y) == x
  }

  /** `m` sends some non-zero vector to zero. */
  ghost predicate Singular(m: Matrix, n: nat)
    requires Square(m, n)
  {
    exists v: Vector :: |v| == n && v != Zeros(n) && Apply(m, v) == Zeros(n)
  }

  /** A matrix with an inverse is not singular. */
  lemma InverseExcludesKernel(b: Matrix, m: Matrix, n: nat)
    requires Square(b, n) && Square(m, n) && IsInverse(b, m, n)
    ensures !Singular(m, n)
  {
    hide Dot;
    if v: Vector :| |v| == n && v != Zeros(n) && Apply(m, v) == Zeros(n) {
      assert Apply(b, Zeros(n)) == v;
      ApplyZeros(m, n);
    }
  }

  lemma ApplyZeros(m: Matrix, n: nat)
    requires Square(m, n)
    ensures Apply(m, Zeros(n)) == Zeros(n)
  {
    hide Mul, Add;
    forall r | 0 <= r < n
      ensures Dot(m[r], Zeros(n)) == 0
    {
      DotZeros(m[r], Zeros(n), n);
    }
  }

  lemma {:induction false} DotZeros(u: Vector, v: Vector, k: nat)
    requires k <= |u| && k <= |v|
    requires forall i :: 0 <= i < k ==> v[i] == 0 || u[i] == 0
    ensures DotTo(u, v, k) == 0
  {
    hide Mul, Add;
    if k != 0 {
      DotZeros(u, v, k - 1);
      MulUnits(u[k - 1]);
      MulUnits(v[k - 1]);
      AddLaws(0, 0, 0);
    }
  }

  /** A vector that is one at position i and zero elsewhere selects an entry. */
  lemma {:induction false} DotUnit(u: Vector, v: Vector, i: nat, k: nat)
    requires k <= |u| && k <= |v|
    requires forall j :: 0 <= j < k ==> u[j] == if j == i then 1 else 0
    ensures DotTo(u, v, k) == if i < k then v[i] else 0
  {
    hide Mul, Add;
    if k != 0 {
      DotUnit(u, v, i, k - 1);
      MulUnits(v[k - 1]);
      AddLaws(v[k - 1], 0, 0);
      if i < k - 1 {
        AddLaws(v[i], 0, 0);
      }
      AddLaws(0, 0, 0);
    }
  }

  lemma {:induction false} DotCommutes(u: Vector, v: Vector, k: nat)
    requires k <= |u| && k <= |v|
    ensures DotTo(u, v, k) == DotTo(v, u, k)
  {
    hide Mul, Add;
    if k != 0 {
      DotCommutes(u, v, k - 1);
      MulCommutes(u[k - 1], v[k - 1]);
    }
  }

  // ---------- Row operations ----------

  function Scaled(u: Vector, c: Elem): (w: Vector)
    ensures |w| == |u|
  {
    seq(|u|, j requires 0 <= j < |u| => Mul(u[j], c))
  }

  /** u + f w. */
  function Combined(u: Vector, f: Elem, w: Vector): (z: Vector)
    requires |u| == |w|
    ensures |z| == |u|
  {
    seq(|u|, j requires 0 <= j < |u| => Add(u[j], Mul(f, w[j])))
  }

  lemma {:induction false} DotScaled(u: Vector, c: Elem, x: Vector, k: nat)
    requires k <= |u| && k <= |x|
    ensures DotTo(Scaled(u, c), x, k) == Mul(DotTo(u, x, k), c)
  {
    hide Mul, Add;
    if k == 0 {
      MulUnits(c);
    } else {
      DotScaled(u, c, x, k - 1);
      var a, b := u[k - 1], x[k - 1];
      MulAssociates(a, c, b);
      MulCommutes(c, b);
      MulAssociates(a, b, c);
      MulLeftAdds(DotTo(u, x, k - 1), Mul(a, b), c);
    }
  }

  lemma {:induction false} DotCombined(u: Vector, f: Elem, w: Vector, x: Vector, k: nat)
    requires |u| == |w| && k <= |u| && k <= |x|
    ensures DotTo(Combined(u, f, w), x, k) == Add(DotTo(u, x, k), Mul(f, DotTo(w, x, k)))
  {
    hide Mul, Add;
    if k == 0 {
      MulUnits(f);
      AddLaws(0, 0, 0);
    } else {
      DotCombined(u, f, w, x, k - 1);
      var a, b, c := u[k - 1], w[k - 1], x[k - 1];
      MulLeftAdds(a, Mul(f, b), c);
      MulAssociates(f, b, c);
      MulRightAdds(f, DotTo(w, x, k - 1), Mul(b, c));
      AddInterchange(DotTo(u, x, k - 1), Mul(f, DotTo(w, x, k - 1)), Mul(a, c), Mul(f, Mul(b, c)));
    }
  }

  lemma AddInterchange(a: Elem, b: Elem, c: Elem, d: Elem)
    ensures Add(Add(a, b), Add(c, d)) == Add(Add(a, c), Add(b, d))
  {
    XorInterchange(a, b, c, d);
    hide Xor;
  }
}
