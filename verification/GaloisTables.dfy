/** The exp/log tables of GF(2^8), and multiplication and inversion by table lookup. */
module GaloisTables {
  import opened Wrappers
  import opened GaloisField
  import opened GeneratorPowers

  datatype Tables = Tables(exp: seq<Elem>, log: seq<nat>) {
    ghost predicate Built() {
      && |exp| == 2 * GF_SIZE && |log| == GF_SIZE
      && (forall i :: 0 <= i < 2 * GF_SIZE ==> exp[i] == Generator(i))
      && (forall a: Elem :: a != 0 ==> log[a] < GF_SIZE - 1 && Generator(log[a]) == a)
    }
  }

  method BuildTables() returns (t: Tables)
    ensures t.Built()
  {
    hide Double, Xor;
    var exp: seq<Elem> := seq(2 * GF_SIZE, _ => 0);
    var log: seq<nat> := seq(GF_SIZE, _ => 0);
    var value: nat := 1;
    for i := 0 to GF_SIZE - 1
      invariant |exp| == 2 * GF_SIZE && |log| == GF_SIZE
      invariant value == Generator(i)
      invariant forall j :: 0 <= j < i ==> exp[j] == Generator(j)
      invariant forall j :: 0 <= j < i ==> log[Generator(j)] == j
    {
      forall j | 0 <= j < i
        ensures Generator(j) != Generator(i)
      {
        GeneratorInjective(j, i);
      }
      exp := exp[i := value];
      log := log[value := i];
      ghost var before: Elem := value;
      value := 2 * value;
      if value >= GF_SIZE {
        value := Xor(value, GF_PRIMITIVE);
      }
      DoubleIs(before);
      assert value == Double(before);
    }
    for i := GF_SIZE - 1 to 2 * GF_SIZE
      invariant |exp| == 2 * GF_SIZE
      invariant forall j :: 0 <= j < i ==> exp[j] == Generator(j)
    {
      exp := exp[i := exp[i - (GF_SIZE - 1)]];
      GeneratorPeriod(i - (GF_SIZE - 1));
    }
    t := Tables(exp, log);
    forall a: Elem | a != 0
      ensures log[a] < GF_SIZE - 1 && Generator(log[a]) == a
    {
      var i := PowersCover(a);
    }
  }

  lemma DoubleIs(a: Elem)
    ensures Double(a) == if 2 * a >= GF_SIZE then Xor(2 * a, GF_PRIMITIVE) else 2 * a
  {
    hide Xor;
  }

  /** The table product is the field product. */
  function GfMul(t: Tables, a: Elem, b: Elem): (r: Elem)
    requires t.Built()
    ensures r == Mul(a, b)
  {
    if a == 0 || b == 0 then
      MulUnits(a);
      MulUnits(b);
      0
    else
      GeneratorAdds(t.log[a], t.log[b]);
      t.exp[t.log[a] + t.log[b]]
  }

  /** The table inverse; inverting zero is the error case. */
  function GfInv(t: Tables, a: Elem): (r: Option<Elem>)
    requires t.Built()
    ensures r.None? <==> a == 0
    ensures r.Some? ==> Mul(a, r.value) == 1
  {
    if a == 0 then
      None
    else
      GeneratorAdds(t.log[a], GF_SIZE - 1 - t.log[a]);
      OrderOfGenerator();
      Some(t.exp[GF_SIZE - 1 - t.log[a]])
  }
}
