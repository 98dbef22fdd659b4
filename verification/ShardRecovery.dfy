/** Which sets of shards give the payload back. */
module ShardRecovery {
  import opened Wrappers
  import opened GaloisField
  import opened GeneratorPowers
  import opened LinearAlgebra
  import opened Polynomials
  import opened ReliableCodec

  /** Every shard that is present is the one that encoding produced. */
  ghost predicate Genuine(shardMap: map<int, Bytes>, payload: Bytes, p: Profile)
    requires p.Valid() && |payload| <= p.MaxPayloadBytes()
  {
    forall i: nat :: i < p.TotalShards() && i in shardMap ==> shardMap[i] == CodedShard(DataShards(payload, p), i, p)
  }

  // ---------- The solution is unique ----------

  lemma ZerosMinus(x: Vector, y: Vector)
    requires |x| == |y| && Combined(x, 1, y) == Zeros(|x|)
    ensures x == y
  {
    hide Mul, Add;
    forall j | 0 <= j < |x|
      ensures x[j] == y[j]
    {
      assert Combined(x, 1, y)[j] == Add(x[j], Mul(1, y[j]));
      MulUnits(y[j]);
      AddLaws(x[j], y[j], 0);
    }
  }

  /** Independent rows tell vectors apart. */
  lemma NonSingularInjective(m: Matrix, n: nat, x: Vector, y: Vector)
    requires Square(m, n) && !Singular(m, n) && |x| == n && |y| == n && Apply(m, x) == Apply(m, y)
    ensures x == y
  {
    hide Mul, Add, Combined;
    var d := Combined(x, 1, y);
    forall r | 0 <= r < n
      ensures Dot(m[r], d) == 0
    {
      assert Apply(m, x)[r] == Dot(m[r], x) && Apply(m, y)[r] == Dot(m[r], y);
      DotCommutes(m[r], d, n);
      DotCombined(x, 1, y, m[r], n);
      DotCommutes(x, m[r], n);
      DotCommutes(y, m[r], n);
      MulUnits(Dot(m[r], y));
      AddLaws(Dot(m[r], x), Dot(m[r], y), 0);
    }
    assert Apply(m, d) == Zeros(n);
    ZerosMinus(x, y);
  }

  lemma ExplanationUnique(d1: seq<Bytes>, d2: seq<Bytes>, shardMap: map<int, Bytes>, p: Profile)
    requires p.Valid() && IsData(d1, p) && IsData(d2, p) && Recoverable(shardMap.Keys, p)
    requires Explains(d1, shardMap, p) && Explains(d2, shardMap, p)
    ensures d1 == d2
  {
    var keys := shardMap.Keys;
    hide Available, Selected, SelectedRows, CodedRows, ShardRows, Apply, Singular;
    forall j | 0 <= j < p.shardSize
      ensures Column(d1, j) == Column(d2, j)
    {
      CodedColumn(d1, keys, p, j);
      CodedColumn(d2, keys, p, j);
      NonSingularInjective(SelectedRows(keys, p), p.dataShards, Column(d1, j), Column(d2, j));
    }
    SameColumns(d1, d2, p);
  }

  // ---------- Soundness ----------

  lemma GenuineExplains(payload: Bytes, shardMap: map<int, Bytes>, p: Profile)
    requires p.Valid() && |payload| <= p.MaxPayloadBytes() && Genuine(shardMap, payload, p)
    requires |Available(shardMap.Keys, p.TotalShards())| >= p.dataShards
    ensures Explains(DataShards(payload, p), shardMap, p)
    ensures Decodable(shardMap, p) <==> Recoverable(shardMap.Keys, p)
  {
    hide Available, Selected, SelectedRows, Singular, CodedShard, DataShards;
  }

  /** Decoding genuine shards yields the payload or nothing, and the payload exactly when the shards
      that are present are recoverable. */
  lemma DecodingIsSound(payload: Bytes, shardMap: map<int, Bytes>, p: Profile, r: Result<Option<Bytes>, CodecError>)
    requires p.Valid() && |payload| <= p.MaxPayloadBytes() && Genuine(shardMap, payload, p)
    requires DecodesTo(shardMap, p, |payload|, r)
    ensures r == Ok(if Recoverable(shardMap.Keys, p) then Some(payload) else None)
  {
    hide Available, Selected, SelectedRows, Singular, DataShards, Explains, Join, Padded, Genuine;
    if |Available(shardMap.Keys, p.TotalShards())| >= p.dataShards {
      GenuineExplains(payload, shardMap, p);
      if Recoverable(shardMap.Keys, p) {
        var data :| IsData(data, p) && Explains(data, shardMap, p) && r.value.value == Prefix(Join(data), |payload|);
        ExplanationUnique(data, DataShards(payload, p), shardMap, p);
        JoinDataShards(payload, p);
      }
    }
  }

  // ---------- Recoverability in terms of the lost data ----------

  /** The parity shards that decoding uses: as many as data shards are lost. */
  function ParityUsed(keys: set<int>, p: Profile): (s: seq<nat>)
    requires |Available(keys, p.TotalShards())| >= p.dataShards
    ensures |s| == |MissingShardIndexes(p.dataShards, keys)|
    ensures Ascending(s) && forall i :: 0 <= i < |s| ==> p.dataShards <= s[i] < p.TotalShards() && s[i] in keys
    ensures forall x: nat, i :: p.dataShards <= x < p.TotalShards() && x in keys && x !in s && 0 <= i < |s| ==> s[i] < x
  {
    SelectedSplits(keys, p);
    UnusedAreHigher(keys, p);
    var s := Selected(keys, p)[|Available(keys, p.dataShards)|..];
    assert forall x: nat :: p.dataShards <= x && x !in s ==> x !in Selected(keys, p) by {
      forall x: nat | p.dataShards <= x && x in Selected(keys, p)
        ensures x in s
      {
        ParityIsBehind(keys, p, x);
      }
    }
    s
  }

  /** Shards that are present but not used have higher indices than those that are. */
  lemma UnusedAreHigher(keys: set<int>, p: Profile)
    requires |Available(keys, p.TotalShards())| >= p.dataShards
    ensures forall x: nat, i :: x < p.TotalShards() && x in keys && x !in Selected(keys, p) && 0 <= i < p.dataShards ==>
              Selected(keys, p)[i] < x
  {
    var all, sel := Available(keys, p.TotalShards()), Selected(keys, p);
    AvailableIs(keys, p.TotalShards());
    hide Available;
    forall x: nat, i | x < p.TotalShards() && x in keys && x !in sel && 0 <= i < p.dataShards
      ensures sel[i] < x
    {
      assert all == sel + all[p.dataShards..];
      var j :| 0 <= j < |all[p.dataShards..]| && all[p.dataShards..][j] == x;
      assert all[p.dataShards + j] == x && sel[i] == all[i];
    }
  }

  /** The parity shards among the selected ones are those behind the data shards. */
  lemma ParityIsBehind(keys: set<int>, p: Profile, x: nat)
    requires |Available(keys, p.TotalShards())| >= p.dataShards
    requires p.dataShards <= x && x in Selected(keys, p)
    ensures |Available(keys, p.dataShards)| <= p.dataShards
    ensures x in Selected(keys, p)[|Available(keys, p.dataShards)|..]
  {
    var a, sel := Available(keys, p.dataShards), Selected(keys, p);
    SelectedSplits(keys, p);
    AvailableIs(keys, p.dataShards);
    hide Available, Selected;
    assert sel == a + sel[|a|..];
  }

  lemma {:induction false} AvailablePrefix(keys: set<int>, k: nat, n: nat)
    requires k <= n
    ensures |Available(keys, k)| <= |Available(keys, n)|
    ensures Available(keys, n)[..|Available(keys, k)|] == Available(keys, k)
    ensures forall i :: |Available(keys, k)| <= i < |Available(keys, n)| ==> Available(keys, n)[i] >= k
    decreases n - k
  {
    if k < n {
      AvailablePrefix(keys, k, n - 1);
    }
  }

  lemma SelectedSplits(keys: set<int>, p: Profile)
    requires |Available(keys, p.TotalShards())| >= p.dataShards
    ensures Ascending(Selected(keys, p))
    ensures |Available(keys, p.dataShards)| + |MissingShardIndexes(p.dataShards, keys)| == p.dataShards
    ensures Selected(keys, p)[..|Available(keys, p.dataShards)|] == Available(keys, p.dataShards)
    ensures forall i :: |Available(keys, p.dataShards)| <= i < p.dataShards ==> Selected(keys, p)[i] >= p.dataShards
  {
    AvailablePrefix(keys, p.dataShards, p.TotalShards());
    AvailableIs(keys, p.TotalShards());
    MissingIs(p.dataShards, keys);
    hide Available;
  }

  /** A change of the lost data that no used parity shard notices. */
  ghost predicate Unnoticed(w: Vector, keys: set<int>, p: Profile)
    requires p.Valid() && |Available(keys, p.TotalShards())| >= p.dataShards
  {
    && |w| == p.dataShards
    && (forall c: nat :: c < p.dataShards && c in keys ==> w[c] == 0)
    && (forall i :: 0 <= i < |ParityUsed(keys, p)| ==>
          Dot(PowerRow(Base(ParityUsed(keys, p)[i], p), p.dataShards), w) == 0)
  }

  lemma KernelIsUnnoticed(w: Vector, keys: set<int>, p: Profile)
    requires p.Valid() && |Available(keys, p.TotalShards())| >= p.dataShards && |w| == p.dataShards
    ensures Apply(SelectedRows(keys, p), w) == Zeros(p.dataShards) <==> Unnoticed(w, keys, p)
  {
    var k, sel, m := p.dataShards, Selected(keys, p), SelectedRows(keys, p);
    var data := Available(keys, k);
    SelectedSplits(keys, p);
    AvailableIs(keys, k);
    hide Mul, Add, DotTo, Available, Selected, MissingShardIndexes;
    forall i | 0 <= i < |data|
      ensures Dot(m[i], w) == w[data[i]]
    {
      assert m[i] == Unit(k, sel[..|data|][i]);
      DotUnit(m[i], w, data[i], k);
    }
    assert forall i :: |data| <= i < k ==> m[i] == PowerRow(Base(ParityUsed(keys, p)[i - |data|], p), k);
    if Apply(m, w) == Zeros(k) {
      forall i | 0 <= i < k
        ensures Dot(m[i], w) == 0
      {
        assert Apply(m, w)[i] == Zeros(k)[i];
      }
      forall c: nat | c < k && c in keys
        ensures w[c] == 0
      {
        assert c in data;
      }
      forall i | 0 <= i < |ParityUsed(keys, p)|
        ensures Dot(PowerRow(Base(ParityUsed(keys, p)[i], p), k), w) == 0
      {
        assert m[|data| + i] == PowerRow(Base(ParityUsed(keys, p)[i], p), k);
      }
    }
    if Unnoticed(w, keys, p) {
      forall i | 0 <= i < k
        ensures Dot(m[i], w) == 0
      {
        if i < |data| {
          assert data[i] in data;
        }
      }
    }
  }

  /** Shards are recoverable exactly when enough are present and the used parity shards notice every
      change of the lost data. */
  lemma RecoverableExactly(keys: set<int>, p: Profile)
    requires p.Valid() && |Available(keys, p.TotalShards())| >= p.dataShards
    ensures Recoverable(keys, p) <==> forall w | Unnoticed(w, keys, p) :: w == Zeros(p.dataShards)
  {
    var k := p.dataShards;
    forall w: Vector | |w| == k
      ensures Apply(SelectedRows(keys, p), w) == Zeros(k) <==> Unnoticed(w, keys, p)
    {
      KernelIsUnnoticed(w, keys, p);
    }
    hide Apply, SelectedRows, Available, ParityUsed, PowerRow;
  }

  // ---------- The minor that decides ----------

  function Bases(parity: seq<nat>, p: Profile): (b: seq<Elem>)
    requires p.Valid() && forall i :: 0 <= i < |parity| ==> p.dataShards <= parity[i] < p.TotalShards()
    ensures |b| == |parity| && forall i :: 0 <= i < |b| ==> b[i] == Base(parity[i], p) != 0
  {
    seq(|parity|, i requires 0 <= i < |parity| => Base(parity[i], p))
  }

  /** The lost entries of a vector. */
  function LostEntries(w: Vector, lost: seq<nat>): (q: Vector)
    requires forall i :: 0 <= i < |lost| ==> lost[i] < |w|
    ensures |q| == |lost| && forall i :: 0 <= i < |q| ==> q[i] == w[lost[i]]
  {
    seq(|lost|, i requires 0 <= i < |lost| => w[lost[i]])
  }

  lemma LostIsMissing(keys: set<int>, p: Profile, lost: seq<nat>)
    requires MissingShardIndexes(p.dataShards, keys) == lost
    ensures forall i :: 0 <= i < |lost| ==> lost[i] < p.dataShards && lost[i] !in keys
    ensures forall c: nat :: c < p.dataShards && c !in keys ==> c in lost
  {
    forall i | 0 <= i < |lost|
      ensures lost[i] in lost
    {
    }
  }

  lemma UnnoticedByBases(w: Vector, keys: set<int>, p: Profile)
    requires p.Valid() && |Available(keys, p.TotalShards())| >= p.dataShards && |w| == p.dataShards
    requires forall c: nat :: c < p.dataShards && c in keys ==> w[c] == 0
    ensures var bases := Bases(ParityUsed(keys, p), p);
      Unnoticed(w, keys, p) <==> forall i :: 0 <= i < |bases| ==> Dot(PowerRow(bases[i], |w|), w) == 0
  {
    hide Dot, PowerRow, Available, ParityUsed;
    var bases := Bases(ParityUsed(keys, p), p);
    assert forall i :: 0 <= i < |bases| ==> bases[i] == Base(ParityUsed(keys, p)[i], p);
  }

  lemma ZeroEntries(w: Vector, lost: seq<nat>, q: Vector)
    requires |q| == |lost| && forall i :: 0 <= i < |lost| ==> lost[i] < |w| && q[i] == w[lost[i]]
    requires forall c: nat :: c < |w| && c !in lost ==> w[c] == 0
    ensures w == Zeros(|w|) <==> q == Zeros(|lost|)
  {
    if q == Zeros(|lost|) {
      forall c: nat | c < |w|
        ensures w[c] == 0
      {
        if c in lost {
          var i :| 0 <= i < |lost| && lost[i] == c;
          assert q[i] == Zeros(|lost|)[i];
        }
      }
    }
  }

  /** The vector with the entries of q at the lost places and zero elsewhere. */
  function Placed(q: Vector, lost: seq<nat>, n: nat): (w: Vector)
    requires |q| == |lost| && forall i :: 0 <= i < |lost| ==> lost[i] < n
    ensures |w| == n
  {
    if lost == [] then Zeros(n)
    else Placed(q[..|q| - 1], lost[..|lost| - 1], n)[lost[|lost| - 1] := q[|q| - 1]]
  }

  lemma {:induction false} PlacedIs(q: Vector, lost: seq<nat>, n: nat)
    requires |q| == |lost| && Ascending(lost) && forall i :: 0 <= i < |lost| ==> lost[i] < n
    ensures LostEntries(Placed(q, lost, n), lost) == q
    ensures forall c: nat :: c < n && c !in lost ==> Placed(q, lost, n)[c] == 0
  {
    if lost != [] {
      var m := |lost| - 1;
      var before, w := Placed(q[..m], lost[..m], n), Placed(q, lost, n);
      PlacedIs(q[..m], lost[..m], n);
      forall i | 0 <= i < |lost|
        ensures w[lost[i]] == q[i]
      {
        assert i < m ==> LostEntries(before, lost[..m])[i] == before[lost[i]];
      }
      forall c: nat | c < n && c !in lost
        ensures w[c] == 0
      {
        assert lost == lost[..m] + [lost[m]];
      }
    }
  }

  /** Rows for the used parity shards, columns for the lost data shards. */
  function Minor(keys: set<int>, p: Profile): (m: Matrix)
    requires p.Valid() && |Available(keys, p.TotalShards())| >= p.dataShards
    ensures Square(m, |ParityUsed(keys, p)|)
    ensures var lost := MissingShardIndexes(p.dataShards, keys);
      forall i, j :: 0 <= i < |m| && 0 <= j < |m| ==> m[i][j] == PowerOf(Base(ParityUsed(keys, p)[i], p), lost[j])
  {
    var lost, bases := MissingShardIndexes(p.dataShards, keys), Bases(ParityUsed(keys, p), p);
    LostIsMissing(keys, p, lost);
    seq(|bases|, i requires 0 <= i < |bases| => LostEntries(PowerRow(bases[i], p.dataShards), lost))
  }

  /** A dot product with a vector that vanishes off the lost places needs those places only. */
  lemma {:induction false} DotSparse(u: Vector, w: Vector, lost: seq<nat>, k: nat, m: nat)
    requires |u| == |w| && k <= |w| && m <= |lost| && Ascending(lost)
    requires forall i :: 0 <= i < |lost| ==> lost[i] < |w| && (lost[i] < k <==> i < m)
    requires forall c: nat :: c < |w| && c !in lost ==> w[c] == 0
    ensures DotTo(u, w, k) == DotTo(LostEntries(u, lost), LostEntries(w, lost), m)
  {
    hide Add, Mul, LostEntries;
    if k == 0 {
      assert m == 0;
    } else if m > 0 && lost[m - 1] == k - 1 {
      DotSparse(u, w, lost, k - 1, m - 1);
    } else {
      assert k - 1 !in lost;
      DotSparse(u, w, lost, k - 1, m);
      MulUnits(u[k - 1]);
      AddLaws(DotTo(u, w, k - 1), 0, 0);
    }
  }

  lemma MinorSees(w: Vector, keys: set<int>, p: Profile)
    requires p.Valid() && |Available(keys, p.TotalShards())| >= p.dataShards && |w| == p.dataShards
    requires forall c: nat :: c < p.dataShards && c in keys ==> w[c] == 0
    ensures var lost := MissingShardIndexes(p.dataShards, keys);
      && (forall i :: 0 <= i < |lost| ==> lost[i] < |w|)
      && var q := LostEntries(w, lost);
      && (Unnoticed(w, keys, p) <==> Apply(Minor(keys, p), q) == Zeros(|lost|))
      && (w == Zeros(p.dataShards) <==> q == Zeros(|lost|))
  {
    hide DotTo, PowerOf, PowerRow, Available, ParityUsed, MissingShardIndexes, Unnoticed, LostEntries;
    var lost := MissingShardIndexes(p.dataShards, keys);
    LostIsMissing(keys, p, lost);
    var q, bases, minor := LostEntries(w, lost), Bases(ParityUsed(keys, p), p), Minor(keys, p);
    ZeroEntries(w, lost, q);
    UnnoticedByBases(w, keys, p);
    forall i | 0 <= i < |bases|
      ensures Dot(PowerRow(bases[i], |w|), w) == Dot(minor[i], q)
    {
      DotSparse(PowerRow(bases[i], |w|), w, lost, |w|, |lost|);
    }
    AppliedIsZero(minor, q, |lost|);
  }

  lemma AppliedIsZero(m: Matrix, q: Vector, n: nat)
    requires Square(m, n) && |q| == n
    ensures Apply(m, q) == Zeros(n) <==> forall i :: 0 <= i < n ==> Dot(m[i], q) == 0
  {
    hide DotTo;
    if Apply(m, q) == Zeros(n) {
      forall i | 0 <= i < n
        ensures Dot(m[i], q) == 0
      {
        assert Apply(m, q)[i] == Zeros(n)[i];
      }
    }
  }

  /** Shards are recoverable exactly when enough are present and the minor of the used parity shards and the lost data
      shards has independent rows. */
  lemma MinorDecides(keys: set<int>, p: Profile)
    requires p.Valid() && |Available(keys, p.TotalShards())| >= p.dataShards
    ensures Recoverable(keys, p) <==> !Singular(Minor(keys, p), |ParityUsed(keys, p)|)
  {
    hide DotTo, Apply, PowerOf, Recoverable, Available, ParityUsed, MissingShardIndexes, Unnoticed, Minor, LostEntries,
         Placed;
    RecoverableExactly(keys, p);
    var lost, minor := MissingShardIndexes(p.dataShards, keys), Minor(keys, p);
    LostIsMissing(keys, p, lost);
    if !Recoverable(keys, p) {
      var w :| Unnoticed(w, keys, p) && w != Zeros(p.dataShards);
      UnnoticedVanishes(w, keys, p);
      MinorSees(w, keys, p);
      assert Singular(minor, |lost|);
    }
    if Singular(minor, |lost|) {
      var q: Vector :| |q| == |lost| && q != Zeros(|lost|) && Apply(minor, q) == Zeros(|lost|);
      var w := Placed(q, lost, p.dataShards);
      PlacedIs(q, lost, p.dataShards);
      MinorSees(w, keys, p);
    }
  }

  // ---------- Losses at equal distances ----------

  /** s, s + d, s + 2d, ... */
  function Progression(s: nat, d: nat, r: nat): (x: seq<nat>)
    ensures |x| == r && forall i :: 0 <= i < r ==> x[i] == s + Times(i, d)
  {
    seq(r, i requires 0 <= i => s + Times(i, d))
  }

  function PowersAt(bases: seq<Elem>, d: nat): (x: seq<Elem>)
    ensures |x| == |bases| && forall i :: 0 <= i < |x| ==> x[i] == PowerOf(bases[i], d)
  {
    seq(|bases|, i requires 0 <= i < |bases| => PowerOf(bases[i], d))
  }

  /** On losses at equal distances, a change of the lost data is a polynomial, and parity shards see its values at the
      powers of their bases. */
  lemma UnnoticedIsRoots(w: Vector, keys: set<int>, p: Profile, s: nat, d: nat, r: nat)
    requires p.Valid() && |Available(keys, p.TotalShards())| >= p.dataShards && |w| == p.dataShards
    requires r > 0 && d > 0 && MissingShardIndexes(p.dataShards, keys) == Progression(s, d, r)
    requires forall c: nat :: c < p.dataShards && c in keys ==> w[c] == 0
    ensures forall i :: 0 <= i < r ==> Progression(s, d, r)[i] < |w|
    ensures var q := LostEntries(w, Progression(s, d, r));
      var xs := PowersAt(Bases(ParityUsed(keys, p), p), d);
      && (Unnoticed(w, keys, p) <==> forall i :: 0 <= i < r ==> Eval(q, xs[i]) == 0)
      && (w == Zeros(p.dataShards) <==> q == Zeros(r))
  {
    hide Times, Dot, Eval, PowerOf, PowerRow, Available, ParityUsed, MissingShardIndexes, Spread, Unnoticed,
         Progression;
    var lost := Progression(s, d, r);
    LostIsMissing(keys, p, lost);
    var q, bases := LostEntries(w, lost), Bases(ParityUsed(keys, p), p);
    ProgressionIsSpread(w, s, d, r, q);
    hide LostEntries;
    ZeroEntries(w, lost, q);
    UnnoticedByBases(w, keys, p);
    forall i | 0 <= i < r
      ensures Dot(PowerRow(bases[i], |w|), w) == 0 <==> Eval(q, PowersAt(bases, d)[i]) == 0
    {
      DotOnProgression(bases[i], w, s, d, q);
    }
  }

  lemma ProgressionIsSpread(w: Vector, s: nat, d: nat, r: nat, q: Vector)
    requires r > 0 && d > 0 && |q| == r
    requires forall i :: 0 <= i < r ==> Progression(s, d, r)[i] < |w| && q[i] == w[Progression(s, d, r)[i]]
    requires forall c: nat :: c < |w| && c !in Progression(s, d, r) ==> w[c] == 0
    ensures s <= |w| && (forall c :: 0 <= c < s ==> w[c] == 0) && Spread(w[s..], d, q)
  {
    hide Times;
    var lost := Progression(s, d, r);
    TimesStep(0, d);
    assert lost[0] == s;
    forall i | 0 <= i < r
      ensures Times(i, d) < |w[s..]| && w[s..][Times(i, d)] == q[i]
    {
      assert lost[i] == s + Times(i, d);
    }
    forall c | 0 <= c < |w[s..]| && (forall i :: 0 <= i < |q| ==> c != Times(i, d))
      ensures w[s..][c] == 0
    {
      assert forall i :: 0 <= i < r ==> lost[i] != s + c;
      assert s + c !in lost;
    }
  }

  /** When the lost data shards stand at equal distances d, recovery succeeds exactly when the used parity bases have
      pairwise different d-th powers. */
  lemma ProgressionRecovers(keys: set<int>, p: Profile, s: nat, d: nat, r: nat)
    requires p.Valid() && |Available(keys, p.TotalShards())| >= p.dataShards
    requires d > 0 && MissingShardIndexes(p.dataShards, keys) == Progression(s, d, r)
    ensures Recoverable(keys, p) <==> Distinct(PowersAt(Bases(ParityUsed(keys, p), p), d))
  {
    hide Dot, Recoverable, Available, ParityUsed, MissingShardIndexes, Unnoticed, Eval, PowerOf;
    RecoverableExactly(keys, p);
    var xs := PowersAt(Bases(ParityUsed(keys, p), p), d);
    if r == 0 {
      NothingLost(keys, p);
    } else if Distinct(xs) {
      forall w | Unnoticed(w, keys, p)
        ensures w == Zeros(p.dataShards)
      {
        UnnoticedVanishes(w, keys, p);
        UnnoticedIsRoots(w, keys, p, s, d, r);
        TooManyRoots(LostEntries(w, Progression(s, d, r)), xs);
      }
    } else {
      SomeUnnoticed(keys, p, s, d, r);
    }
  }

  lemma UnnoticedVanishes(w: Vector, keys: set<int>, p: Profile)
    requires p.Valid() && |Available(keys, p.TotalShards())| >= p.dataShards && Unnoticed(w, keys, p)
    ensures |w| == p.dataShards && forall c: nat :: c < p.dataShards && c in keys ==> w[c] == 0
  {
    hide Dot, Available, ParityUsed;
  }

  lemma NothingLost(keys: set<int>, p: Profile)
    requires p.Valid() && |Available(keys, p.TotalShards())| >= p.dataShards
    requires MissingShardIndexes(p.dataShards, keys) == []
    ensures forall w | Unnoticed(w, keys, p) :: w == Zeros(p.dataShards)
  {
    LostIsMissing(keys, p, []);
    hide Dot, Available, ParityUsed, MissingShardIndexes;
  }

  /** Two equal powers leave room for a polynomial that is zero at all of them, and so for a change nobody notices. */
  lemma SomeUnnoticed(keys: set<int>, p: Profile, s: nat, d: nat, r: nat)
    requires p.Valid() && |Available(keys, p.TotalShards())| >= p.dataShards
    requires r > 0 && d > 0 && MissingShardIndexes(p.dataShards, keys) == Progression(s, d, r)
    requires !Distinct(PowersAt(Bases(ParityUsed(keys, p), p), d))
    ensures exists w :: Unnoticed(w, keys, p) && w != Zeros(p.dataShards)
  {
    hide Dot, Available, ParityUsed, Unnoticed, Eval, PowerOf;
    var lost := Progression(s, d, r);
    LostIsMissing(keys, p, lost);
    hide MissingShardIndexes;
    var xs := PowersAt(Bases(ParityUsed(keys, p), p), d);
    var q := RepeatedRoots(xs);
    var w := Placed(q, lost, p.dataShards);
    ProgressionAscends(s, d, r);
    PlacedIs(q, lost, p.dataShards);
    hide Progression, PowersAt, Bases, Placed, LostEntries;
    UnnoticedIsRoots(w, keys, p, s, d, r);
    assert q[r - 1] != Zeros(r)[r - 1];
  }

  /** A non-zero polynomial with as many coefficients as there are places, zero at all of them, if two are equal. */
  lemma RepeatedRoots(xs: seq<Elem>) returns (q: Vector)
    requires !Distinct(xs)
    ensures |q| == |xs| && q[|q| - 1] == 1 && forall i :: 0 <= i < |xs| ==> Eval(q, xs[i]) == 0
  {
    hide Eval;
    var a, b :| 0 <= a < b < |xs| && xs[a] == xs[b];
    var ys := xs[..b] + xs[b + 1..];
    q := RootPoly(ys);
    RootPolyHasRoots(ys);
    forall i | 0 <= i < |xs|
      ensures Eval(q, xs[i]) == 0
    {
      var j := if i < b then i else if i == b then a else i - 1;
      assert ys[j] == xs[i];
    }
  }

  lemma ProgressionAscends(s: nat, d: nat, r: nat)
    requires d > 0
    ensures Ascending(Progression(s, d, r))
  {
    hide Times;
    forall i, j | 0 <= i < j < r
      ensures Times(i, d) < Times(j, d)
    {
      TimesGrows(i, j, d);
    }
  }

  /** Burst recovery: when the lost data shards form one contiguous run, any choice of enough parity
      shards suffices. */
  lemma BurstRecovers(keys: set<int>, p: Profile, s: nat, r: nat)
    requires p.Valid() && |Available(keys, p.TotalShards())| >= p.dataShards
    requires MissingShardIndexes(p.dataShards, keys) == Progression(s, 1, r)
    ensures Recoverable(keys, p)
  {
    hide Recoverable, Available, ParityUsed, MissingShardIndexes, PowerOf;
    ProgressionRecovers(keys, p, s, 1, r);
    var bases := Bases(ParityUsed(keys, p), p);
    forall i | 0 <= i < |bases|
      ensures PowersAt(bases, 1)[i] == bases[i]
    {
      FirstPower(bases[i]);
    }
  }

  /** With two data shards lost, recovery succeeds exactly when the two used parity bases have different
      powers at the distance of the lost shards. */
  lemma TwoLossesExactly(keys: set<int>, p: Profile, c1: nat, c2: nat, q1: nat, q2: nat)
    requires p.Valid() && |Available(keys, p.TotalShards())| >= p.dataShards
    requires c1 < c2 && MissingShardIndexes(p.dataShards, keys) == [c1, c2]
    requires p.dataShards <= q1 < q2 < p.TotalShards() && ParityUsed(keys, p) == [q1, q2]
    ensures Recoverable(keys, p) <==> PowerOf(Base(q1, p), c2 - c1) != PowerOf(Base(q2, p), c2 - c1)
  {
    hide Recoverable, Available, ParityUsed, MissingShardIndexes, PowerOf;
    assert [c1, c2] == Progression(c1, c2 - c1, 2);
    ProgressionRecovers(keys, p, c1, c2 - c1, 2);
    var bases := Bases([q1, q2], p);
    assert bases == [Base(q1, p), Base(q2, p)];
    var xs := PowersAt(bases, c2 - c1);
    assert xs[0] == PowerOf(Base(q1, p), c2 - c1) && xs[1] == PowerOf(Base(q2, p), c2 - c1);
  }

  // ---------- Any 25 shards do not suffice ----------

  /** Ascending numbers that are all among other ascending numbers are no more than those, and as many only if they are
      the same. */
  lemma {:induction false} AscendingWithin(a: seq<nat>, b: seq<nat>)
    requires Ascending(a) && Ascending(b) && forall i :: 0 <= i < |a| ==> a[i] in b
    ensures |a| <= |b| && (|a| == |b| ==> a == b)
    decreases |a|
  {
    if a != [] {
      var m := |a| - 1;
      assert a[m] in b;
      var j :| 0 <= j < |b| && b[j] == a[m];
      forall i | 0 <= i < m
        ensures a[..m][i] in b[..j]
      {
        var k :| 0 <= k < |b| && b[k] == a[i];
        assert b[..j][k] == a[i];
      }
      AscendingWithin(a[..m], b[..j]);
    }
  }

  /** All shards but the lost ones. */
  function AllBut(lost: set<int>, p: Profile): set<int> { set i: int | 0 <= i < p.TotalShards() && i !in lost }

  /** Exactly these data shards are lost, and these parity shards are the first that are present. */
  lemma LostKeys(lost: set<int>, p: Profile, cs: seq<nat>, qs: seq<nat>)
    requires p.Valid() && |lost| <= p.parityShards && |cs| == |qs| > 0 && Ascending(cs) && Ascending(qs)
    requires forall i: nat :: i < p.dataShards && i in lost ==> i in cs
    requires forall i :: 0 <= i < |cs| ==> cs[i] < p.dataShards && cs[i] in lost
    requires forall i :: 0 <= i < |qs| ==> p.dataShards <= qs[i] < p.TotalShards() && qs[i] !in lost
    requires forall x: nat :: p.dataShards <= x < qs[|qs| - 1] && x !in lost ==> x in qs
    ensures |Available(AllBut(lost, p), p.TotalShards())| >= p.dataShards
    ensures MissingShardIndexes(p.dataShards, AllBut(lost, p)) == cs
    ensures ParityUsed(AllBut(lost, p), p) == qs
  {
    hide Available;
    var keys := AllBut(lost, p);
    MissingIs(p.TotalShards(), keys);
    var missing := MissingBelow(p.TotalShards(), keys);
    forall i | 0 <= i < |missing|
      ensures missing[i] in lost
    {
      assert missing[i] in missing;
    }
    DistinctSize(missing, lost);
    var lostData := MissingShardIndexes(p.dataShards, keys);
    forall i | 0 <= i < |lostData|
      ensures lostData[i] in cs
    {
      assert lostData[i] in lostData;
    }
    AscendingWithin(lostData, cs);
    AscendingWithin(cs, lostData);
    FirstUsed(ParityUsed(keys, p), keys, p, qs);
  }

  lemma FirstUsed(s: seq<nat>, keys: set<int>, p: Profile, qs: seq<nat>)
    requires |s| == |qs| > 0 && Ascending(s) && Ascending(qs)
    requires forall i :: 0 <= i < |s| ==> p.dataShards <= s[i] < p.TotalShards() && s[i] in keys
    requires forall i :: 0 <= i < |qs| ==> p.dataShards <= qs[i] < p.TotalShards() && qs[i] in keys
    requires forall x: nat, i :: p.dataShards <= x < p.TotalShards() && x in keys && x !in s && 0 <= i < |s| ==>
               s[i] < x
    requires forall x: nat :: p.dataShards <= x < qs[|qs| - 1] && x in keys ==> x in qs
    ensures s == qs
  {
    forall i | 0 <= i < |qs|
      ensures qs[i] in s
    {
      if qs[i] !in s {
        forall j | 0 <= j < |s|
          ensures s[j] in qs[..i]
        {
          assert s[j] in qs;
        }
        AscendingWithin(s, qs[..i]);
      }
    }
    AscendingWithin(qs, s);
  }

  /** The default profile: without data shards 0 and 17 and with parity shards 31 and 32, 25 genuine shards
      are present and nothing is recovered. */
  lemma DefaultProfileNotMds()
    ensures var keys := AllBut({0, 17, 25, 26, 27, 28, 29, 30}, PROFILE_25_8);
      |Available(keys, 33)| >= 25 && !Recoverable(keys, PROFILE_25_8)
  {
    var lost: set<int> := {0, 17, 25, 26, 27, 28, 29, 30};
    hide Mul, Generator, Recoverable, PowerOf, Available, ParityUsed;
    LostKeys(lost, PROFILE_25_8, [0, 17], [31, 32]);
    SeventeenthPowers();
    TwoLossesExactly(AllBut(lost, PROFILE_25_8), PROFILE_25_8, 0, 17, 31, 32);
  }

  /** The larger profile: without data shards 0 and 5 and with parity shards 25 and 34. */
  lemma LargeProfileNotMds()
    ensures var keys := AllBut({0, 5, 26, 27, 28, 29, 30, 31, 32, 33}, PROFILE_25_10);
      |Available(keys, 35)| >= 25 && !Recoverable(keys, PROFILE_25_10)
  {
    var lost: set<int> := {0, 5, 26, 27, 28, 29, 30, 31, 32, 33};
    hide Mul, Generator, Recoverable, PowerOf, Available, ParityUsed;
    LostKeys(lost, PROFILE_25_10, [0, 5], [25, 34]);
    SomeLogarithms();
    PowerOfGenerator(0, 5);
    PowerOfGenerator(51, 5);
    GeneratorPeriods(0, 1);
    TwoLossesExactly(AllBut(lost, PROFILE_25_10), PROFILE_25_10, 0, 5, 25, 34);
  }

  lemma SeventeenthPowers()
    ensures PowerOf(7, 17) == PowerOf(8, 17)
    ensures PowerOf(1, 17) != PowerOf(7, 17) && PowerOf(7, 17) != PowerOf(9, 17)
  {
    hide Mul, Generator, PowerOf;
    SomeLogarithms();
    PowerOfGenerator(198, 17);
    PowerOfGenerator(3, 17);
    PowerOfGenerator(223, 17);
    PowerOfGenerator(0, 17);
    GeneratorPeriods(51, 13);
    GeneratorPeriods(221, 14);
    GeneratorInjective(0, 51);
    GeneratorInjective(51, 221);
  }

  // ---------- One more shard ----------

  /** One more parity shard can help: with shard 25 the lost data of the default profile come back. */
  lemma FurtherShardHelps()
    ensures !Recoverable(AllBut({0, 17, 25, 26, 27, 28, 29, 30}, PROFILE_25_8), PROFILE_25_8)
    ensures Recoverable(AllBut({0, 17, 26, 27, 28, 29, 30}, PROFILE_25_8), PROFILE_25_8)
  {
    var lost: set<int> := {0, 17, 26, 27, 28, 29, 30};
    hide Mul, Recoverable, PowerOf, Available, ParityUsed;
    DefaultProfileNotMds();
    LostKeys(lost, PROFILE_25_8, [0, 17], [25, 31]);
    SeventeenthPowers();
    TwoLossesExactly(AllBut(lost, PROFILE_25_8), PROFILE_25_8, 0, 17, 25, 31);
  }

  /** One more parity shard can hurt: in the larger profile, without data shards 0 and 17, parity shards 31 and 33
      suffice, and 31, 32 and 33 do not, because decoding uses those of lowest index. */
  lemma FurtherShardHurts()
    ensures Recoverable(AllBut({0, 17, 25, 26, 27, 28, 29, 30, 32, 34}, PROFILE_25_10), PROFILE_25_10)
    ensures !Recoverable(AllBut({0, 17, 25, 26, 27, 28, 29, 30, 34}, PROFILE_25_10), PROFILE_25_10)
  {
    var lost: set<int> := {0, 17, 25, 26, 27, 28, 29, 30, 32, 34};
    var less: set<int> := {0, 17, 25, 26, 27, 28, 29, 30, 34};
    hide Mul, Recoverable, PowerOf, Available, ParityUsed;
    SeventeenthPowers();
    LostKeys(lost, PROFILE_25_10, [0, 17], [31, 33]);
    TwoLossesExactly(AllBut(lost, PROFILE_25_10), PROFILE_25_10, 0, 17, 31, 33);
    LostKeys(less, PROFILE_25_10, [0, 17], [31, 32]);
    TwoLossesExactly(AllBut(less, PROFILE_25_10), PROFILE_25_10, 0, 17, 31, 32);
  }

  /** One more data shard can hurt as well: without data shards 0, 1 and 15, parity shards 28, 33 and 34 suffice; with
      data shard 1 the third of them is left out, and the other two do not tell shards 0 and 15 apart. */
  lemma DataShardHurts()
    ensures Recoverable(AllBut({0, 1, 15, 25, 26, 27, 29, 30, 31, 32}, PROFILE_25_10), PROFILE_25_10)
    ensures !Recoverable(AllBut({0, 15, 25, 26, 27, 29, 30, 31, 32}, PROFILE_25_10), PROFILE_25_10)
  {
    var less: set<int> := {0, 15, 25, 26, 27, 29, 30, 31, 32};
    hide Mul, Recoverable, PowerOf, Available, ParityUsed;
    ThreeLostRecover();
    FifteenthPowers();
    LostKeys(less, PROFILE_25_10, [0, 15], [28, 33]);
    TwoLossesExactly(AllBut(less, PROFILE_25_10), PROFILE_25_10, 0, 15, 28, 33);
  }

  lemma ThreeLostRecover()
    ensures Recoverable(AllBut({0, 1, 15, 25, 26, 27, 29, 30, 31, 32}, PROFILE_25_10), PROFILE_25_10)
  {
    var keys := AllBut({0, 1, 15, 25, 26, 27, 29, 30, 31, 32}, PROFILE_25_10);
    hide Mul, Recoverable, PowerOf, Available, ParityUsed, Minor, Singular, AllBut, MissingShardIndexes;
    ThreeLost();
    MinorDecides(keys, PROFILE_25_10);
    ThreeIndependent(Minor(keys, PROFILE_25_10), ParityUsed(keys, PROFILE_25_10), MissingShardIndexes(25, keys));
  }

  lemma ThreeLost()
    ensures var keys := AllBut({0, 1, 15, 25, 26, 27, 29, 30, 31, 32}, PROFILE_25_10);
      && |Available(keys, 35)| >= 25 && MissingShardIndexes(25, keys) == [0, 1, 15]
      && ParityUsed(keys, PROFILE_25_10) == [28, 33, 34]
  {
    hide Available, ParityUsed, AllBut, MissingShardIndexes;
    LostKeys({0, 1, 15, 25, 26, 27, 29, 30, 31, 32}, PROFILE_25_10, [0, 1, 15], [28, 33, 34]);
  }

  lemma FifteenthPowers()
    ensures PowerOf(4, 15) == PowerOf(9, 15) != 1 && PowerOf(10, 15) == 1
  {
    hide Mul, Generator, PowerOf;
    SomeLogarithms();
    PowerOfGenerator(2, 15);
    PowerOfGenerator(223, 15);
    PowerOfGenerator(51, 15);
    GeneratorPeriods(30, 13);
    GeneratorPeriods(0, 3);
    GeneratorInjective(0, 30);
  }

  /** The rows 1, b, b^15 for the bases 4, 9 and 10 are independent. */
  lemma ThreeIndependent(m: Matrix, qs: seq<nat>, cs: seq<nat>)
    requires Square(m, 3) && qs == [28, 33, 34] && cs == [0, 1, 15]
    requires forall i, j :: 0 <= i < 3 && 0 <= j < 3 ==> m[i][j] == PowerOf(Base(qs[i], PROFILE_25_10), cs[j])
    ensures !Singular(m, 3)
  {
    hide Mul, Add, DotTo, Apply;
    FifteenthPowers();
    forall i | 0 <= i < 3
      ensures var b := Base(qs[i], PROFILE_25_10); m[i] == [1, b, PowerOf(b, 15)]
    {
      var b := Base(qs[i], PROFILE_25_10);
      MulUnits(b);
      assert PowerOf(b, 0) == 1 && PowerOf(b, 1) == b;
      assert m[i][0] == PowerOf(b, cs[0]) && m[i][1] == PowerOf(b, cs[1]) && m[i][2] == PowerOf(b, cs[2]);
    }
    hide PowerOf;
    assert m[0] == [1, 4, PowerOf(4, 15)] && m[1] == [1, 9, PowerOf(4, 15)] && m[2] == [1, 10, 1];
    forall q: Vector | |q| == 3 && Apply(m, q) == Zeros(3)
      ensures q == Zeros(3)
    {
      AppliedIsZero(m, q, 3);
      ThreeUnknowns(4, 9, 10, PowerOf(4, 15), q);
    }
  }

  /** x + a y + t z = x + b y + t z = x + c y + z = 0 only for zeros, if a and b differ and t is not one. */
  lemma ThreeUnknowns(a: Elem, b: Elem, c: Elem, t: Elem, q: Vector)
    requires |q| == 3 && a != b && t != 1
    requires Dot([1, a, t], q) == 0 && Dot([1, b, t], q) == 0 && Dot([1, c, 1], q) == 0
    ensures q == Zeros(3)
  {
    DotOfThree(a, t, q);
    DotOfThree(b, t, q);
    DotOfThree(c, 1, q);
    hide Mul, Add, Dot;
    var x, y, z := q[0], q[1], q[2];
    AddLaws(Add(x, Mul(a, y)), Mul(t, z), 0);
    AddLaws(Add(x, Mul(b, y)), Mul(t, z), 0);
    AddCancels(x, Mul(a, y), Mul(b, y));
    OnlyZero(a, b, y);
    MulUnits(a);
    MulUnits(c);
    MulUnits(z);
    AddLaws(x, 0, 0);
    AddLaws(x, z, 0);
    OnlyZero(t, 1, z);
    MulUnits(t);
  }

  lemma DotOfThree(a: Elem, t: Elem, q: Vector)
    requires |q| == 3
    ensures Dot([1, a, t], q) == Add(Add(q[0], Mul(a, q[1])), Mul(t, q[2]))
  {
    hide Mul, Add;
    var u := [1, a, t];
    assert DotTo(u, q, 1) == q[0] by {
      assert DotTo(u, q, 0) == 0;
      MulUnits(q[0]);
      AddLaws(q[0], 0, 0);
    }
    assert DotTo(u, q, 2) == Add(q[0], Mul(a, q[1]));
  }

  lemma AddCancels(x: Elem, u: Elem, v: Elem)
    requires Add(x, u) == Add(x, v)
    ensures u == v
  {
    hide Add;
    AddLaws(x, x, u);
    AddLaws(x, x, v);
    AddLaws(u, 0, 0);
    AddLaws(v, 0, 0);
  }

  lemma OnlyZero(a: Elem, b: Elem, y: Elem)
    requires a != b && Mul(a, y) == Mul(b, y)
    ensures y == 0
  {
    hide Mul, Add;
    MulLeftAdds(a, b, y);
    AddLaws(a, b, 0);
    AddLaws(Mul(a, y), Mul(b, y), 0);
    NoZeroDivisors(Add(a, b), y);
  }

  /** A further shard makes no difference when its index is above those decoding uses already. */
  lemma HigherShardIsIgnored(keys: set<int>, p: Profile, x: nat)
    requires p.Valid() && |Available(keys, p.TotalShards())| >= p.dataShards
    requires forall i :: 0 <= i < p.dataShards ==> Selected(keys, p)[i] < x
    ensures |Available(keys + {x}, p.TotalShards())| >= p.dataShards
    ensures Recoverable(keys + {x}, p) <==> Recoverable(keys, p)
  {
    var more, n, k := keys + {x}, p.TotalShards(), p.dataShards;
    if x < n {
      SameBelow(keys, more, x);
      AvailablePrefix(keys, x, n);
      AvailablePrefix(more, x, n);
      AvailableIs(keys, x);
      AvailableIs(keys, n);
      hide Available;
      assert forall i :: 0 <= i < k ==> Available(keys, n)[i] == Selected(keys, p)[i];
      if |Available(keys, x)| < |Available(keys, n)| {
        SmallOnesFirst(Available(keys, n), |Available(keys, x)|, k, x);
      }
      assert Available(more, n)[..k] == Available(more, n)[..|Available(more, x)|][..k];
      assert Available(keys, n)[..k] == Available(keys, n)[..|Available(keys, x)|][..k];
    } else {
      SameBelow(keys, more, n);
      hide Available;
    }
    hide Singular;
    assert Selected(more, p) == Selected(keys, p);
    assert SelectedRows(more, p) == SelectedRows(keys, p);
  }

  lemma {:induction false} SameBelow(a: set<int>, b: set<int>, n: nat)
    requires forall i: nat :: i < n ==> (i in a <==> i in b)
    ensures Available(a, n) == Available(b, n)
  {
    if n != 0 {
      SameBelow(a, b, n - 1);
    }
  }

  lemma SmallOnesFirst(all: seq<nat>, m: nat, k: nat, x: nat)
    requires k <= |all| && m < |all| && all[m] >= x && forall i :: 0 <= i < k ==> all[i] < x
    ensures k <= m
  {
  }
}
