/** The erasure codec: systematic encoding with Vandermonde parity rows, and decoding by inversion. */
module ReliableCodec {
  import opened Wrappers
  import opened GaloisField
  import opened GaloisTables
  import opened LinearAlgebra
  import opened GaussJordan
  import opened Polynomials

  type Bytes = seq<Elem>

  datatype CodecError = UnsupportedProfile | ShardIndexOutOfRange | PayloadTooLarge | InvalidOriginalSize

  datatype Profile = Profile(profileId: nat, dataShards: nat, parityShards: nat, shardSize: nat) {
    function TotalShards(): nat { dataShards + parityShards }

    function MaxPayloadBytes(): nat { dataShards * shardSize }

    /** Parity bases are bytes. */
    predicate Valid() { dataShards > 0 && parityShards < GF_SIZE }
  }

  const PROFILE_25_8 := Profile(0, 25, 8, 40)
  const PROFILE_25_10 := Profile(1, 25, 10, 40)

  function GetProfile(profileId: int): (r: Result<Profile, CodecError>)
    ensures r.Ok? <==> profileId == 0 || profileId == 1
    ensures r.Ok? ==> r.value.Valid() && r.value == Profile(profileId, 25, if profileId == 0 then 8 else 10, 40)
  {
    if profileId == 0 then Ok(PROFILE_25_8)
    else if profileId == 1 then Ok(PROFILE_25_10)
    else Err(UnsupportedProfile)
  }

  // ---------- The generator matrix ----------

  function Base(index: nat, p: Profile): Elem
    requires p.Valid() && p.dataShards <= index < p.TotalShards()
  {
    index - p.dataShards + 1
  }

  function GeneratorRow(index: nat, p: Profile): (row: Vector)
    requires p.Valid() && index < p.TotalShards()
    ensures |row| == p.dataShards
  {
    if index < p.dataShards then Unit(p.dataShards, index) else PowerRow(Base(index, p), p.dataShards)
  }

  method PowersOf(t: Tables, base: Elem, k: nat) returns (row: Vector)
    requires t.Built() && k > 0
    ensures row == PowerRow(base, k)
  {
    hide Mul;
    row := seq(k, _ => 1);
    for col := 1 to k
      invariant |row| == k
      invariant forall c :: 0 <= c < col ==> row[c] == PowerOf(base, c)
    {
      row := row[col := GfMul(t, row[col - 1], base)];
    }
  }

  method RowForIndex(t: Tables, index: int, p: Profile) returns (r: Result<Vector, CodecError>)
    requires t.Built() && p.Valid()
    ensures if 0 <= index < p.TotalShards() then r == Ok(GeneratorRow(index, p)) else r == Err(ShardIndexOutOfRange)
    ensures 0 <= index < p.dataShards ==>
              forall c :: 0 <= c < p.dataShards ==> r.value[c] == if c == index then 1 else 0
    ensures p.dataShards <= index < p.TotalShards() ==>
              forall c :: 0 <= c < p.dataShards ==> r.value[c] == PowerOf(index - p.dataShards + 1, c)
  {
    hide PowerOf;
    var k := p.dataShards;
    if index < 0 || index >= p.TotalShards() {
      return Err(ShardIndexOutOfRange);
    }
    if index < k {
      var row: Vector := seq(k, _ => 0);
      row := row[index := 1];
      assert row == Unit(k, index);
      return Ok(row);
    }
    var powers := PowersOf(t, index - k + 1, k);
    return Ok(powers);
  }

  // ---------- Encoding ----------

  /** The data as k rows of shardSize bytes each. */
  ghost predicate IsData(data: seq<Bytes>, p: Profile) {
    |data| == p.dataShards && forall c :: 0 <= c < |data| ==> |data[c]| == p.shardSize
  }

  function Padded(payload: Bytes, p: Profile): (r: Bytes)
    requires |payload| <= p.MaxPayloadBytes()
    ensures |r| == p.MaxPayloadBytes()
  {
    payload + seq(p.MaxPayloadBytes() - |payload|, _ => 0)
  }

  function Slice(s: Bytes, size: nat, c: nat): (r: Bytes)
    requires (c + 1) * size <= |s|
    ensures |r| == size
  {
    assert c * size + size == (c + 1) * size;
    s[c * size..c * size + size]
  }

  lemma SliceFits(c: nat, k: nat, size: nat)
    requires c < k
    ensures (c + 1) * size <= k * size
  {
  }

  function DataShards(payload: Bytes, p: Profile): (data: seq<Bytes>)
    requires |payload| <= p.MaxPayloadBytes()
    ensures IsData(data, p)
  {
    seq(p.dataShards, c requires 0 <= c < p.dataShards =>
      (SliceFits(c, p.dataShards, p.shardSize); Slice(Padded(payload, p), p.shardSize, c)))
  }

  /** Byte b of every row. */
  function Column(rows: seq<Bytes>, b: nat): (v: Vector)
    requires forall c :: 0 <= c < |rows| ==> b < |rows[c]|
    ensures |v| == |rows|
  {
    seq(|rows|, c requires 0 <= c < |rows| => rows[c][b])
  }

  /** The linear combination of the rows with the given coefficients. */
  function Mixed(coeffs: Vector, rows: seq<Bytes>, size: nat): (r: Bytes)
    requires |coeffs| == |rows| && forall c :: 0 <= c < |rows| ==> |rows[c]| == size
    ensures |r| == size
  {
    seq(size, b requires 0 <= b < size => Dot(coeffs, Column(rows, b)))
  }

  /** The shard with the given index. */
  function CodedShard(data: seq<Bytes>, index: nat, p: Profile): (r: Bytes)
    requires p.Valid() && IsData(data, p) && index < p.TotalShards()
    ensures |r| == p.shardSize
  {
    Mixed(GeneratorRow(index, p), data, p.shardSize)
  }

  /** The code is systematic: the first shards are the data. */
  lemma DataShardIsData(data: seq<Bytes>, index: nat, p: Profile)
    requires p.Valid() && IsData(data, p) && index < p.dataShards
    ensures CodedShard(data, index, p) == data[index]
  {
    hide Add, Mul;
    forall b | 0 <= b < p.shardSize
      ensures CodedShard(data, index, p)[b] == data[index][b]
    {
      DotUnit(Unit(p.dataShards, index), Column(data, b), index, p.dataShards);
    }
  }

  /** A payload counts as followed by zeros. */
  function ByteOrZero(payload: Bytes, i: nat): Elem { if i < |payload| then payload[i] else 0 }

  lemma DataByte(payload: Bytes, p: Profile, c: nat, b: nat)
    requires |payload| <= p.MaxPayloadBytes() && c < p.dataShards && b < p.shardSize
    ensures DataShards(payload, p)[c][b] == ByteOrZero(payload, c * p.shardSize + b)
  {
    SliceFits(c, p.dataShards, p.shardSize);
  }

  /** Byte b of the parity shard with index dataShards + q is the polynomial whose coefficients are the b-th bytes of
      the data shards, evaluated at q + 1. */
  lemma ParityEvaluates(data: seq<Bytes>, index: nat, p: Profile, b: nat)
    requires p.Valid() && IsData(data, p) && p.dataShards <= index < p.TotalShards() && b < p.shardSize
    ensures CodedShard(data, index, p)[b] == Eval(Column(data, b), index - p.dataShards + 1)
  {
    hide Add, Mul, Eval, PowerOf, DotTo;
    var w := Column(data, b);
    DotIsEval(index - p.dataShards + 1, w, |w|);
    assert w[..|w|] == w;
  }

  /** out += coeff * source, with the shortcuts for the coefficients zero and one. */
  method AddScaled(t: Tables, out: Bytes, coeff: Elem, source: Bytes) returns (r: Bytes)
    requires t.Built() && |out| == |source|
    ensures |r| == |out| && forall b :: 0 <= b < |out| ==> r[b] == Add(out[b], Mul(coeff, source[b]))
  {
    hide Add, Mul;
    r := out;
    if coeff == 0 {
      forall b | 0 <= b < |out|
        ensures Add(out[b], Mul(coeff, source[b])) == out[b]
      {
        MulUnits(source[b]);
        AddLaws(out[b], 0, 0);
      }
      return;
    }
    for b := 0 to |out|
      invariant |r| == |out|
      invariant forall i :: 0 <= i < b ==> r[i] == Add(out[i], Mul(coeff, source[i]))
      invariant forall i :: b <= i < |out| ==> r[i] == out[i]
    {
      if coeff == 1 {
        MulUnits(source[b]);
        r := r[b := Add(r[b], source[b])];
      } else {
        r := r[b := Add(r[b], GfMul(t, coeff, source[b]))];
      }
    }
  }

  method MixRows(t: Tables, coeffs: Vector, rows: seq<Bytes>, size: nat) returns (out: Bytes)
    requires t.Built() && |coeffs| == |rows| && forall c :: 0 <= c < |rows| ==> |rows[c]| == size
    ensures out == Mixed(coeffs, rows, size)
  {
    hide Add, Mul;
    out := seq(size, _ => 0);
    for col := 0 to |rows|
      invariant |out| == size
      invariant forall b :: 0 <= b < size ==> out[b] == DotTo(coeffs, Column(rows, b), col)
    {
      out := AddScaled(t, out, coeffs[col], rows[col]);
    }
  }

  method SplitPayload(payload: Bytes, p: Profile) returns (shards: seq<Bytes>)
    requires |payload| <= p.MaxPayloadBytes()
    ensures shards == DataShards(payload, p)
  {
    var padded := payload + seq(p.MaxPayloadBytes() - |payload|, _ => 0);
    shards := [];
    for idx := 0 to p.dataShards
      invariant shards == DataShards(payload, p)[..idx]
    {
      var start := idx * p.shardSize;
      SliceFits(idx, p.dataShards, p.shardSize);
      shards := shards + [padded[start..start + p.shardSize]];
    }
  }

  method EncodeShards(t: Tables, payload: Bytes, p: Profile) returns (r: Result<seq<Bytes>, CodecError>)
    requires t.Built() && p.Valid()
    ensures |payload| > p.MaxPayloadBytes() ==> r == Err(PayloadTooLarge)
    ensures |payload| <= p.MaxPayloadBytes() ==>
              && r.Ok? && |r.value| == p.TotalShards()
              && (forall i :: 0 <= i < p.TotalShards() ==> r.value[i] == CodedShard(DataShards(payload, p), i, p))
              && (forall c, b :: 0 <= c < p.dataShards && 0 <= b < p.shardSize ==>
                    r.value[c][b] == ByteOrZero(payload, c * p.shardSize + b))
              && (forall i, b :: p.dataShards <= i < p.TotalShards() && 0 <= b < p.shardSize ==>
                    r.value[i][b] == Eval(Column(r.value[..p.dataShards], b), i - p.dataShards + 1))
  {
    hide Mixed, DataShards, GeneratorRow, Eval;
    if |payload| > p.MaxPayloadBytes() {
      return Err(PayloadTooLarge);
    }
    var dataShards := SplitPayload(payload, p);
    var parity: seq<Bytes> := [];
    for q := 0 to p.parityShards
      invariant |parity| == q
      invariant forall i :: 0 <= i < q ==> parity[i] == CodedShard(dataShards, p.dataShards + i, p)
    {
      var row := RowForIndex(t, p.dataShards + q, p);
      var out := MixRows(t, row.value, dataShards, p.shardSize);
      parity := parity + [out];
    }
    hide CodedShard;
    forall i | 0 <= i < p.dataShards
      ensures CodedShard(dataShards, i, p) == dataShards[i]
    {
      DataShardIsData(dataShards, i, p);
    }
    var shards := dataShards + parity;
    assert shards[..p.dataShards] == dataShards;
    forall c, b | 0 <= c < p.dataShards && 0 <= b < p.shardSize
      ensures shards[c][b] == ByteOrZero(payload, c * p.shardSize + b)
    {
      DataByte(payload, p, c, b);
    }
    forall i, b | p.dataShards <= i < p.TotalShards() && 0 <= b < p.shardSize
      ensures shards[i][b] == Eval(Column(dataShards, b), i - p.dataShards + 1)
    {
      ParityEvaluates(dataShards, i, p, b);
    }
    return Ok(shards);
  }

  // ---------- Decoding ----------

  /** The indices below n that are present, in ascending order. */
  function Available(keys: set<int>, n: nat): (s: seq<nat>) {
    if n == 0 then [] else Available(keys, n - 1) + if n - 1 in keys then [n - 1] else []
  }

  predicate Ascending(s: seq<nat>) { forall i, j :: 0 <= i < j < |s| ==> s[i] < s[j] }

  lemma {:induction false} AvailableIs(keys: set<int>, n: nat)
    ensures Ascending(Available(keys, n))
    ensures forall x: nat :: x in Available(keys, n) <==> x < n && x in keys
    ensures forall i :: 0 <= i < |Available(keys, n)| ==> i <= Available(keys, n)[i] < n
  {
    if n != 0 {
      AvailableIs(keys, n - 1);
      var s := Available(keys, n - 1);
      assert s != [] ==> |s| - 1 <= s[|s| - 1] < n - 1;
    }
  }

  lemma AvailableSize(keys: set<int>, n: nat)
    ensures |Available(keys, n)| <= |keys|
  {
    AvailableIs(keys, n);
    DistinctSize(Available(keys, n), keys);
  }

  lemma {:induction false} DistinctSize(s: seq<nat>, keys: set<int>)
    requires Ascending(s) && forall i :: 0 <= i < |s| ==> s[i] in keys
    ensures |s| <= |keys|
    decreases |s|
  {
    if s != [] {
      var last := s[|s| - 1];
      DistinctSize(s[..|s| - 1], keys - {last});
    }
  }

  /** The shards that decoding uses: the first dataShards of those present. */
  function Selected(keys: set<int>, p: Profile): (s: seq<nat>)
    requires |Available(keys, p.TotalShards())| >= p.dataShards
    ensures |s| == p.dataShards && forall i :: 0 <= i < |s| ==> s[i] < p.TotalShards() && s[i] in keys
  {
    AvailableIs(keys, p.TotalShards());
    Available(keys, p.TotalShards())[..p.dataShards]
  }

  function SelectedRows(keys: set<int>, p: Profile): (m: Matrix)
    requires p.Valid() && |Available(keys, p.TotalShards())| >= p.dataShards
    ensures Square(m, p.dataShards)
  {
    seq(p.dataShards, i requires 0 <= i < p.dataShards => GeneratorRow(Selected(keys, p)[i], p))
  }

  /** Enough shards are present and the selected rows of the generator matrix are independent. */
  ghost predicate Recoverable(keys: set<int>, p: Profile)
    requires p.Valid()
  {
    && |Available(keys, p.TotalShards())| >= p.dataShards
    && !Singular(SelectedRows(keys, p), p.dataShards)
  }

  ghost predicate Decodable(shardMap: map<int, Bytes>, p: Profile)
    requires p.Valid()
  {
    && Recoverable(shardMap.Keys, p)
    && forall i :: 0 <= i < p.dataShards ==> |shardMap[Selected(shardMap.Keys, p)[i]]| == p.shardSize
  }

  function ShardRows(shardMap: map<int, Bytes>, sel: seq<nat>): (rows: seq<Bytes>)
    requires forall i :: 0 <= i < |sel| ==> sel[i] in shardMap
  {
    seq(|sel|, i requires 0 <= i < |sel| => shardMap[sel[i]])
  }

  function CodedRows(data: seq<Bytes>, sel: seq<nat>, p: Profile): (rows: seq<Bytes>)
    requires p.Valid() && IsData(data, p) && forall i :: 0 <= i < |sel| ==> sel[i] < p.TotalShards()
  {
    seq(|sel|, i requires 0 <= i < |sel| => CodedShard(data, sel[i], p))
  }

  /** The selected shards are those of the data. */
  ghost predicate Explains(data: seq<Bytes>, shardMap: map<int, Bytes>, p: Profile)
    requires p.Valid() && IsData(data, p) && |Available(shardMap.Keys, p.TotalShards())| >= p.dataShards
  {
    var sel := Selected(shardMap.Keys, p);
    ShardRows(shardMap, sel) == CodedRows(data, sel, p)
  }

  function Join(rows: seq<Bytes>): Bytes {
    if rows == [] then [] else Join(rows[..|rows| - 1]) + rows[|rows| - 1]
  }

  /** Joining the slices of the padded payload gives it back. */
  lemma {:induction false} JoinSlices(s: Bytes, size: nat, rows: seq<Bytes>)
    requires |rows| * size <= |s|
    requires forall c :: 0 <= c < |rows| ==> |rows[c]| == size && (c + 1) * size <= |s| && rows[c] == Slice(s, size, c)
    ensures Join(rows) == s[..|rows| * size]
  {
    if rows != [] {
      var n := |rows| - 1;
      assert |rows| * size == n * size + size;
      JoinSlices(s, size, rows[..n]);
      assert s[..n * size] + s[n * size..n * size + size] == s[..n * size + size];
    } else {
      assert s[..0] == [];
    }
  }

  lemma JoinDataShards(payload: Bytes, p: Profile)
    requires |payload| <= p.MaxPayloadBytes()
    ensures Join(DataShards(payload, p)) == Padded(payload, p)
    ensures Padded(payload, p)[..|payload|] == payload
  {
    var s, rows := Padded(payload, p), DataShards(payload, p);
    forall c | 0 <= c < |rows|
      ensures (c + 1) * p.shardSize <= |s| && rows[c] == Slice(s, p.shardSize, c)
    {
      SliceFits(c, p.dataShards, p.shardSize);
    }
    JoinSlices(s, p.shardSize, rows);
    assert s[..|s|] == s;
  }

  // ---------- Column by column, decoding solves the selected equations ----------

  /** The data rows that a matrix makes of the received rows. */
  function Unmixed(b: Matrix, rows: seq<Bytes>, p: Profile): (data: seq<Bytes>)
    requires Square(b, p.dataShards) && IsData(rows, p)
    ensures IsData(data, p)
  {
    seq(p.dataShards, i requires 0 <= i < p.dataShards => Mixed(b[i], rows, p.shardSize))
  }

  lemma SameColumns(s: seq<Bytes>, u: seq<Bytes>, p: Profile)
    requires IsData(s, p) && IsData(u, p)
    requires forall j :: 0 <= j < p.shardSize ==> Column(s, j) == Column(u, j)
    ensures s == u
  {
    forall i | 0 <= i < p.dataShards
      ensures s[i] == u[i]
    {
      forall j | 0 <= j < p.shardSize
        ensures s[i][j] == u[i][j]
      {
        assert Column(s, j)[i] == s[i][j] && Column(u, j)[i] == u[i][j];
      }
    }
  }

  lemma CodedColumn(data: seq<Bytes>, keys: set<int>, p: Profile, j: nat)
    requires p.Valid() && IsData(data, p) && |Available(keys, p.TotalShards())| >= p.dataShards && j < p.shardSize
    ensures Column(CodedRows(data, Selected(keys, p), p), j) == Apply(SelectedRows(keys, p), Column(data, j))
  {
    hide Dot, GeneratorRow, Selected;
  }

  lemma UnmixedColumn(b: Matrix, rows: seq<Bytes>, p: Profile, j: nat)
    requires Square(b, p.dataShards) && IsData(rows, p) && j < p.shardSize
    ensures Column(Unmixed(b, rows, p), j) == Apply(b, Column(rows, j))
  {
    hide Dot;
  }

  lemma ReceivedColumns(data: seq<Bytes>, rows: seq<Bytes>, keys: set<int>, p: Profile, b: Matrix, j: nat)
    requires p.Valid() && IsData(data, p) && IsData(rows, p) && j < p.shardSize
    requires |Available(keys, p.TotalShards())| >= p.dataShards
    requires Square(b, p.dataShards) && IsInverse(b, SelectedRows(keys, p), p.dataShards)
    ensures Column(CodedRows(data, Selected(keys, p), p), j) == Column(rows, j)
            <==> Column(data, j) == Column(Unmixed(b, rows, p), j)
  {
    CodedColumn(data, keys, p, j);
    UnmixedColumn(b, rows, p, j);
    var m, x, y := SelectedRows(keys, p), Column(data, j), Column(rows, j);
    hide Apply, Selected, SelectedRows, CodedRows, Unmixed, Column;
    assert Apply(m, x) == y <==> Apply(b, y) == x;
  }

  /** With an inverse of the selected rows, data explain received rows exactly when they are what the
      inverse makes of them. */
  lemma UnmixedExplains(data: seq<Bytes>, rows: seq<Bytes>, keys: set<int>, p: Profile, b: Matrix)
    requires p.Valid() && IsData(data, p) && IsData(rows, p)
    requires |Available(keys, p.TotalShards())| >= p.dataShards
    requires Square(b, p.dataShards) && IsInverse(b, SelectedRows(keys, p), p.dataShards)
    ensures rows == CodedRows(data, Selected(keys, p), p) <==> data == Unmixed(b, rows, p)
  {
    hide Apply, Selected, SelectedRows, CodedShard, Unmixed, IsInverse, Column;
    var coded := CodedRows(data, Selected(keys, p), p);
    hide CodedRows;
    assert IsData(coded, p) by { CodedIsData(data, Selected(keys, p), p); }
    forall j | 0 <= j < p.shardSize
      ensures Column(coded, j) == Column(rows, j) <==> Column(data, j) == Column(Unmixed(b, rows, p), j)
    {
      ReceivedColumns(data, rows, keys, p, b, j);
    }
    if rows == coded {
      SameColumns(data, Unmixed(b, rows, p), p);
    }
    if data == Unmixed(b, rows, p) {
      SameColumns(rows, coded, p);
    }
  }

  lemma CodedIsData(data: seq<Bytes>, sel: seq<nat>, p: Profile)
    requires p.Valid() && IsData(data, p)
    requires |sel| == p.dataShards && forall i :: 0 <= i < |sel| ==> sel[i] < p.TotalShards()
    ensures IsData(CodedRows(data, sel, p), p)
  {
  }

  /** The first n bytes, or all of them when there are fewer. */
  function Prefix(s: Bytes, n: nat): Bytes { if n <= |s| then s[..n] else s }

  /** What decoding returns: the unique data that explain the selected shards, cut to size, if any. */
  ghost predicate DecodesTo(shardMap: map<int, Bytes>, p: Profile, size: int, r: Result<Option<Bytes>, CodecError>)
    requires p.Valid()
  {
    if size < 0 || size > p.MaxPayloadBytes() then
      r == Err(InvalidOriginalSize)
    else
      && r.Ok?
      && (r.value.Some? <==> Decodable(shardMap, p))
      && (r.value.Some? ==> exists data ::
            IsData(data, p) && Explains(data, shardMap, p) && r.value.value == Prefix(Join(data), size))
  }

  method SelectRows(t: Tables, selected: seq<nat>, p: Profile) returns (rows: Matrix)
    requires t.Built() && p.Valid() && forall i :: 0 <= i < |selected| ==> selected[i] < p.TotalShards()
    ensures |rows| == |selected| && forall i :: 0 <= i < |rows| ==> rows[i] == GeneratorRow(selected[i], p)
  {
    hide GeneratorRow;
    rows := [];
    for i := 0 to |selected|
      invariant |rows| == i && forall j :: 0 <= j < i ==> rows[j] == GeneratorRow(selected[j], p)
    {
      var row := RowForIndex(t, selected[i], p);
      rows := rows + [row.value];
    }
  }

  method UnmixRows(t: Tables, inv: Matrix, rows: seq<Bytes>, p: Profile) returns (data: seq<Bytes>)
    requires t.Built() && Square(inv, p.dataShards) && IsData(rows, p)
    ensures data == Unmixed(inv, rows, p)
  {
    hide Mixed;
    data := [];
    for outRow := 0 to p.dataShards
      invariant data == Unmixed(inv, rows, p)[..outRow]
    {
      var out := MixRows(t, inv[outRow], rows, p.shardSize);
      data := data + [out];
    }
  }

  method CollectShards(shardMap: map<int, Bytes>, selected: seq<nat>, p: Profile) returns (r: Option<seq<Bytes>>)
    requires forall i :: 0 <= i < |selected| ==> selected[i] in shardMap
    ensures r.None? <==> exists i :: 0 <= i < |selected| && |shardMap[selected[i]]| != p.shardSize
    ensures r.Some? ==> r.value == ShardRows(shardMap, selected)
  {
    var shards: seq<Bytes> := [];
    for i := 0 to |selected|
      invariant shards == ShardRows(shardMap, selected)[..i]
      invariant forall j :: 0 <= j < i ==> |shardMap[selected[j]]| == p.shardSize
    {
      var shard := shardMap[selected[i]];
      if |shard| != p.shardSize {
        return None;
      }
      shards := shards + [shard];
    }
    return Some(shards);
  }

  /** From the selected shards on: invert their rows, check the shards, and combine them. */
  method DecodeSelected(t: Tables, shardMap: map<int, Bytes>, p: Profile, selected: seq<nat>)
    returns (r: Option<seq<Bytes>>)
    requires t.Built() && p.Valid()
    requires |Available(shardMap.Keys, p.TotalShards())| >= p.dataShards && selected == Selected(shardMap.Keys, p)
    ensures r.Some? <==> Decodable(shardMap, p)
    ensures r.Some? ==> IsData(r.value, p) && Explains(r.value, shardMap, p)
  {
    hide Available, GeneratorRow, Singular, IsInverse, Apply;
    var rows := SelectRows(t, selected, p);
    assert rows == SelectedRows(shardMap.Keys, p);
    hide Selected, SelectedRows;
    var inv := InvertMatrix(t, rows);
    if inv == None {
      return None;
    }
    var shards := CollectShards(shardMap, selected, p);
    if shards == None {
      return None;
    }
    assert IsData(shards.value, p);
    var data := UnmixRows(t, inv.value, shards.value, p);
    hide ShardRows, Unmixed, CodedRows;
    UnmixedExplains(data, shards.value, shardMap.Keys, p, inv.value);
    return Some(data);
  }

  method DecodeShards(t: Tables, shardMap: map<int, Bytes>, p: Profile, originalSize: int)
    returns (r: Result<Option<Bytes>, CodecError>)
    requires t.Built() && p.Valid()
    ensures DecodesTo(shardMap, p, originalSize, r)
  {
    if originalSize < 0 || originalSize > p.MaxPayloadBytes() {
      return Err(InvalidOriginalSize);
    }
    AvailableSize(shardMap.Keys, p.TotalShards());
    hide Available, SelectedRows, Singular;
    if |shardMap| < p.dataShards {
      return Ok(None);
    }
    var available := Available(shardMap.Keys, p.TotalShards());
    if |available| < p.dataShards {
      return Ok(None);
    }
    var selected := available[..p.dataShards];
    assert selected == Selected(shardMap.Keys, p);
    hide Selected, Explains;
    var data := DecodeSelected(t, shardMap, p, selected);
    hide Decodable, Join;
    if data == None {
      return Ok(None);
    }
    return Ok(Some(Prefix(Join(data.value), originalSize)));
  }

  // ---------- Missing shards ----------

  function MissingBelow(n: nat, present: set<int>): seq<nat> {
    if n == 0 then [] else MissingBelow(n - 1, present) + if n - 1 in present then [] else [n - 1]
  }

  /** The indices of the profile that are absent, in ascending order. */
  function MissingShardIndexes(totalShards: int, present: set<int>): (s: seq<nat>)
    ensures Ascending(s)
    ensures forall x: nat :: x in s <==> x < totalShards && x !in present
  {
    var n := if totalShards < 0 then 0 else totalShards;
    MissingIs(n, present);
    MissingBelow(n, present)
  }

  lemma {:induction false} MissingIs(n: nat, present: set<int>)
    ensures Ascending(MissingBelow(n, present))
    ensures forall i :: 0 <= i < |MissingBelow(n, present)| ==> MissingBelow(n, present)[i] < n
    ensures forall x: nat :: x in MissingBelow(n, present) <==> x < n && x !in present
    ensures |MissingBelow(n, present)| + |Available(present, n)| == n
  {
    if n != 0 {
      MissingIs(n - 1, present);
    }
  }
}
