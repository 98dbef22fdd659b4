/** The mesh wire format: packed little-endian headers, their validation, and the cutting of payloads
    into fragments. */
module MeshFrames {
  import opened Wrappers
  import opened Octets
  import opened Clock

  const MESH_MAGIC := 0x4C50
  const MESH_VERSION := 1
  const MAX_TTL := 14
  const ESP_NOW_MAX_PAYLOAD := 250
  const CHUNK_SIZE := 180
  const MAX_APP_PAYLOAD := 1024
  const MAX_FRAGMENTS := (MAX_APP_PAYLOAD + CHUNK_SIZE - 1) / CHUNK_SIZE

  const KIND_FRAGMENT: Octet := 1
  const KIND_NODE_INFO: Octet := 2
  const KIND_ROUTED_FRAGMENT: Octet := 3

  const APP_TEXT: Octet := 1
  const APP_BINARY: Octet := 2

  const HEADER_SIZE := 14
  const FRAGMENT_META_SIZE := 8
  const ROUTE_META_SIZE := 4
  const NODE_INFO_SIZE := 28
  const LEGACY_NODE_INFO_SIZE := 22

  type Bytes = seq<Octet>
  type U16 = x: nat | x < 0x1_0000

  datatype Header = Header(magic: U16, version: Octet, kind: Octet, originId: U32, messageId: U32, ttl: Octet,
                           hops: Octet)

  datatype FragmentMeta = FragmentMeta(appType: Octet, fragIndex: Octet, fragCount: Octet, reserved: Octet,
                                       totalLen: U16, chunkLen: U16)

  // ---------- Packed little-endian integers ----------

  function PutU16(v: U16): (b: Bytes)
    ensures |b| == 2
  {
    assert v / 256 < 256;
    [v % 256, v / 256]
  }

  function GetU16(b: Bytes, at: nat): U16
    requires at + 2 <= |b|
  {
    var lo: nat, hi: nat := b[at], b[at + 1];
    lo + 256 * hi
  }

  function PutU32(v: U32): (b: Bytes)
    ensures |b| == 4
  {
    PutU16(v % 0x1_0000) + PutU16(v / 0x1_0000)
  }

  function GetU32(b: Bytes, at: nat): U32
    requires at + 4 <= |b|
  {
    GetU16(b, at) + 0x1_0000 * GetU16(b, at + 2)
  }

  lemma U16RoundTrip(v: U16, b: Bytes, at: nat)
    requires at + 2 <= |b| && b[at..at + 2] == PutU16(v)
    ensures GetU16(b, at) == v
  {
    assert b[at] == b[at..at + 2][0] && b[at + 1] == b[at..at + 2][1];
  }

  lemma U32RoundTrip(v: U32, b: Bytes, at: nat)
    requires at + 4 <= |b| && b[at..at + 4] == PutU32(v)
    ensures GetU32(b, at) == v
  {
    assert b[at..at + 2] == b[at..at + 4][..2] == PutU16(v % 0x1_0000);
    assert b[at + 2..at + 4] == b[at..at + 4][2..] == PutU16(v / 0x1_0000);
    U16RoundTrip(v % 0x1_0000, b, at);
    U16RoundTrip(v / 0x1_0000, b, at + 2);
  }

  lemma DigitsOf(a: nat, b: nat, c: nat, d: nat)
    requires a < 256 && b < 256 && c < 256 && d < 256
    ensures var v := a + 0x100 * b + 0x1_0000 * c + 0x100_0000 * d;
      a == v % 256 && b == v / 256 % 256 && c == v / 0x1_0000 % 256 && d == v / 0x100_0000
  {
    var v := a + 0x100 * b + 0x1_0000 * c + 0x100_0000 * d;
    assert v / 256 == b + 256 * (c + 256 * d);
    assert v / 0x1_0000 == c + 256 * d;
  }

  lemma SumOfDigits(v: nat)
    ensures v == v % 256 + 0x100 * (v / 256 % 256) + 0x1_0000 * (v / 0x1_0000 % 256) + 0x100_0000 * (v / 0x100_0000)
  {
    assert v / 0x1_0000 / 256 == v / 0x100_0000;
    assert v / 256 / 256 == v / 0x1_0000;
  }

  /** The lowest byte comes first. */
  lemma LittleEndian(b: Bytes, v: U32)
    requires |b| >= 4
    ensures GetU32(b, 0) == v <==>
            && b[0] == v % 256 && b[1] == v / 256 % 256 && b[2] == v / 0x1_0000 % 256 && b[3] == v / 0x100_0000
  {
    DigitsOf(b[0], b[1], b[2], b[3]);
    SumOfDigits(v);
    hide PutU32, PutU16;
    var b0: nat, b1: nat, b2: nat, b3: nat := b[0], b[1], b[2], b[3];
    assert GetU32(b, 0) == b0 + 0x100 * b1 + 0x1_0000 * b2 + 0x100_0000 * b3;
  }

  // ---------- Headers ----------

  function PutHeader(h: Header): (b: Bytes)
    ensures |b| == HEADER_SIZE
  {
    PutU16(h.magic) + [h.version, h.kind] + PutU32(h.originId) + PutU32(h.messageId) + [h.ttl, h.hops]
  }

  function GetHeader(b: Bytes): Header
    requires |b| >= HEADER_SIZE
  {
    Header(GetU16(b, 0), b[2], b[3], GetU32(b, 4), GetU32(b, 8), b[12], b[13])
  }

  lemma HeaderRoundTrip(h: Header, body: Bytes)
    ensures GetHeader(PutHeader(h) + body) == h
    ensures (PutHeader(h) + body)[HEADER_SIZE..] == body
  {
    hide PutU16, PutU32, GetU16, GetU32;
    var b := PutHeader(h) + body;
    assert b[0..2] == PutU16(h.magic);
    assert b[4..8] == PutU32(h.originId);
    assert b[8..12] == PutU32(h.messageId);
    U16RoundTrip(h.magic, b, 0);
    U32RoundTrip(h.originId, b, 4);
    U32RoundTrip(h.messageId, b, 8);
  }

  function PutMeta(m: FragmentMeta): (b: Bytes)
    ensures |b| == FRAGMENT_META_SIZE
  {
    [m.appType, m.fragIndex, m.fragCount, m.reserved] + PutU16(m.totalLen) + PutU16(m.chunkLen)
  }

  function GetMeta(b: Bytes): FragmentMeta
    requires |b| >= FRAGMENT_META_SIZE
  {
    FragmentMeta(b[0], b[1], b[2], b[3], GetU16(b, 4), GetU16(b, 6))
  }

  lemma MetaRoundTrip(m: FragmentMeta, chunk: Bytes)
    ensures GetMeta(PutMeta(m) + chunk) == m
    ensures (PutMeta(m) + chunk)[FRAGMENT_META_SIZE..] == chunk
  {
    hide PutU16, GetU16;
    var b := PutMeta(m) + chunk;
    assert b[4..6] == PutU16(m.totalLen) && b[6..8] == PutU16(m.chunkLen);
    U16RoundTrip(m.totalLen, b, 4);
    U16RoundTrip(m.chunkLen, b, 6);
  }

  // ---------- Validation ----------

  predicate ValidMeshEnvelope(origin: U32, ttl: Octet, hops: Octet) {
    origin != 0 && ttl != 0 && ttl <= MAX_TTL && hops < MAX_TTL && ttl + hops <= MAX_TTL
  }

  predicate ValidFragmentGeometry(m: FragmentMeta, bytes: nat) {
    if m.appType != APP_TEXT && m.appType != APP_BINARY then false
    else if m.totalLen > MAX_APP_PAYLOAD || m.chunkLen > CHUNK_SIZE || m.chunkLen != bytes then false
    else
      var count := if m.totalLen == 0 then 1 else (m.totalLen + CHUNK_SIZE - 1) / CHUNK_SIZE;
      if m.fragCount != count || m.fragIndex >= count then false
      else
        var remaining := m.totalLen - m.fragIndex * CHUNK_SIZE;
        m.chunkLen == if remaining > CHUNK_SIZE then CHUNK_SIZE else remaining
  }

  predicate ValidMeshBody(kind: Octet, body: Bytes) {
    if kind == KIND_NODE_INFO then
      |body| == NODE_INFO_SIZE || |body| == LEGACY_NODE_INFO_SIZE
    else if kind == KIND_ROUTED_FRAGMENT then
      && |body| >= ROUTE_META_SIZE
      && GetU32(body, 0) != 0
      && |body| >= ROUTE_META_SIZE + FRAGMENT_META_SIZE
      && ValidFragmentGeometry(GetMeta(body[ROUTE_META_SIZE..]), |body| - ROUTE_META_SIZE - FRAGMENT_META_SIZE)
    else
      && kind == KIND_FRAGMENT
      && |body| >= FRAGMENT_META_SIZE
      && ValidFragmentGeometry(GetMeta(body), |body| - FRAGMENT_META_SIZE)
  }

  predicate ValidHeader(h: Header) {
    && h.magic == MESH_MAGIC && h.version == MESH_VERSION
    && (h.kind == KIND_FRAGMENT || h.kind == KIND_NODE_INFO || h.kind == KIND_ROUTED_FRAGMENT)
    && ValidMeshEnvelope(h.originId, h.ttl, h.hops)
  }

  /** The header and the body of a well-formed frame. */
  function ParseHeader(data: Bytes): (r: Option<(Header, Bytes)>)
    ensures r.Some? ==> data == PutHeader(r.value.0) + r.value.1 && ValidHeader(r.value.0)
  {
    if |data| < HEADER_SIZE then None
    else
      var h := GetHeader(data);
      PutGetHeader(data);
      if h.magic != MESH_MAGIC || h.version != MESH_VERSION then None
      else if h.kind != KIND_FRAGMENT && h.kind != KIND_NODE_INFO && h.kind != KIND_ROUTED_FRAGMENT then None
      else if !ValidMeshEnvelope(h.originId, h.ttl, h.hops) then None
      else Some((h, data[HEADER_SIZE..]))
  }

  /** A header in front of any body is accepted exactly when it is valid, and data too short for one never. */
  lemma ParsesExactly(h: Header, body: Bytes)
    ensures ParseHeader(PutHeader(h) + body) == if ValidHeader(h) then Some((h, body)) else None
  {
    HeaderRoundTrip(h, body);
    hide PutHeader, GetHeader;
  }

  lemma PutGetU16(b: Bytes, at: nat)
    requires at + 2 <= |b|
    ensures PutU16(GetU16(b, at)) == b[at..at + 2]
  {
  }

  lemma PutGetU32(b: Bytes, at: nat)
    requires at + 4 <= |b|
    ensures PutU32(GetU32(b, at)) == b[at..at + 4]
  {
    PutGetU16(b, at);
    PutGetU16(b, at + 2);
    var v := GetU32(b, at);
    assert v % 0x1_0000 == GetU16(b, at) && v / 0x1_0000 == GetU16(b, at + 2);
  }

  lemma PutGetHeader(b: Bytes)
    requires |b| >= HEADER_SIZE
    ensures PutHeader(GetHeader(b)) + b[HEADER_SIZE..] == b
  {
    PutGetU16(b, 0);
    PutGetU32(b, 4);
    PutGetU32(b, 8);
    hide PutU16, PutU32, GetU16, GetU32;
  }

  // ---------- Fragmentation ----------

  /** The number of fragments; zero when the payload is too long. */
  function FragmentCount(totalLen: nat): (n: nat)
    ensures totalLen > MAX_APP_PAYLOAD <==> n == 0
    ensures n <= MAX_FRAGMENTS && (totalLen == 0 ==> n == 1)
    ensures 0 < totalLen <= MAX_APP_PAYLOAD ==> (n - 1) * CHUNK_SIZE < totalLen <= n * CHUNK_SIZE
  {
    if totalLen > MAX_APP_PAYLOAD then 0
    else if totalLen == 0 then 1
    else (totalLen + CHUNK_SIZE - 1) / CHUNK_SIZE
  }

  function SliceLength(totalLen: nat, index: nat): (n: nat)
    requires index < FragmentCount(totalLen)
    ensures n <= CHUNK_SIZE && index * CHUNK_SIZE + n <= totalLen
  {
    var remaining := totalLen - index * CHUNK_SIZE;
    if remaining > CHUNK_SIZE then CHUNK_SIZE else remaining
  }

  function FragmentSlice(payload: Bytes, index: nat): (r: Option<Bytes>)
    ensures r.Some? <==> index < FragmentCount(|payload|)
    ensures r.Some? ==>
              && |r.value| == SliceLength(|payload|, index)
              && forall j :: 0 <= j < |r.value| ==> r.value[j] == payload[index * CHUNK_SIZE + j]
  {
    if index >= FragmentCount(|payload|) then None
    else
      var offset := index * CHUNK_SIZE;
      Some(payload[offset..offset + SliceLength(|payload|, index)])
  }

  /** Geometry admits exactly the fragments that cutting a payload of the announced length produces. */
  lemma GeometryIsSlicing(m: FragmentMeta, bytes: nat)
    ensures ValidFragmentGeometry(m, bytes) <==>
            && (m.appType == APP_TEXT || m.appType == APP_BINARY)
            && m.fragCount == FragmentCount(m.totalLen) && m.fragIndex < m.fragCount
            && bytes == m.chunkLen == SliceLength(m.totalLen, m.fragIndex)
  {
  }

  /** The fragments laid end to end. */
  function Laid(payload: Bytes, k: nat): Bytes
    requires k <= FragmentCount(|payload|)
  {
    if k == 0 then [] else Laid(payload, k - 1) + FragmentSlice(payload, k - 1).value
  }

  lemma {:induction false} LaidPrefix(payload: Bytes, k: nat)
    requires k <= FragmentCount(|payload|)
    ensures Laid(payload, k) == payload[..if k * CHUNK_SIZE < |payload| then k * CHUNK_SIZE else |payload|]
  {
    if k != 0 {
      LaidPrefix(payload, k - 1);
    }
  }

  /** Cutting loses nothing: the fragments laid end to end are the payload. */
  lemma FragmentsPartition(payload: Bytes)
    requires |payload| <= MAX_APP_PAYLOAD
    ensures Laid(payload, FragmentCount(|payload|)) == payload
  {
    LaidPrefix(payload, FragmentCount(|payload|));
  }

  // ---------- The frames an origin builds ----------

  function Apart(a: nat, b: nat): nat { if a <= b then b - a else a - b }

  /** The nearest permitted ttl. */
  function ClampTtl(ttl: nat): (r: Octet)
    ensures 1 <= r <= MAX_TTL && (1 <= ttl <= MAX_TTL ==> r == ttl)
    ensures forall x: nat :: 1 <= x <= MAX_TTL ==> Apart(r, ttl) <= Apart(x, ttl)
  {
    if ttl == 0 then 1 else if ttl > MAX_TTL then MAX_TTL else ttl
  }

  function SliceMeta(appType: Octet, payload: Bytes, index: nat): FragmentMeta
    requires index < FragmentCount(|payload|)
  {
    FragmentMeta(appType, index, FragmentCount(|payload|), 0, |payload|, SliceLength(|payload|, index))
  }

  function FragmentBody(appType: Octet, payload: Bytes, index: nat): Bytes
    requires index < FragmentCount(|payload|)
  {
    PutMeta(SliceMeta(appType, payload, index)) + FragmentSlice(payload, index).value
  }

  /** The body of a directed fragment starts with the destination; a destination of zero stands for a flood. */
  function OriginBody(dst: U32, appType: Octet, payload: Bytes, index: nat): Bytes
    requires index < FragmentCount(|payload|)
  {
    if dst == 0 then FragmentBody(appType, payload, index)
    else PutU32(dst) + FragmentBody(appType, payload, index)
  }

  function OriginKind(dst: U32): Octet { if dst == 0 then KIND_FRAGMENT else KIND_ROUTED_FRAGMENT }

  /** Every frame an origin builds fits the radio and passes every receiver's checks, and
      its fields can be read back. */
  lemma OriginFrameValid(dst: U32, appType: Octet, payload: Bytes, index: nat)
    requires index < FragmentCount(|payload|) && (appType == APP_TEXT || appType == APP_BINARY)
    ensures HEADER_SIZE + |OriginBody(dst, appType, payload, index)| <= ESP_NOW_MAX_PAYLOAD
    ensures ValidMeshBody(OriginKind(dst), OriginBody(dst, appType, payload, index))
    ensures dst != 0 ==>
              GetU32(OriginBody(dst, appType, payload, index), 0) == dst
              && OriginBody(dst, appType, payload, index)[ROUTE_META_SIZE..] == FragmentBody(appType, payload, index)
    ensures GetMeta(FragmentBody(appType, payload, index)) == SliceMeta(appType, payload, index)
    ensures SliceMeta(appType, payload, index).reserved == 0
    ensures FragmentBody(appType, payload, index)[FRAGMENT_META_SIZE..] == FragmentSlice(payload, index).value
  {
    hide PutU16, GetU16, PutU32, GetU32, PutMeta, GetMeta;
    var body := OriginBody(dst, appType, payload, index);
    var meta, chunk := SliceMeta(appType, payload, index), FragmentSlice(payload, index).value;
    MetaRoundTrip(meta, chunk);
    GeometryIsSlicing(meta, |chunk|);
    hide ValidFragmentGeometry;
    if dst != 0 {
      assert body[0..4] == PutU32(dst);
      assert body[ROUTE_META_SIZE..] == FragmentBody(appType, payload, index);
      U32RoundTrip(dst, body, 0);
    }
  }

  /** A frame as it leaves its origin. */
  function OriginFrame(origin: U32, messageId: U32, ttl: Octet, dst: U32, appType: Octet, payload: Bytes,
                       index: nat): Bytes
    requires index < FragmentCount(|payload|)
  {
    PutHeader(Header(MESH_MAGIC, MESH_VERSION, OriginKind(dst), origin, messageId, ttl, 0))
    + OriginBody(dst, appType, payload, index)
  }

  // ---------- Relaying ----------

  /** The frame as relayed: one hop further, everything behind the header untouched. */
  function Forwarded(data: Bytes): (r: Bytes)
    requires |data| >= HEADER_SIZE && GetHeader(data).ttl > 0
    ensures |r| == |data|
  {
    var h := GetHeader(data);
    PutHeader(h.(ttl := h.ttl - 1, hops := if h.hops < 0xFF then h.hops + 1 else h.hops)) + data[HEADER_SIZE..]
  }

  /** Only the bytes of ttl and hops change. */
  lemma ForwardedBytes(data: Bytes)
    requires |data| >= HEADER_SIZE && GetHeader(data).ttl > 0
    ensures Forwarded(data)
            == data[..12] + [data[12] - 1, if data[13] < 255 then data[13] + 1 else 255] + data[14..]
  {
    var h := GetHeader(data);
    var changed := h.(ttl := h.ttl - 1, hops := if h.hops < 0xFF then h.hops + 1 else h.hops);
    PutGetHeader(data);
    hide PutU16, PutU32, GetU16, GetU32;
    assert PutHeader(changed)[..12] == PutHeader(h)[..12] == data[..12];
    assert PutHeader(changed) == PutHeader(changed)[..12] + [changed.ttl, changed.hops];
  }

  /** A relayed frame is accepted like the original, with the same ttl + hops and the same body. */
  lemma ForwardedParses(data: Bytes)
    requires ParseHeader(data).Some? && ParseHeader(data).value.0.ttl > 1
    ensures var (h, body) := ParseHeader(data).value;
      ParseHeader(Forwarded(data)) == Some((h.(ttl := h.ttl - 1, hops := h.hops + 1), body))
  {
    hide PutHeader, GetHeader;
    var (h, body) := ParseHeader(data).value;
    HeaderRoundTrip(h, body);
    HeaderRoundTrip(h.(ttl := h.ttl - 1, hops := h.hops + 1), body);
  }
}
