/** The packets of a text: one chat packet, or a start, numbered chunks and an end. */
module TextPackets {
  import opened Wrappers
  import opened Octets
  import opened Clock

  type Bytes = seq<Octet>

  const MAX_TEXT := 8192
  const MAX_CHAT := 400
  const CHUNK := 32
  const MAX_TEXT_TTL := 14

  datatype Part = Whole | Opening | Piece(number: nat) | Closing

  /** End-to-end ids extend the id of the text by the part. */
  datatype E2eId = E2eId(ident: string, part: Part)

  datatype Content =
    | Chat(text: Bytes)
    | Start(size: int, count: int)
    | Chunk(index: int, data: Bytes)
    | End(digest: Bytes)

  datatype Packet = Packet(dst: U32, ident: string, e2eId: E2eId, content: Content)

  datatype TextError = BadDestination | BadTtl | BadLength

  function ChunkCount(raw: Bytes): (n: nat)
    ensures |raw| <= MAX_TEXT ==> n <= 256
  {
    (|raw| + CHUNK - 1) / CHUNK
  }

  function ChunkOf(raw: Bytes, i: nat): (c: Bytes)
    requires i < ChunkCount(raw)
    ensures 1 <= |c| <= CHUNK
  {
    raw[i * CHUNK..if (i + 1) * CHUNK <= |raw| then (i + 1) * CHUNK else |raw|]
  }

  /** The content of the k-th packet. */
  function ContentAt(raw: Bytes, digest: Bytes, k: nat): Content
    requires k < PacketCount(raw)
  {
    if |raw| <= MAX_CHAT then Chat(raw)
    else if k == 0 then Start(|raw|, ChunkCount(raw))
    else if k <= ChunkCount(raw) then Chunk(k - 1, ChunkOf(raw, k - 1))
    else End(digest)
  }

  function PartAt(raw: Bytes, k: nat): Part
    requires k < PacketCount(raw)
  {
    if |raw| <= MAX_CHAT then Whole
    else if k == 0 then Opening
    else if k <= ChunkCount(raw) then Piece(k - 1)
    else Closing
  }

  function PacketCount(raw: Bytes): nat { if |raw| <= MAX_CHAT then 1 else ChunkCount(raw) + 2 }

  function CarriedBy(c: Content): Bytes {
    match c
    case Chat(text) => text
    case Chunk(_, data) => data
    case _ => []
  }

  /** The bytes of the text that packets carry, in order. */
  function Carried(packets: seq<Packet>): Bytes {
    if packets == [] then []
    else Carried(packets[..|packets| - 1]) + CarriedBy(packets[|packets| - 1].content)
  }

  lemma CarriedMore(packets: seq<Packet>, p: Packet)
    ensures Carried(packets + [p]) == Carried(packets) + CarriedBy(p.content)
  {
    assert (packets + [p])[..|packets|] == packets;
  }

  lemma CarriedAlone(p: Packet)
    ensures Carried([p]) == CarriedBy(p.content)
  {
    assert [p][..0] == [];
  }

  function Least(a: nat, b: nat): nat { if a <= b then a else b }

  lemma NextChunk(raw: Bytes, i: nat)
    requires i < ChunkCount(raw)
    ensures raw[..Least(i * CHUNK, |raw|)] + ChunkOf(raw, i) == raw[..Least((i + 1) * CHUNK, |raw|)]
    ensures i + 1 < ChunkCount(raw) ==> |ChunkOf(raw, i)| == CHUNK
  {
  }

  /** The part of a long text that the first n packets carry. */
  function Leading(raw: Bytes, n: nat): Bytes { if n == 0 then [] else raw[..Least((n - 1) * CHUNK, |raw|)] }

  lemma LeadingNext(raw: Bytes, digest: Bytes, n: nat)
    requires |raw| > MAX_CHAT && n < PacketCount(raw)
    ensures Leading(raw, n) + CarriedBy(ContentAt(raw, digest, n)) == Leading(raw, n + 1)
    ensures Leading(raw, PacketCount(raw)) == raw
  {
    if 1 <= n <= ChunkCount(raw) {
      NextChunk(raw, n - 1);
    }
    hide ChunkOf;
    assert raw[..|raw|] == raw;
  }

  lemma CarriedNext(raw: Bytes, digest: Bytes, packets: seq<Packet>, n: nat)
    requires |raw| > MAX_CHAT && n < |packets| && n < PacketCount(raw)
    requires packets[n].content == ContentAt(raw, digest, n) && Carried(packets[..n]) == Leading(raw, n)
    ensures Carried(packets[..n + 1]) == Leading(raw, n + 1)
  {
    hide Carried, ContentAt, Leading, PacketCount;
    CarriedMore(packets[..n], packets[n]);
    assert packets[..n + 1] == packets[..n] + [packets[n]];
    LeadingNext(raw, digest, n);
  }

  lemma NothingCarried(raw: Bytes)
    ensures Carried([]) == Leading(raw, 0)
  {
  }

  lemma {:induction false} LongCarried(raw: Bytes, digest: Bytes, packets: seq<Packet>, n: nat)
    requires |raw| > MAX_CHAT && |packets| == PacketCount(raw) && n <= |packets|
    requires forall k :: 0 <= k < |packets| ==> packets[k].content == ContentAt(raw, digest, k)
    ensures Carried(packets[..n]) == Leading(raw, n)
    decreases n
  {
    hide Carried, ContentAt, Leading, PacketCount, CarriedBy, Least;
    if n == 0 {
      NothingCarried(raw);
      assert packets[..0] == [];
    } else {
      LongCarried(raw, digest, packets, n - 1);
      CarriedNext(raw, digest, packets, n - 1);
    }
  }

  /** Packets for the text whose UTF-8 encoding is `raw`, with the hash of the encoding. */
  method TextPackets(raw: Bytes, dst: U32, ttl: int, ident: string, digest: Bytes)
    returns (r: Result<seq<Packet>, TextError>)
    ensures r.Err? <==> dst == 0 || !(1 <= ttl <= MAX_TEXT_TTL) || raw == [] || |raw| > MAX_TEXT
    ensures r.Err? ==>
              r.error == if dst == 0 then BadDestination else if !(1 <= ttl <= MAX_TEXT_TTL) then BadTtl else BadLength
    ensures r.Ok? ==>
              && |r.value| == PacketCount(raw)
              && forall k :: 0 <= k < |r.value| ==>
                   r.value[k] == Packet(dst, ident, E2eId(ident, PartAt(raw, k)), ContentAt(raw, digest, k))
    ensures r.Ok? ==> Carried(r.value) == raw
    ensures r.Ok? && |raw| <= 400 ==> r.value == [Packet(dst, ident, E2eId(ident, Whole), Chat(raw))]
    ensures r.Ok? && |raw| > 400 ==>
              var n := |r.value| - 2;
              && 32 * (n - 1) < |raw| <= 32 * n
              && r.value[0] == Packet(dst, ident, E2eId(ident, Opening), Start(|raw|, n))
              && r.value[n + 1] == Packet(dst, ident, E2eId(ident, Closing), End(digest))
              && forall i :: 1 <= i <= n ==>
                   && r.value[i].content.Chunk?
                   && r.value[i] == Packet(dst, ident, E2eId(ident, Piece(i - 1)),
                                           Chunk(i - 1, r.value[i].content.data))
                   && (i < n ==> |r.value[i].content.data| == 32)
  {
    hide ChunkOf, Carried;
    if dst == 0 {
      return Err(BadDestination);
    }
    if ttl < 1 || ttl > MAX_TEXT_TTL {
      return Err(BadTtl);
    }
    if raw == [] || |raw| > MAX_TEXT {
      return Err(BadLength);
    }
    if |raw| <= MAX_CHAT {
      var packet := Packet(dst, ident, E2eId(ident, Whole), Chat(raw));
      CarriedAlone(packet);
      return Ok([packet]);
    }
    var chunks := CutChunks(raw);
    var packets := [Packet(dst, ident, E2eId(ident, Opening), Start(|raw|, |chunks|))];
    for i := 0 to |chunks|
      invariant |packets| == i + 1
      invariant forall k :: 0 <= k < |packets| ==>
                  packets[k] == Packet(dst, ident, E2eId(ident, PartAt(raw, k)), ContentAt(raw, digest, k))
    {
      packets := packets + [Packet(dst, ident, E2eId(ident, Piece(i)), Chunk(i, chunks[i]))];
    }
    packets := packets + [Packet(dst, ident, E2eId(ident, Closing), End(digest))];
    LongCarried(raw, digest, packets, |packets|);
    LeadingNext(raw, digest, 0);
    assert packets[..|packets|] == packets;
    forall i: nat | i + 1 < |chunks|
      ensures |ChunkOf(raw, i)| == CHUNK
    {
      NextChunk(raw, i);
    }
    return Ok(packets);
  }

  method CutChunks(raw: Bytes) returns (chunks: seq<Bytes>)
    ensures |chunks| == ChunkCount(raw) && forall i :: 0 <= i < |chunks| ==> chunks[i] == ChunkOf(raw, i)
  {
    chunks := [];
    var at := 0;
    while at < |raw|
      invariant at == |chunks| * CHUNK && |chunks| <= ChunkCount(raw)
      invariant forall i :: 0 <= i < |chunks| ==> chunks[i] == ChunkOf(raw, i)
    {
      chunks := chunks + [raw[at..if at + CHUNK <= |raw| then at + CHUNK else |raw|]];
      at := at + CHUNK;
    }
  }

  /** No two packets of a text can be confused: an acknowledgement names at most one of them. */
  lemma PartsDiffer(raw: Bytes, j: nat, k: nat)
    requires j < k < PacketCount(raw)
    ensures PartAt(raw, j) != PartAt(raw, k)
  {
  }

  function Joined(chunks: map<nat, Bytes>, n: nat): Bytes
    requires forall i: nat :: i < n ==> i in chunks
  {
    if n == 0 then [] else Joined(chunks, n - 1) + chunks[n - 1]
  }

  lemma {:induction false} JoinedPrefix(chunks: map<nat, Bytes>, raw: Bytes, n: nat)
    requires n <= ChunkCount(raw) && forall i: nat :: i < n ==> i in chunks && chunks[i] == ChunkOf(raw, i)
    ensures Joined(chunks, n) == raw[..if n * CHUNK <= |raw| then n * CHUNK else |raw|]
  {
    if n != 0 {
      JoinedPrefix(chunks, raw, n - 1);
    }
  }

  /** The chunks, joined in order, are the text. */
  lemma ChunksJoin(chunks: map<nat, Bytes>, raw: Bytes)
    requires forall i: nat :: i < ChunkCount(raw) ==> i in chunks && chunks[i] == ChunkOf(raw, i)
    ensures Joined(chunks, ChunkCount(raw)) == raw
  {
    JoinedPrefix(chunks, raw, ChunkCount(raw));
  }
}
