/** Reassembly of long texts from start, chunk and end packets that may be lost, repeated and reordered. */
module TextReceivers {
  import opened Wrappers
  import opened Counting
  import opened TextPackets

  const MAX_ASSEMBLIES := 8
  const MAX_CHUNKS := 256
  const MAX_IDENT := 64
  const MAX_MESSAGES := 200

  type Ident = (string, string)

  /** Fields that are absent or of another type are None. */
  datatype Body =
    | StartOf(size: Option<int>, count: Option<int>)
    | ChunkIs(index: Option<int>, data: Option<Bytes>)
    | EndWith(digest: Option<Bytes>)

  datatype Event = Event(src: Option<string>, textId: Option<string>, body: Body)

  datatype Assembly = Assembly(chunks: map<nat, Bytes>, size: nat, count: nat, at: real)

  type Assemblies = map<Ident, Assembly>

  datatype Text = Text(peer: string, text: Bytes)

  predicate ValidName(s: Option<string>) { s.Some? && 0 < |s.value| <= MAX_IDENT }

  function IdentOf(e: Event): Option<Ident> {
    if ValidName(e.src) && ValidName(e.textId) then Some((e.src.value, e.textId.value)) else None
  }

  // ---------- What each event does ----------

  predicate ValidStart(b: Body) {
    && b.StartOf? && b.size.Some? && b.count.Some?
    && 0 <= b.size.value <= MAX_TEXT && 0 <= b.count.value <= MAX_CHUNKS
  }

  /** A start opens an assembly if there is room; a repeated one only refreshes it. */
  function AfterStart(t: Assemblies, k: Ident, b: Body, now: real): Assemblies
    requires b.StartOf?
  {
    if !ValidStart(b) || (k !in t && |t| >= MAX_ASSEMBLIES) then t
    else if k in t then t[k := t[k].(at := now)]
    else t[k := Assembly(map[], b.size.value, b.count.value, now)]
  }

  function AfterChunk(t: Assemblies, k: Ident, b: Body, now: real): Assemblies
    requires b.ChunkIs? && k in t
  {
    var a := t[k].(at := now);
    if b.index.Some? && 0 <= b.index.value < a.count && b.data.Some? && |b.data.value| <= CHUNK
    then t[k := a.(chunks := a.chunks[b.index.value := b.data.value])]
    else t[k := a]
  }

  predicate Complete(a: Assembly) { |a.chunks| == a.count && forall i: nat :: i < a.count ==> i in a.chunks }

  /** How an end turns out: not yet all chunks, a verified text, bytes that are no text, or a mismatch. */
  datatype Outcome = Waiting | Verified(text: Bytes) | NotText | Mismatch

  ghost function OutcomeOf(a: Assembly, b: Body, hash: Bytes -> Bytes, isText: Bytes -> bool): Outcome
    requires b.EndWith?
  {
    if !Complete(a) then Waiting
    else
      var raw := Joined(a.chunks, a.count);
      if |raw| != a.size || b.digest != Some(hash(raw)) then Mismatch
      else if isText(raw) then Verified(raw) else NotText
  }

  /** A text is verified exactly if no chunk is missing, its size and its hash are as announced, and it is
      UTF-8. Then it is the chunks joined. */
  lemma OutcomeIs(a: Assembly, b: Body, hash: Bytes -> Bytes, isText: Bytes -> bool)
    requires b.EndWith? && forall i :: i in a.chunks ==> i < a.count
    ensures var outcome := OutcomeOf(a, b, hash, isText);
      if exists i: nat :: i < a.count && i !in a.chunks then outcome == Waiting
      else
        var raw := Joined(a.chunks, a.count);
        && (outcome == Verified(raw) <==> |raw| == a.size && b.digest == Some(hash(raw)) && isText(raw))
        && (outcome == NotText <==> |raw| == a.size && b.digest == Some(hash(raw)) && !isText(raw))
        && (outcome == Mismatch <==> |raw| != a.size || b.digest != Some(hash(raw)))
  {
    CountIsComplete(a);
    AllBelow(a.chunks.Keys, a.count);
    if forall i: nat :: i < a.count ==> i in a.chunks {
      AllOfThem(a.chunks.Keys, a.count);
    }
    hide Joined;
  }

  /** The assemblies after an event, and the text it completes. */
  ghost function AfterEvent(t: Assemblies, e: Event, now: real, hash: Bytes -> Bytes, isText: Bytes -> bool)
    : (Assemblies, Option<Text>)
  {
    match IdentOf(e)
    case None => (t, None)
    case Some(k) =>
      match e.body
      case StartOf(_, _) => (AfterStart(t, k, e.body, now), None)
      case ChunkIs(_, _) => (if k in t then AfterChunk(t, k, e.body, now) else t, None)
      case EndWith(_) =>
        if k !in t then (t, None)
        else
          match OutcomeOf(t[k], e.body, hash, isText)
          case Waiting => (t[k := t[k].(at := now)], None)
          case NotText => (t[k := t[k].(at := now)], None)
          case Mismatch => (t - {k}, None)
          case Verified(raw) => (t - {k}, Some(Text(k.0, raw)))
  }

  const ASSEMBLY_TIMEOUT := 120.0

  function Pruned(t: Assemblies, now: real): Assemblies { map k | k in t && now - t[k].at < ASSEMBLY_TIMEOUT :: t[k] }

  predicate Fits(a: Assembly) {
    && a.size <= MAX_TEXT && a.count <= MAX_CHUNKS
    && forall i :: i in a.chunks ==> i < a.count && |a.chunks[i]| <= CHUNK
  }

  predicate WellFormed(t: Assemblies) { |t| <= MAX_ASSEMBLIES && forall k :: k in t ==> Fits(t[k]) }

  lemma UpdateFits(t: Assemblies, k: Ident, a: Assembly)
    requires WellFormed(t) && Fits(a) && (k in t || |t| < MAX_ASSEMBLIES)
    ensures WellFormed(t[k := a])
  {
    hide Fits;
    assert t[k := a].Keys == t.Keys + {k};
    assert |t[k := a]| == |t[k := a].Keys|;
  }

  lemma RemovalFits(t: Assemblies, k: Ident)
    requires WellFormed(t)
    ensures WellFormed(t - {k})
  {
    hide Fits;
    assert (t - {k}).Keys == t.Keys - {k};
    assert |t - {k}| == |(t - {k}).Keys|;
  }

  // ---------- Counting chunks ----------

  /** With all chunks in range, having as many as announced means having them all. */
  lemma CountIsComplete(a: Assembly)
    requires forall i :: i in a.chunks ==> i < a.count
    ensures Complete(a) <==> |a.chunks| == a.count
  {
    AllBelow(a.chunks.Keys, a.count);
  }

  // ---------- The object ----------

  class TextReceiver {
    const hash: Bytes -> Bytes
    const isText: Bytes -> bool
    var assemblies: Assemblies
    var messages: seq<Text>
    ghost var appended: seq<Text>

    ghost predicate Valid()
      reads this
    {
      WellFormed(assemblies) && LastKept()
    }

    /** The list of messages holds the last two hundred. */
    ghost predicate LastKept()
      reads this`messages, this`appended
    {
      messages == if |appended| <= MAX_MESSAGES then appended else appended[|appended| - MAX_MESSAGES..]
    }

    constructor (hash: Bytes -> Bytes, isText: Bytes -> bool)
      ensures Valid() && assemblies == map[] && appended == [] && this.hash == hash && this.isText == isText
    {
      this.hash := hash;
      this.isText := isText;
      assemblies, messages, appended := map[], [], [];
    }

    method ReceiveLongText(e: Event, now: real)
      requires Valid()
      modifies this
      ensures Valid()
      ensures var (t, text) := AfterEvent(old(assemblies), e, now, hash, isText);
        && assemblies == t
        && appended == old(appended) + if text.Some? then [text.value] else []
      ensures e.src.None? || e.textId.None? || !(1 <= |e.src.value| <= 64) || !(1 <= |e.textId.value| <= 64) ==>
                assemblies == old(assemblies) && appended == old(appended)
      ensures e.src.Some? && e.textId.Some? && 1 <= |e.src.value| <= 64 && 1 <= |e.textId.value| <= 64 ==>
                var k := (e.src.value, e.textId.value);
                match e.body
                case StartOf(_, _) => assemblies == AfterStart(old(assemblies), k, e.body, now)
                case ChunkIs(_, _) => k in old(assemblies) ==> assemblies == AfterChunk(old(assemblies), k, e.body, now)
                case EndWith(_) => k in old(assemblies) ==>
                  match OutcomeOf(old(assemblies)[k], e.body, hash, isText)
                  case Verified(raw) => k !in assemblies && appended == old(appended) + [Text(k.0, raw)]
                  case Mismatch => k !in assemblies && appended == old(appended)
                  case _ =>
                    && k in assemblies && assemblies[k] == old(assemblies)[k].(at := now)
                    && appended == old(appended)
    {
      hide OutcomeOf, AfterStart, AfterChunk;
      if !ValidName(e.src) || !ValidName(e.textId) {
        return;
      }
      var ident := (e.src.value, e.textId.value);
      match e.body {
        case StartOf(_, _) =>
          Start(ident, e.body, now);
        case ChunkIs(_, _) =>
          if ident in assemblies {
            Chunk(ident, e.body, now);
          }
        case EndWith(_) =>
          if ident in assemblies {
            End(ident, e.body, now);
          }
      }
    }

    method Start(ident: Ident, b: Body, now: real)
      requires Valid() && b.StartOf?
      modifies this`assemblies
      ensures Valid() && assemblies == AfterStart(old(assemblies), ident, b, now)
      ensures if && b.size.Some? && 0 <= b.size.value <= 8192 && b.count.Some? && 0 <= b.count.value <= 256
                 && (ident in old(assemblies) || |old(assemblies)| < 8)
              then
                && ident in assemblies && assemblies == old(assemblies)[ident := assemblies[ident]]
                && assemblies[ident]
                   == if ident in old(assemblies) then old(assemblies)[ident].(at := now)
                      else Assembly(map[], b.size.value, b.count.value, now)
              else assemblies == old(assemblies)
    {
      if b.size.None? || !(0 <= b.size.value <= MAX_TEXT) || b.count.None? || !(0 <= b.count.value <= MAX_CHUNKS) {
        return;
      }
      if ident !in assemblies && |assemblies| >= MAX_ASSEMBLIES {
        return;
      }
      var a := if ident in assemblies then assemblies[ident].(at := now)
               else Assembly(map[], b.size.value, b.count.value, now);
      assert Fits(a);
      hide WellFormed, Fits, LastKept;
      UpdateFits(assemblies, ident, a);
      assemblies := assemblies[ident := a];
    }

    method Chunk(ident: Ident, b: Body, now: real)
      requires Valid() && b.ChunkIs? && ident in assemblies
      modifies this`assemblies
      ensures Valid() && assemblies == AfterChunk(old(assemblies), ident, b, now)
      ensures ident in assemblies && assemblies == old(assemblies)[ident := assemblies[ident]]
      ensures var a := old(assemblies)[ident].(at := now);
        if && b.index.Some? && 0 <= b.index.value < a.count && b.data.Some? && |b.data.value| <= 32
        then assemblies[ident] == a.(chunks := a.chunks[b.index.value := b.data.value])
        else assemblies[ident] == a
    {
      var a := assemblies[ident].(at := now);
      assert Fits(a);
      hide WellFormed, LastKept;
      UpdateFits(assemblies, ident, a);
      assemblies := assemblies[ident := a];
      if b.index.None? || !(0 <= b.index.value < a.count) {
        return;
      }
      if b.data.None? {
        return;
      }
      if |b.data.value| <= CHUNK {
        var more := a.(chunks := a.chunks[b.index.value := b.data.value]);
        UpdateFits(assemblies, ident, more);
        assemblies := assemblies[ident := more];
      }
    }

    /** Joins and checks the chunks if there are enough. */
    method Judge(a: Assembly, b: Body) returns (outcome: Outcome)
      requires Fits(a) && b.EndWith?
      ensures outcome == OutcomeOf(a, b, hash, isText)
    {
      CountIsComplete(a);
      if |a.chunks| != a.count {
        return Waiting;
      }
      var raw := JoinChunks(a);
      hide Joined, Complete;
      if |raw| == a.size && b.digest == Some(hash(raw)) {
        return if isText(raw) then Verified(raw) else NotText;
      }
      return Mismatch;
    }

    /** An end refreshes the assembly, and closes it when all chunks are there, unless they make no text. */
    method End(ident: Ident, b: Body, now: real)
      requires Valid() && b.EndWith? && ident in assemblies
      modifies this
      ensures Valid()
      ensures var outcome := OutcomeOf(old(assemblies)[ident], b, hash, isText);
        && assemblies == (if outcome.Waiting? || outcome.NotText?
                          then old(assemblies)[ident := old(assemblies)[ident].(at := now)]
                          else old(assemblies) - {ident})
        && appended == old(appended) + if outcome.Verified? then [Text(ident.0, outcome.text)] else []
    {
      var a := assemblies[ident].(at := now);
      assert Fits(a);
      assert OutcomeOf(a, b, hash, isText) == OutcomeOf(assemblies[ident], b, hash, isText);
      hide WellFormed, Fits, OutcomeOf, LastKept;
      UpdateFits(assemblies, ident, a);
      RemovalFits(assemblies[ident := a], ident);
      Replaced(assemblies, ident, a);
      assemblies := assemblies[ident := a];
      var outcome := Judge(a, b);
      if outcome.Waiting? || outcome.NotText? {
        return;
      }
      if outcome.Verified? {
        Append(Text(ident.0, outcome.text));
      }
      assemblies := assemblies - {ident};
    }

    method JoinChunks(a: Assembly) returns (raw: Bytes)
      requires Complete(a)
      ensures raw == Joined(a.chunks, a.count)
    {
      raw := [];
      for i := 0 to a.count
        invariant raw == Joined(a.chunks, i)
      {
        raw := raw + a.chunks[i];
      }
    }

    method Append(text: Text)
      requires LastKept()
      modifies this`messages, this`appended
      ensures LastKept() && appended == old(appended) + [text]
    {
      messages := messages + [text];
      appended := appended + [text];
      if |messages| > MAX_MESSAGES {
        messages := messages[1..];
      }
    }

    method Prune(now: real)
      requires Valid()
      modifies this`assemblies
      ensures Valid() && assemblies == Pruned(old(assemblies), now)
      ensures forall k :: k in assemblies <==> k in old(assemblies) && now - old(assemblies)[k].at < 120.0
      ensures forall k :: k in assemblies ==> assemblies[k] == old(assemblies)[k]
    {
      PrunedSize(assemblies, now);
      assemblies := map k | k in assemblies && now - assemblies[k].at < ASSEMBLY_TIMEOUT :: assemblies[k];
    }
  }

  lemma Replaced(t: Assemblies, k: Ident, a: Assembly)
    requires k in t
    ensures t[k := a] - {k} == t - {k}
  {
  }

  lemma PrunedSize(t: Assemblies, now: real)
    ensures |Pruned(t, now)| <= |t|
  {
    KeysWithin(Pruned(t, now).Keys, t.Keys);
  }

  lemma {:induction false} KeysWithin(s: set<Ident>, u: set<Ident>)
    requires s <= u
    ensures |s| <= |u|
  {
    if s != {} {
      var k :| k in s;
      KeysWithin(s - {k}, u - {k});
    }
  }

  // ---------- Genuine packets of one text ----------

  /** The event is a packet of this text. */
  ghost predicate GenuineBody(b: Body, raw: Bytes, hash: Bytes -> Bytes) {
    match b
    case StartOf(size, count) => size == Some(|raw|) && count == Some(ChunkCount(raw))
    case ChunkIs(index, data) =>
      && index.Some? && 0 <= index.value < ChunkCount(raw) && data == Some(ChunkOf(raw, index.value))
    case EndWith(digest) => digest == Some(hash(raw))
  }

  /** How a packet arrives. */
  function Arriving(c: Content): Option<Body> {
    match c
    case Chat(_) => None
    case Start(size, count) => Some(StartOf(Some(size), Some(count)))
    case Chunk(index, data) => Some(ChunkIs(Some(index), Some(data)))
    case End(digest) => Some(EndWith(Some(digest)))
  }

  /** What the sender builds for a long text is genuine. */
  lemma SentIsGenuine(raw: Bytes, k: nat, hash: Bytes -> Bytes)
    requires MAX_CHAT < |raw| <= MAX_TEXT && k < PacketCount(raw)
    ensures Arriving(ContentAt(raw, hash(raw), k)).Some?
    ensures GenuineBody(Arriving(ContentAt(raw, hash(raw), k)).value, raw, hash)
  {
  }

  /** An assembly holds chunks of this text. */
  ghost predicate Holds(a: Assembly, raw: Bytes) {
    && a.size == |raw| && a.count == ChunkCount(raw)
    && forall i :: i in a.chunks ==> i < a.count && a.chunks[i] == ChunkOf(raw, i)
  }

  ghost predicate HoldsIn(t: Assemblies, k: Ident, raw: Bytes) { k in t ==> Holds(t[k], raw) }

  /** A genuine event keeps the assembly genuine and appends the text exactly when it is an end that finds all chunks;
      an assembly with chunks missing survives it. */
  lemma GenuineEvent(t: Assemblies, e: Event, now: real, hash: Bytes -> Bytes, isText: Bytes -> bool, k: Ident,
                     raw: Bytes)
    requires |raw| <= MAX_TEXT && isText(raw) && HoldsIn(t, k, raw)
    requires IdentOf(e) == Some(k) && GenuineBody(e.body, raw, hash)
    ensures var (t', text) := AfterEvent(t, e, now, hash, isText);
      && HoldsIn(t', k, raw)
      && text == (if e.body.EndWith? && k in t && Complete(t[k]) then Some(Text(k.0, raw)) else None)
      && (k in t && text == None ==> k in t' && t[k].chunks.Keys <= t'[k].chunks.Keys)
      && (k in t && e.body.ChunkIs? ==> t'[k].chunks.Keys == t[k].chunks.Keys + {e.body.index.value})
  {
    hide ChunkOf, Joined, ChunkCount;
    if k in t && Complete(t[k]) {
      ChunksJoin(t[k].chunks, raw);
    }
  }

  /** Events of other texts and other senders leave an assembly alone. */
  lemma OtherEvent(t: Assemblies, e: Event, now: real, hash: Bytes -> Bytes, isText: Bytes -> bool, k: Ident)
    requires IdentOf(e) != Some(k)
    ensures var (t', text) := AfterEvent(t, e, now, hash, isText);
      (k in t <==> k in t') && (k in t ==> t'[k] == t[k])
  {
    hide OutcomeOf, Complete;
  }

  // ---------- Whole runs ----------

  datatype Action = Hear(event: Event, at: real) | Age(at: real)

  ghost function After(t: Assemblies, a: Action, hash: Bytes -> Bytes, isText: Bytes -> bool): (Assemblies,
                       Option<Text>) {
    match a
    case Hear(e, now) => AfterEvent(t, e, now, hash, isText)
    case Age(now) => (Pruned(t, now), None)
  }

  /** The assemblies and, per action, the text it completed. */
  ghost function Play(actions: seq<Action>, hash: Bytes -> Bytes, isText: Bytes -> bool): (r: (Assemblies,
                      seq<Option<Text>>))
    ensures |r.1| == |actions|
  {
    if actions == [] then (map[], [])
    else
      var (t, texts) := Play(actions[..|actions| - 1], hash, isText);
      var (t', text) := After(t, actions[|actions| - 1], hash, isText);
      (t', texts + [text])
  }

  /** The text with this ident comes only in its own packets, in any order and number. */
  ghost predicate GenuineRun(actions: seq<Action>, k: Ident, raw: Bytes, hash: Bytes -> Bytes) {
    forall i :: 0 <= i < |actions| && actions[i].Hear? && IdentOf(actions[i].event) == Some(k) ==>
      GenuineBody(actions[i].event.body, raw, hash)
  }

  lemma {:induction false} RunHolds(actions: seq<Action>, k: Ident, raw: Bytes, hash: Bytes -> Bytes,
                                    isText: Bytes -> bool)
    requires |raw| <= MAX_TEXT && isText(raw) && GenuineRun(actions, k, raw, hash)
    ensures HoldsIn(Play(actions, hash, isText).0, k, raw)
  {
    if actions != [] {
      var front, a := actions[..|actions| - 1], actions[|actions| - 1];
      RunHolds(front, k, raw, hash, isText);
      var t := Play(front, hash, isText).0;
      hide Holds, GenuineBody, AfterEvent;
      if a.Hear? {
        if IdentOf(a.event) == Some(k) {
          GenuineEvent(t, a.event, a.at, hash, isText, k, raw);
        } else {
          OtherEvent(t, a.event, a.at, hash, isText, k);
        }
      }
    }
  }

  /** In every run, whatever is lost, repeated or reordered, each verified text a text's packets complete is that text;
      and it is completed exactly by the ends that find an assembly with all its chunks. */
  lemma VerifiedTextIsSentText(actions: seq<Action>, i: nat, k: Ident, raw: Bytes, hash: Bytes -> Bytes,
                               isText: Bytes -> bool)
    requires |raw| <= MAX_TEXT && isText(raw) && GenuineRun(actions, k, raw, hash)
    requires i < |actions| && actions[i].Hear? && IdentOf(actions[i].event) == Some(k)
    ensures var t := Play(actions[..i], hash, isText).0;
      Play(actions, hash, isText).1[i]
        == if actions[i].event.body.EndWith? && k in t && Complete(t[k]) then Some(Text(k.0, raw)) else None
  {
    RunHolds(actions[..i], k, raw, hash, isText);
    var t := Play(actions[..i], hash, isText).0;
    PlayAt(actions, i, hash, isText);
    hide Play, Holds, GenuineBody, AfterEvent;
    GenuineEvent(t, actions[i].event, actions[i].at, hash, isText, k, raw);
  }

  lemma {:induction false} PlayAt(actions: seq<Action>, i: nat, hash: Bytes -> Bytes, isText: Bytes -> bool)
    requires i < |actions|
    ensures Play(actions, hash, isText).1[i] == After(Play(actions[..i], hash, isText).0, actions[i], hash, isText).1
    decreases |actions|
  {
    hide After;
    var front := actions[..|actions| - 1];
    if i < |actions| - 1 {
      PlayAt(front, i, hash, isText);
      assert front[..i] == actions[..i];
    }
  }
}
