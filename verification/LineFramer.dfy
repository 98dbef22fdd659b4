/** The bounded line framer of the serial transport. It works on chunks and on the pieces into which
    they split, yet what it does depends only on the bytes. */
module LineFramer {
  import opened Octets

  type Line = seq<Octet>

  const LF: Octet := 10
  const CR: Octet := 13

  predicate EndsWithLf(s: Line) { s != [] && s[|s| - 1] == LF }

  /** Drops all trailing CR and LF. */
  function Stripped(s: Line): Line {
    if s != [] && (s[|s| - 1] == CR || s[|s| - 1] == LF) then Stripped(s[..|s| - 1]) else s
  }

  /** Exactly the CR and LF after the last other byte go. */
  lemma {:induction false} StrippedIs(s: Line)
    ensures Stripped(s) <= s && forall i :: |Stripped(s)| <= i < |s| ==> s[i] == 13 || s[i] == 10
    ensures Stripped(s) != [] ==> s[|Stripped(s)| - 1] != 13 && s[|Stripped(s)| - 1] != 10
    decreases |s|
  {
    if s != [] && (s[|s| - 1] == CR || s[|s| - 1] == LF) {
      StrippedIs(s[..|s| - 1]);
    }
  }

  // ---------- Splitting a chunk after CR, LF and CR LF ----------

  function PieceLength(data: Line): (n: nat)
    requires data != []
    ensures 1 <= n <= |data|
    ensures forall i :: 0 <= i < n - 1 ==> data[i] != LF
  {
    if data[0] == LF then 1
    else if data[0] == CR then (if |data| > 1 && data[1] == LF then 2 else 1)
    else if |data| == 1 then 1
    else 1 + PieceLength(data[1..])
  }

  function SplitLines(data: Line): (parts: seq<Line>) {
    if data == [] then [] else [data[..PieceLength(data)]] + SplitLines(data[PieceLength(data)..])
  }

  /** A piece ends after its only LF or CR, of which CR LF count as one. */
  ghost predicate IsPiece(part: Line, rest: Line) {
    && part != [] && (forall i :: 0 <= i < |part| - 1 ==> part[i] != 10)
    && (forall i :: 0 <= i < |part| - 1 && part[i] == 13 ==> i == |part| - 2 && part[|part| - 1] == 10)
    && (rest != [] ==>
          part[|part| - 1] == 10 || (part[|part| - 1] == 13 && rest[0] != 10))
  }

  lemma {:induction false} PieceIs(data: Line)
    requires data != []
    ensures IsPiece(data[..PieceLength(data)], data[PieceLength(data)..])
    decreases |data|
  {
    if data[0] != LF && data[0] != CR && |data| > 1 {
      var n := PieceLength(data[1..]);
      PieceIs(data[1..]);
      hide PieceLength;
      assert data[n + 1..] == data[1..][n..];
      assert data[..n + 1] == [data[0]] + data[1..][..n];
      LongerPiece(data[0], data[1..][..n], data[n + 1..]);
    }
  }

  lemma LongerPiece(b: Octet, part: Line, rest: Line)
    requires b != 10 && b != 13 && IsPiece(part, rest)
    ensures IsPiece([b] + part, rest)
  {
    var more := [b] + part;
    forall i | 0 < i < |more|
      ensures more[i] == part[i - 1]
    {
    }
  }

  // ---------- The state of the framer, and one byte at a time ----------

  datatype State = State(buffer: Line, discarding: bool, dropped: nat, lines: seq<Line>)

  const START := State([], false, 0, [])

  /** What one byte does. */
  function ByteStep(limit: nat, st: State, b: Octet): State {
    if st.discarding then
      st.(discarding := b != LF)
    else
      var buffer := st.buffer + [b];
      if |buffer| > limit then st.(buffer := [], dropped := st.dropped + 1, discarding := b != LF)
      else if b == LF then st.(buffer := [], lines := st.lines + [Stripped(buffer)])
      else st.(buffer := buffer)
  }

  function Fed(limit: nat, st: State, data: Line): State {
    if data == [] then st else ByteStep(limit, Fed(limit, st, data[..|data| - 1]), data[|data| - 1])
  }

  /** Feeding is a homomorphism: how a stream is cut into chunks does not matter. */
  lemma {:induction false} FedAppend(limit: nat, st: State, a: Line, b: Line)
    ensures Fed(limit, st, a + b) == Fed(limit, Fed(limit, st, a), b)
    decreases |b|
  {
    if b == [] {
      assert a + b == a;
    } else {
      var m := |b| - 1;
      assert (a + b)[..|a + b| - 1] == a + b[..m];
      FedAppend(limit, st, a, b[..m]);
    }
  }

  // ---------- What one piece does ----------

  function PieceStep(limit: nat, st: State, part: Line): State {
    if st.discarding then
      if EndsWithLf(part) then st.(discarding := false) else st
    else
      var buffer := st.buffer + part;
      if |buffer| > limit then
        st.(buffer := [], dropped := st.dropped + 1, discarding := !EndsWithLf(part))
      else if EndsWithLf(part) then st.(buffer := [], lines := st.lines + [Stripped(buffer)])
      else st.(buffer := buffer)
  }

  /** A piece has the effect of its bytes. */
  lemma {:induction false} PieceIsItsBytes(limit: nat, st: State, part: Line)
    requires |st.buffer| <= limit && part != []
    requires forall i :: 0 <= i < |part| - 1 ==> part[i] != LF
    ensures PieceStep(limit, st, part) == Fed(limit, st, part)
  {
    var m := |part| - 1;
    var front := part[..m];
    if m == 0 {
      assert front == [];
      assert part == [part[0]];
    } else {
      PieceIsItsBytes(limit, st, front);
      assert st.buffer + part == (st.buffer + front) + [part[m]];
    }
  }

  lemma PieceKeepsLimit(limit: nat, st: State, part: Line)
    requires |st.buffer| <= limit
    ensures |PieceStep(limit, st, part).buffer| <= limit
  {
  }

  lemma {:induction false} SplitLinesJoin(data: Line, limit: nat, st: State, parts: seq<Line>)
    requires parts == SplitLines(data) && |st.buffer| <= limit
    ensures PiecesStep(limit, st, parts) == Fed(limit, st, data)
    ensures |PiecesStep(limit, st, parts).buffer| <= limit
    decreases |data|
  {
    hide PieceStep, PiecesStep, SplitLines, PieceLength, Fed;
    if data == [] {
      NoPieces(limit, st);
    } else {
      FirstPiece(data);
      var first, rest := data[..PieceLength(data)], data[PieceLength(data)..];
      var next := PieceStep(limit, st, first);
      PiecesFromFirst(limit, st, parts);
      PieceKeepsLimit(limit, st, first);
      SplitLinesJoin(rest, limit, next, parts[1..]);
      PieceIsItsBytes(limit, st, first);
      FedAppend(limit, st, first, rest);
      assert first + rest == data;
    }
  }

  lemma NoPieces(limit: nat, st: State)
    ensures PiecesStep(limit, st, SplitLines([])) == st == Fed(limit, st, [])
  {
  }

  lemma PiecesFromFirst(limit: nat, st: State, parts: seq<Line>)
    requires parts != []
    ensures PiecesStep(limit, st, parts) == PiecesStep(limit, PieceStep(limit, st, parts[0]), parts[1..])
  {
    hide PieceStep;
  }

  lemma FirstPiece(data: Line)
    requires data != []
    ensures SplitLines(data) != [] && SplitLines(data)[0] == data[..PieceLength(data)]
    ensures SplitLines(data)[1..] == SplitLines(data[PieceLength(data)..])
  {
    hide PieceLength;
  }

  function PiecesStep(limit: nat, st: State, parts: seq<Line>): State
    decreases |parts|
  {
    if parts == [] then st else PiecesStep(limit, PieceStep(limit, st, parts[0]), parts[1..])
  }

  lemma {:induction false} PiecesStepLast(limit: nat, st: State, parts: seq<Line>, k: nat)
    requires k < |parts|
    ensures PiecesStep(limit, st, parts[..k + 1]) == PieceStep(limit, PiecesStep(limit, st, parts[..k]), parts[k])
    decreases k
  {
    assert parts[..k + 1][0] == parts[0];
    if k > 0 {
      var next := PieceStep(limit, st, parts[0]);
      assert parts[..k + 1][1..] == parts[1..][..k];
      assert parts[..k][1..] == parts[1..][..k - 1];
      PiecesStepLast(limit, next, parts[1..], k - 1);
    } else {
      assert parts[..1][1..] == [];
    }
  }

  // ---------- The framer itself ----------

  class LineBuffer {
    const limit: nat
    var buffer: Line
    var discarding: bool
    var dropped: nat

    ghost predicate Valid()
      reads this
    {
      |buffer| <= limit
    }

    ghost function View(): State
      reads this
    {
      State(buffer, discarding, dropped, [])
    }

    constructor (limit: nat)
      ensures Valid() && this.limit == limit && View() == START
    {
      this.limit := limit;
      buffer, discarding, dropped := [], false, 0;
    }

    /** The lines returned and the new state are those of feeding the bytes one by one. */
    method Feed(data: Line) returns (lines: seq<Line>)
      requires Valid()
      modifies this
      ensures Valid()
      ensures View().(lines := lines) == Fed(limit, old(View()), data)
    {
      lines := [];
      var parts := SplitLines(data);
      ghost var st := View();
      SplitLinesJoin(data, limit, st, parts);
      for k := 0 to |parts|
        invariant |buffer| <= limit
        invariant View().(lines := lines) == PiecesStep(limit, st, parts[..k])
      {
        var part := parts[k];
        PiecesStepLast(limit, st, parts, k);
        if discarding {
          if EndsWithLf(part) {
            discarding := false;
          }
          continue;
        }
        buffer := buffer + part;
        if |buffer| > limit {
          buffer := [];
          dropped := dropped + 1;
          discarding := !EndsWithLf(part);
          continue;
        }
        if EndsWithLf(part) {
          lines := lines + [Stripped(buffer)];
          buffer := [];
        }
      }
      assert parts[..|parts|] == parts;
    }
  }

  // ---------- What the framer means, on a whole stream ----------

  /** The complete lines of a stream, each with its LF. */
  function CompleteLines(data: Line): seq<Line> {
    if data == [] then []
    else
      var d := data[..|data| - 1];
      if data[|data| - 1] == LF then CompleteLines(d) + [Unfinished(d) + [LF]] else CompleteLines(d)
  }

  /** What follows the last LF. */
  function Unfinished(data: Line): Line {
    if data == [] || data[|data| - 1] == LF then [] else Unfinished(data[..|data| - 1]) + [data[|data| - 1]]
  }

  function Concat(ls: seq<Line>): Line {
    if ls == [] then [] else Concat(ls[..|ls| - 1]) + ls[|ls| - 1]
  }

  ghost predicate IsLine(l: Line) { EndsWithLf(l) && LF !in l[..|l| - 1] }

  /** The complete lines and the unfinished one make up the stream. */
  lemma {:induction false} LinesRejoin(data: Line)
    ensures Concat(CompleteLines(data)) + Unfinished(data) == data
  {
    if data != [] {
      var d, b := data[..|data| - 1], data[|data| - 1];
      LinesRejoin(d);
      assert data == d + [b];
      AppendByte(Concat(CompleteLines(d)), Unfinished(d), d, b);
      if b == LF {
        ConcatLast(CompleteLines(d), Unfinished(d) + [LF]);
      }
    }
  }

  lemma AppendByte(c: Line, u: Line, d: Line, b: Octet)
    requires c + u == d
    ensures c + (u + [b]) == d + [b] == (c + (u + [b])) + []
  {
  }

  /** LF occurs where complete lines end, and nowhere else. */
  lemma {:induction false} LinesEndAtLf(data: Line)
    ensures LF !in Unfinished(data)
    ensures forall i :: 0 <= i < |CompleteLines(data)| ==> IsLine(CompleteLines(data)[i])
  {
    if data != [] {
      var d := data[..|data| - 1];
      LinesEndAtLf(d);
      var l := Unfinished(d) + [LF];
      assert l[..|l| - 1] == Unfinished(d);
    }
  }

  lemma ConcatLast(ls: seq<Line>, l: Line)
    ensures Concat(ls + [l]) == Concat(ls) + l
  {
    assert (ls + [l])[..|ls|] == ls;
  }

  function Kept(limit: nat, ls: seq<Line>): seq<Line> {
    if ls == [] then []
    else
      var l := ls[|ls| - 1];
      Kept(limit, ls[..|ls| - 1]) + if |l| <= limit then [Stripped(l)] else []
  }

  function Oversized(limit: nat, ls: seq<Line>): nat {
    if ls == [] then 0
    else Oversized(limit, ls[..|ls| - 1]) + if |ls[|ls| - 1]| <= limit then 0 else 1
  }

  /** The framer emits exactly the complete lines within the limit, stripped and in order; counts each
      oversized line once, the unfinished one included; and retains the unfinished line unless it is
      oversized, in which case it discards up to the next LF. */
  lemma {:induction false} FramerMeaning(limit: nat, data: Line)
    ensures var rest := Unfinished(data);
      Fed(limit, START, data) == State(
        if |rest| <= limit then rest else [],
        |rest| > limit,
        Oversized(limit, CompleteLines(data)) + (if |rest| <= limit then 0 else 1),
        Kept(limit, CompleteLines(data)))
  {
    if data != [] {
      var d := data[..|data| - 1];
      FramerMeaning(limit, d);
      if data[|data| - 1] == LF {
        assert CompleteLines(data)[..|CompleteLines(d)|] == CompleteLines(d);
      }
    }
  }
}
