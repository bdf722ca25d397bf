/** The ply log that `insert_moves` writes (misc/extract_pgn.py:75-94): for
    each mainline move, the fullmove number and side to move read before the
    move, the move's SAN, and the FEN before and after it. python-chess is
    abstract: the board is its piece placement `P` (a type parameter) plus the
    turn bit and the fullmove counter, and `play`, `fenOf` and `sanOf` are
    parameters. */
module Ingest {
  import Replay
  import opened Wrappers

  /** A python-chess board reduced to what the ply keys depend on. */
  datatype Board<P> = Board(pieces: P, whiteToMove: bool, fullmove: int)

  /** One MOVES row. */
  datatype MoveRow = MoveRow(gameId: int, turnNo: int, whiteToMove: bool, san: string,
                             fenBefore: string, fenAfter: string)

  /** `board.push(move)`: the side to move flips and the fullmove number goes up
      after Black's move (section 16.1.3.6 of the PGN Standard). */
  function Push<P, M>(b: Board<P>, m: M, play: (P, M) -> P): (r: Board<P>)
    ensures r.whiteToMove == !b.whiteToMove
    ensures r.fullmove == if b.whiteToMove then b.fullmove else b.fullmove + 1
  {
    Board(play(b.pieces, m), !b.whiteToMove, if b.whiteToMove then b.fullmove else b.fullmove + 1)
  }

  /** The board after the first `i` moves. */
  function BoardAt<P, M>(start: Board<P>, moves: seq<M>, i: nat, play: (P, M) -> P): Board<P>
    requires i <= |moves|
    decreases i
  {
    if i == 0 then start else Push(BoardAt(start, moves, i - 1, play), moves[i - 1], play)
  }

  /** The loop of `insert_moves`, one row per move, from the board `b`. */
  function InsertMoves<P, M>(gameId: int, b: Board<P>, moves: seq<M>, play: (P, M) -> P,
                             fenOf: Board<P> -> string, sanOf: (Board<P>, M) -> string): (rows: seq<MoveRow>)
    ensures |rows| == |moves|
    decreases |moves|
  {
    if |moves| == 0 then []
    else
      var after := Push(b, moves[0], play);
      [MoveRow(gameId, b.fullmove, b.whiteToMove, sanOf(b, moves[0]), fenOf(b), fenOf(after))]
      + InsertMoves(gameId, after, moves[1..], play, fenOf, sanOf)
  }

  /** The position of a row in play order: two plies per fullmove, White's first. */
  function Ply(r: MoveRow): int
  {
    2 * r.turnNo + if r.whiteToMove then 0 else 1
  }

  /** The ply of a board about to move. */
  function BoardPly<P>(b: Board<P>): int
  {
    2 * b.fullmove + if b.whiteToMove then 0 else 1
  }

  lemma {:induction false} BoardAtPly<P, M>(start: Board<P>, moves: seq<M>, i: nat, play: (P, M) -> P)
    requires i <= |moves|
    ensures BoardPly(BoardAt(start, moves, i, play)) == BoardPly(start) + i
    decreases i
  {
    if i > 0 {
      BoardAtPly(start, moves, i - 1, play);
    }
  }

  lemma {:induction false} BoardAtShift<P, M>(start: Board<P>, moves: seq<M>, i: nat, play: (P, M) -> P)
    requires 0 < |moves| && i < |moves|
    ensures BoardAt(Push(start, moves[0], play), moves[1..], i, play) == BoardAt(start, moves, i + 1, play)
    decreases i
  {
    if i > 0 {
      BoardAtShift(start, moves, i - 1, play);
      assert moves[1..][i - 1] == moves[i];
    }
  }

  /** Row `i` describes move `i` played from the board reached after the first
      `i` moves: its key is that board's fullmove number and turn, read before
      the push, and its FENs are that board's and the next one's. */
  lemma {:induction false} InsertMovesAt<P, M>(gameId: int, start: Board<P>, moves: seq<M>, play: (P, M) -> P,
                                               fenOf: Board<P> -> string, sanOf: (Board<P>, M) -> string, i: nat)
    requires i < |moves|
    ensures var rows := InsertMoves(gameId, start, moves, play, fenOf, sanOf);
            var b := BoardAt(start, moves, i, play);
            rows[i] == MoveRow(gameId, b.fullmove, b.whiteToMove, sanOf(b, moves[i]), fenOf(b),
                               fenOf(BoardAt(start, moves, i + 1, play)))
    decreases |moves|
  {
    if i > 0 {
      var after := Push(start, moves[0], play);
      InsertMovesAt(gameId, after, moves[1..], play, fenOf, sanOf, i - 1);
      BoardAtShift(start, moves, i - 1, play);
      BoardAtShift(start, moves, i, play);
      assert moves[1..][i - 1] == moves[i];
    }
  }

  /** The rows chain: the first starts from the game's start board, each ends
      where the next begins, and their plies count up by one from the start
      board's, so the (turn_no, white_to_move) keys are pairwise distinct, as
      the MOVES primary key demands. */
  lemma InsertMovesChain<P, M>(gameId: int, start: Board<P>, moves: seq<M>, play: (P, M) -> P,
                               fenOf: Board<P> -> string, sanOf: (Board<P>, M) -> string)
    ensures var rows := InsertMoves(gameId, start, moves, play, fenOf, sanOf);
      && (|rows| > 0 ==> rows[0].fenBefore == fenOf(start))
      && (forall i :: 0 <= i < |rows| - 1 ==> rows[i].fenAfter == rows[i + 1].fenBefore)
      && (forall i :: 0 <= i < |rows| ==> Ply(rows[i]) == BoardPly(start) + i && rows[i].gameId == gameId)
      && (forall i, j :: 0 <= i < j < |rows| ==> (rows[i].turnNo, rows[i].whiteToMove) != (rows[j].turnNo, rows[j].whiteToMove))
  {
    var rows := InsertMoves(gameId, start, moves, play, fenOf, sanOf);
    forall i | 0 <= i < |rows|
      ensures Ply(rows[i]) == BoardPly(start) + i && rows[i].gameId == gameId
      ensures rows[i].fenBefore == fenOf(BoardAt(start, moves, i, play))
      ensures rows[i].fenAfter == fenOf(BoardAt(start, moves, i + 1, play))
    {
      InsertMovesAt(gameId, start, moves, play, fenOf, sanOf, i);
      BoardAtPly(start, moves, i, play);
    }
    forall i, j | 0 <= i < j < |rows|
      ensures (rows[i].turnNo, rows[i].whiteToMove) != (rows[j].turnNo, rows[j].whiteToMove)
    {
      assert Ply(rows[i]) < Ply(rows[j]);
    }
  }

  /** `ORDER BY turn_no, white_to_move DESC` (backend-src/server.py:70-71): the
      key comparison the read-back sorts by. */
  predicate KeyBefore(a: MoveRow, b: MoveRow)
  {
    a.turnNo < b.turnNo || (a.turnNo == b.turnNo && a.whiteToMove && !b.whiteToMove)
  }

  /** The sort key is play order. */
  lemma KeyBeforeIsPlyOrder(a: MoveRow, b: MoveRow)
    ensures KeyBefore(a, b) <==> Ply(a) < Ply(b)
  {
  }

  /** True iff no row sorts after a later one: how the read-back arrives. */
  predicate SortedByKey(rows: seq<MoveRow>)
  {
    forall i, j :: 0 <= i < j < |rows| ==> !KeyBefore(rows[j], rows[i])
  }

  /** Reading the rows of one game back in key order gives them in play order:
      any arrangement of the inserted rows that is sorted by the key is the
      inserted sequence itself. */
  lemma ReadBackIsPlayOrder<P, M>(gameId: int, start: Board<P>, moves: seq<M>, play: (P, M) -> P,
                                  fenOf: Board<P> -> string, sanOf: (Board<P>, M) -> string, out: seq<MoveRow>)
    requires multiset(out) == multiset(InsertMoves(gameId, start, moves, play, fenOf, sanOf))
    requires SortedByKey(out)
    ensures out == InsertMoves(gameId, start, moves, play, fenOf, sanOf)
  {
    var rows := InsertMoves(gameId, start, moves, play, fenOf, sanOf);
    InsertMovesChain(gameId, start, moves, play, fenOf, sanOf);
    SortedUnique(out, rows);
  }

  /** Two arrangements of the same rows, one in strictly increasing ply order and
      the other sorted by the key, are equal. */
  lemma {:induction false} SortedUnique(out: seq<MoveRow>, rows: seq<MoveRow>)
    requires multiset(out) == multiset(rows)
    requires forall i, j :: 0 <= i < j < |rows| ==> Ply(rows[i]) < Ply(rows[j])
    requires SortedByKey(out)
    ensures out == rows
    decreases |rows|
  {
    assert |out| == |multiset(out)| == |multiset(rows)| == |rows|;
    if |rows| > 0 {
      SameHead(out, rows);
      MultisetTail(out);
      MultisetTail(rows);
      SortedUnique(out[1..], rows[1..]);
      assert out == [out[0]] + out[1..];
      assert rows == [rows[0]] + rows[1..];
    }
  }

  /** The first row of both arrangements is the one with the least ply. */
  lemma SameHead(out: seq<MoveRow>, rows: seq<MoveRow>)
    requires multiset(out) == multiset(rows) && |rows| > 0
    requires forall i, j :: 0 <= i < j < |rows| ==> Ply(rows[i]) < Ply(rows[j])
    requires SortedByKey(out)
    ensures |out| > 0 && out[0] == rows[0]
  {
    assert rows[0] in multiset(out);
    assert rows[0] in out;
    assert out[0] in multiset(rows);
    var a :| 0 <= a < |out| && out[a] == rows[0];
    var b :| 0 <= b < |rows| && rows[b] == out[0];
    assert a == 0 || !KeyBefore(out[a], out[0]);
    assert Ply(out[0]) <= Ply(rows[0]);
    assert b == 0;
  }

  lemma MultisetTail<T>(s: seq<T>)
    requires |s| > 0
    ensures multiset(s[1..]) == multiset(s) - multiset{s[0]}
  {
    assert s == [s[0]] + s[1..];
  }

  /** The rows as the game endpoint hands them to the ChessGame component. */
  function Entries(rows: seq<MoveRow>): (es: seq<Replay.MoveEntry>)
    ensures |es| == |rows|
    ensures forall i :: 0 <= i < |rows| ==> es[i] == Replay.MoveEntry(rows[i].turnNo, rows[i].san, rows[i].fenBefore)
  {
    seq(|rows|, i requires 0 <= i < |rows| => Replay.MoveEntry(rows[i].turnNo, rows[i].san, rows[i].fenBefore))
  }

  /** When chess.js applies each stored move as python-chess played it, stepping
      the replay cursor to move i shows the position from which move i + 1 was
      played, and the last step shows the final position of the game. */
  lemma ReplayFollowsIngest<P, M>(gameId: int, start: Board<P>, moves: seq<M>, play: (P, M) -> P,
                                  fenOf: Board<P> -> string, sanOf: (Board<P>, M) -> string,
                                  apply: (string, string) -> Option<string>)
    requires forall b: Board<P>, m: M :: apply(fenOf(b), sanOf(b, m)) == Some(fenOf(Push(b, m, play)))
    ensures var rows := InsertMoves(gameId, start, moves, play, fenOf, sanOf);
      && (forall i :: 0 <= i < |rows| - 1 ==> Replay.PositionAt(Entries(rows), i, apply) == rows[i + 1].fenBefore)
      && (|rows| > 0 ==> Replay.PositionAt(Entries(rows), |rows| - 1, apply) == fenOf(BoardAt(start, moves, |moves|, play)))
  {
    var rows := InsertMoves(gameId, start, moves, play, fenOf, sanOf);
    InsertMovesChain(gameId, start, moves, play, fenOf, sanOf);
    forall i | 0 <= i < |rows|
      ensures Replay.PositionAt(Entries(rows), i, apply) == fenOf(BoardAt(start, moves, i + 1, play))
    {
      InsertMovesAt(gameId, start, moves, play, fenOf, sanOf, i);
      var b := BoardAt(start, moves, i, play);
      assert apply(fenOf(b), sanOf(b, moves[i])) == Some(fenOf(Push(b, moves[i], play)));
    }
    forall i | 0 <= i < |rows| - 1
      ensures Replay.PositionAt(Entries(rows), i, apply) == rows[i + 1].fenBefore
    {
      InsertMovesAt(gameId, start, moves, play, fenOf, sanOf, i + 1);
    }
  }
}
