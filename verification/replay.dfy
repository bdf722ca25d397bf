/** The ChessGame component (frontend-src/src/chess_game.js): replay of one
    stored game through an integer cursor `move_ind` in [-1, N-1], where -1 is
    the position before the first move. The shown FEN is recomputed from the
    move list and the cursor alone. chess.js move application is the parameter
    `apply(fen_before, san)`, answering None when the move does not apply. */
module Replay {
  import opened Wrappers
  import opened Fen
  import opened PropSync

  /** One row of the `moves` list the game endpoint returns (the fields the
      component reads). */
  datatype MoveEntry = MoveEntry(turnNo: int, san: string, fenBefore: string)

  /** The component state: the game id prop it holds, the loaded move list (null
      before the first response), the cursor, the shown FEN and the two flags. */
  datatype ReplayState = ReplayState(gameId: Option<int>, moves: Option<seq<MoveEntry>>,
                                     moveInd: int, fen: string, loading: bool, failed: bool)

  /** What `render` shows. */
  datatype View = NoGameSelected | Loading | Failed | Showing

  /** A state change together with the game fetch it starts, if any. */
  datatype Update = Update(state: ReplayState, fetch: Option<int>)

  function Min(a: int, b: int): int { if a <= b then a else b }
  function Max(a: int, b: int): int { if a >= b then a else b }

  /** The position at cursor `ind`, computed from the move list alone: the start
      position for -1, otherwise the stored pre-move FEN with the stored move
      applied. When chess.js rejects the move the board keeps the loaded FEN. */
  function PositionAt(moves: seq<MoveEntry>, ind: int, apply: (string, string) -> Option<string>): string
    requires -1 <= ind < |moves|
  {
    if ind == -1 then StartFen
    else match apply(moves[ind].fenBefore, moves[ind].san)
      case Some(after) => after
      case None => moves[ind].fenBefore
  }

  /** The cursor is in range for the loaded list and the FEN is the one it selects. */
  predicate Valid(s: ReplayState, apply: (string, string) -> Option<string>)
  {
    s.moves.Some? ==> -1 <= s.moveInd < |s.moves.value| && s.fen == PositionAt(s.moves.value, s.moveInd, apply)
  }

  /** The constructor's state for the game id prop. */
  function Init(prop: Option<int>): (s: ReplayState)
    ensures s.gameId == prop && s.moves == None && s.loading && !s.failed
    ensures s.moveInd == -1 && s.fen == StartFen
  {
    ReplayState(prop, None, -1, StartFen, true, false)
  }

  /** `GetGame`: a fetch of the held id, skipped while the id is null. */
  function GetGame(s: ReplayState): (fetch: Option<int>)
    ensures fetch.Some? <==> s.gameId.Some?
    ensures fetch.Some? ==> fetch.value == s.gameId.value
  {
    match s.gameId
    case None => None
    case Some(id) => Some(id)
  }

  /** `componentDidUpdate`: a new id prop is copied into state and fetched; the
      move list, cursor, FEN and flags are left as they were. */
  function OnProps(s: ReplayState, prop: Option<int>): (u: Update)
    ensures u.state.gameId == prop
    ensures u.fetch.Some? <==> s.gameId != prop && prop.Some?
    ensures u.fetch.Some? ==> u.fetch == prop
    ensures u.state.(gameId := s.gameId) == s
  {
    var r := Sync(s.gameId, prop);
    var next := s.(gameId := r.held);
    Update(next, if r.refetch then GetGame(next) else None)
  }

  /** `render`'s choice of what to show. */
  function ViewOf(s: ReplayState): View
  {
    if s.gameId.None? then NoGameSelected
    else if s.loading then Loading
    else if s.failed then Failed
    else Showing
  }

  /** `GoToMove(ind)`: the cursor becomes `ind` and the FEN is recomputed from the
      list; nothing else changes. The index must name a move or be -1, since
      `moves[ind]["fen_before"]` throws otherwise. */
  function GoToMove(s: ReplayState, ind: int, apply: (string, string) -> Option<string>): (r: ReplayState)
    requires s.moves.Some? && -1 <= ind < |s.moves.value|
    ensures r.moveInd == ind
    ensures ind == -1 ==> r.fen == StartFen
    ensures ind >= 0 && apply(s.moves.value[ind].fenBefore, s.moves.value[ind].san).Some? ==>
              r.fen == apply(s.moves.value[ind].fenBefore, s.moves.value[ind].san).value
    ensures Valid(r, apply)
    ensures r.(moveInd := s.moveInd, fen := s.fen) == s
  {
    var fen := if ind != -1 then PositionAt(s.moves.value, ind, apply) else StartFen;
    s.(moveInd := ind, fen := fen)
  }

  /** `NextMove`: one move forward, clamped at the last move. */
  function NextMove(s: ReplayState, apply: (string, string) -> Option<string>): (r: ReplayState)
    requires s.moves.Some? && s.moveInd >= -1
    ensures r.moveInd == Min(s.moveInd + 1, |s.moves.value| - 1)
    ensures -1 <= r.moveInd && Valid(r, apply)
    ensures r.moves == s.moves && r.gameId == s.gameId
  {
    GoToMove(s, Min(s.moveInd + 1, |s.moves.value| - 1), apply)
  }

  /** `PrevMove`: one move back, clamped at -1. The clamped index must still name
      a move of the list, which holds whenever the cursor is at most N. */
  function PrevMove(s: ReplayState, apply: (string, string) -> Option<string>): (r: ReplayState)
    requires s.moves.Some? && -1 <= s.moveInd <= |s.moves.value|
    ensures r.moveInd == Max(-1, s.moveInd - 1)
    ensures r.moveInd < |s.moves.value| && Valid(r, apply)
    ensures r.moves == s.moves && r.gameId == s.gameId
  {
    GoToMove(s, Max(-1, s.moveInd - 1), apply)
  }

  /** `GoToMove` forgets the previous cursor: the shown FEN depends only on the
      move list and the target index. */
  lemma GoToMoveForgetsCursor(s: ReplayState, t: ReplayState, ind: int, apply: (string, string) -> Option<string>)
    requires s.moves.Some? && t.moves == s.moves && -1 <= ind < |s.moves.value|
    ensures GoToMove(s, ind, apply).fen == GoToMove(t, ind, apply).fen
    ensures GoToMove(s, ind, apply).fen == PositionAt(s.moves.value, ind, apply)
  {
  }

  /** `NextMove` pressed `k` times. */
  function Advance(s: ReplayState, k: nat, apply: (string, string) -> Option<string>): (r: ReplayState)
    requires s.moves.Some? && s.moveInd >= -1
    ensures r.moves == s.moves && r.moveInd >= -1
    decreases k
  {
    if k == 0 then s else Advance(NextMove(s, apply), k - 1, apply)
  }

  /** `PrevMove` pressed `k` times. */
  function Retreat(s: ReplayState, k: nat, apply: (string, string) -> Option<string>): (r: ReplayState)
    requires s.moves.Some? && -1 <= s.moveInd <= |s.moves.value|
    ensures r.moves == s.moves && -1 <= r.moveInd < |s.moves.value| + if k == 0 then 1 else 0
    decreases k
  {
    if k == 0 then s else Retreat(PrevMove(s, apply), k - 1, apply)
  }

  /** Pressing "->" `k` times from a valid state moves the cursor to
      min(c + k, N - 1) and keeps the state valid: at the last move the button is
      a no-op, however often it is pressed. */
  lemma {:induction false} AdvanceClamps(s: ReplayState, k: nat, apply: (string, string) -> Option<string>)
    requires s.moves.Some? && Valid(s, apply)
    ensures Advance(s, k, apply).moveInd == Min(s.moveInd + k, |s.moves.value| - 1)
    ensures Valid(Advance(s, k, apply), apply)
    decreases k
  {
    if k > 0 {
      AdvanceClamps(NextMove(s, apply), k - 1, apply);
    }
  }

  /** Pressing "<-" `k` times from a valid state moves the cursor to
      max(-1, c - k) and keeps the state valid: at -1 the button is a no-op. */
  lemma {:induction false} RetreatClamps(s: ReplayState, k: nat, apply: (string, string) -> Option<string>)
    requires s.moves.Some? && Valid(s, apply)
    ensures Retreat(s, k, apply).moveInd == Max(-1, s.moveInd - k)
    ensures Valid(Retreat(s, k, apply), apply)
    decreases k
  {
    if k > 0 {
      RetreatClamps(PrevMove(s, apply), k - 1, apply);
    }
  }

  /** A failed game fetch: the error is recorded and loading ends. */
  function OnFailed(s: ReplayState): (r: ReplayState)
    ensures r.failed && !r.loading
    ensures r.(failed := s.failed, loading := s.loading) == s
  {
    s.(failed := true, loading := false)
  }

  /** A successful game fetch as the component handles it: only the data and the
      loading flag are set; the cursor, the FEN and the error stay. */
  function OnLoadedAsWritten(s: ReplayState, moves: seq<MoveEntry>): (r: ReplayState)
    ensures r.moves == Some(moves) && !r.loading
    ensures r.moveInd == s.moveInd && r.fen == s.fen && r.failed == s.failed
  {
    s.(moves := Some(moves), loading := false)
  }

  /** A successful game fetch with the cursor, FEN and error reset, so that the
      newly loaded game is shown from its start. */
  function OnLoaded(s: ReplayState, moves: seq<MoveEntry>): (r: ReplayState)
    ensures r.moves == Some(moves) && !r.loading && !r.failed
    ensures r.gameId == s.gameId
  {
    s.(moves := Some(moves), loading := false, failed := false, moveInd := -1, fen := StartFen)
  }

  /** After a successful load the state is valid for every move list and the game
      itself is shown, whatever happened before. */
  lemma OnLoadedShowsNewGame(s: ReplayState, moves: seq<MoveEntry>, apply: (string, string) -> Option<string>)
    requires s.gameId.Some?
    ensures Valid(OnLoaded(s, moves), apply)
    ensures ViewOf(OnLoaded(s, moves)) == Showing
    ensures OnLoaded(s, moves).moveInd == -1 && OnLoaded(s, moves).fen == StartFen
  {
  }

  /** As written, selecting a shorter game keeps the old cursor: a valid state at
      move 3 of a four-move game, switched to game 2 with two moves, ends with
      the cursor at 3. The state is no longer valid, and "<-" would ask for
      `moves[2]` of a two-move list. */
  lemma StaleCursorAfterSwitch(apply: (string, string) -> Option<string>)
    ensures var m := MoveEntry(1, "e4", StartFen);
            var s := GoToMove(ReplayState(Some(1), Some([m, m, m, m]), -1, StartFen, false, false), 3, apply);
            var u := OnProps(s, Some(2));
            var loaded := OnLoadedAsWritten(u.state, [m, m]);
            && Valid(s, apply)
            && u.fetch == Some(2)
            && !Valid(loaded, apply)
            && Max(-1, loaded.moveInd - 1) >= |loaded.moves.value|
  {
  }

  /** As written, an error is never cleared: after one failed fetch, a later game
      that loads successfully is still shown as an error. */
  lemma StickyErrorAfterFailure()
    ensures var failed := OnFailed(Init(Some(1)));
            var u := OnProps(failed, Some(2));
            var loaded := OnLoadedAsWritten(u.state, [MoveEntry(1, "e4", StartFen)]);
            && u.fetch == Some(2)
            && loaded.moves.Some?
            && ViewOf(loaded) == Failed
  {
  }
}

/** The move list beside the board (chess_game.js:121-142): the moves are paired
    into numbered rows, the move under the cursor is bold, and clicking a row
    jumps to its first move. */
module MoveList {
  import opened Replay

  datatype Cell = Cell(san: string, bold: bool)

  /** One rendered row: the turn number, the two move cells (the second empty
      when the list ends on a White move) and the index its click handler passes. */
  datatype Row = Row(turnNo: int, white: Cell, black: Cell, target: int)

  /** The row `reduce` pushes for the even index `ind`. */
  function MakeRow(moves: seq<MoveEntry>, moveInd: int, ind: nat): Row
    requires ind < |moves|
  {
    Row(moves[ind].turnNo,
        Cell(moves[ind].san, ind == moveInd),
        Cell(if ind + 1 < |moves| then moves[ind + 1].san else "", ind + 1 == moveInd),
        ind)
  }

  /** The `reduce` over the list from index `ind` on: a row for each even index. */
  function RowsFrom(moves: seq<MoveEntry>, moveInd: int, ind: nat): seq<Row>
    decreases |moves| - ind
  {
    if ind >= |moves| then []
    else (if ind % 2 == 0 then [MakeRow(moves, moveInd, ind)] else []) + RowsFrom(moves, moveInd, ind + 1)
  }

  function Rows(moves: seq<MoveEntry>, moveInd: int): seq<Row>
  {
    RowsFrom(moves, moveInd, 0)
  }

  /** The first even index at or after `ind`. */
  function EvenFrom(ind: nat): nat { if ind % 2 == 0 then ind else ind + 1 }

  lemma {:induction false} RowsFromLength(moves: seq<MoveEntry>, moveInd: int, ind: nat)
    ensures |RowsFrom(moves, moveInd, ind)| == if EvenFrom(ind) >= |moves| then 0 else (|moves| - EvenFrom(ind) + 1) / 2
    decreases |moves| - ind
  {
    if ind < |moves| {
      RowsFromLength(moves, moveInd, ind + 1);
    }
  }

  lemma RowsFromAt(moves: seq<MoveEntry>, moveInd: int, ind: nat, k: nat)
    requires k < |RowsFrom(moves, moveInd, ind)|
    ensures EvenFrom(ind) + 2 * k < |moves|
    ensures RowsFrom(moves, moveInd, ind)[k] == MakeRow(moves, moveInd, EvenFrom(ind) + 2 * k)
  {
    if ind % 2 == 1 {
      RowsFromOdd(moves, moveInd, ind);
      RowsFromEvenAt(moves, moveInd, ind + 1, k);
    } else {
      RowsFromEvenAt(moves, moveInd, ind, k);
    }
  }

  /** An odd index adds no row. */
  lemma RowsFromOdd(moves: seq<MoveEntry>, moveInd: int, ind: nat)
    requires ind % 2 == 1
    ensures RowsFrom(moves, moveInd, ind) == RowsFrom(moves, moveInd, ind + 1)
  {
  }

  lemma {:induction false} RowsFromEvenAt(moves: seq<MoveEntry>, moveInd: int, e: nat, k: nat)
    requires e % 2 == 0 && k < |RowsFrom(moves, moveInd, e)|
    ensures e + 2 * k < |moves|
    ensures RowsFrom(moves, moveInd, e)[k] == MakeRow(moves, moveInd, e + 2 * k)
    decreases |moves| - e
  {
    var rows := RowsFrom(moves, moveInd, e);
    var tail := RowsFrom(moves, moveInd, e + 1);
    assert e < |moves|;
    assert rows == [MakeRow(moves, moveInd, e)] + tail;
    if k > 0 {
      RowsFromOdd(moves, moveInd, e + 1);
      RowsFromEvenAt(moves, moveInd, e + 2, k - 1);
    }
  }

  lemma RowsFromShape(moves: seq<MoveEntry>, moveInd: int, ind: nat)
    ensures |RowsFrom(moves, moveInd, ind)| == if EvenFrom(ind) >= |moves| then 0 else (|moves| - EvenFrom(ind) + 1) / 2
    ensures forall k :: 0 <= k < |RowsFrom(moves, moveInd, ind)| ==>
              EvenFrom(ind) + 2 * k < |moves| &&
              RowsFrom(moves, moveInd, ind)[k] == MakeRow(moves, moveInd, EvenFrom(ind) + 2 * k)
  {
    RowsFromLength(moves, moveInd, ind);
    forall k | 0 <= k < |RowsFrom(moves, moveInd, ind)|
      ensures EvenFrom(ind) + 2 * k < |moves|
      ensures RowsFrom(moves, moveInd, ind)[k] == MakeRow(moves, moveInd, EvenFrom(ind) + 2 * k)
    {
      RowsFromAt(moves, moveInd, ind, k);
    }
  }

  /** There are ceil(N/2) rows; row k shows move 2k and, if it exists, move 2k+1;
      a cell is bold exactly when its move is under the cursor; clicking row k
      jumps to move 2k. */
  lemma RowsLayout(moves: seq<MoveEntry>, moveInd: int)
    ensures |Rows(moves, moveInd)| == (|moves| + 1) / 2
    ensures forall k :: 0 <= k < |Rows(moves, moveInd)| ==>
              var row := Rows(moves, moveInd)[k];
              && row.turnNo == moves[2 * k].turnNo
              && row.white == Cell(moves[2 * k].san, 2 * k == moveInd)
              && row.black.san == (if 2 * k + 1 < |moves| then moves[2 * k + 1].san else "")
              && (row.black.bold <==> 2 * k + 1 == moveInd)
              && row.target == 2 * k
  {
    RowsFromShape(moves, moveInd, 0);
  }

  /** The number of bold cells in a list of rows. */
  function BoldCount(rows: seq<Row>): nat
  {
    if |rows| == 0 then 0
    else (if rows[0].white.bold then 1 else 0) + (if rows[0].black.bold then 1 else 0) + BoldCount(rows[1..])
  }

  lemma {:induction false} BoldCountFrom(moves: seq<MoveEntry>, moveInd: int, ind: nat)
    ensures BoldCount(RowsFrom(moves, moveInd, ind))
            == if EvenFrom(ind) <= moveInd < EvenFrom(ind) + 2 * |RowsFrom(moves, moveInd, ind)| then 1 else 0
    decreases |moves| - ind
  {
    if ind < |moves| {
      BoldCountFrom(moves, moveInd, ind + 1);
      var tail := RowsFrom(moves, moveInd, ind + 1);
      var rows := RowsFrom(moves, moveInd, ind);
      if ind % 2 == 0 {
        var row := MakeRow(moves, moveInd, ind);
        assert rows == [row] + tail;
        assert rows[1..] == tail;
        assert |rows| == |tail| + 1;
        assert EvenFrom(ind + 1) == ind + 2;
        assert BoldCount(rows) == (if ind == moveInd then 1 else 0) + (if ind + 1 == moveInd then 1 else 0) + BoldCount(tail);
      } else {
        assert EvenFrom(ind + 1) == EvenFrom(ind);
        assert rows == tail;
      }
    }
  }

  /** At most one cell is bold; with the cursor on a move exactly one is, and at
      the start position (-1) none is. */
  lemma AtMostOneBold(moves: seq<MoveEntry>, moveInd: int)
    ensures BoldCount(Rows(moves, moveInd)) <= 1
    ensures 0 <= moveInd < |moves| ==> BoldCount(Rows(moves, moveInd)) == 1
    ensures moveInd < 0 ==> BoldCount(Rows(moves, moveInd)) == 0
  {
    BoldCountFrom(moves, moveInd, 0);
    RowsFromLength(moves, moveInd, 0);
  }
}
