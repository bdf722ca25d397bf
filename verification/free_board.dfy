/** The App component (frontend-src/src/App.js): the free-edit board, the
    piece-drop handler and the switch to the game-view tab. The chess.js board
    is a type parameter `B`; its `move` and `fen` methods are passed in as
    functions, with `move` answering None (and leaving the board as it was)
    for an illegal move. */
module FreeBoard {
  import opened Wrappers
  import opened Fen

  datatype Tab = SearchTab | GameViewTab

  /** The argument object of chess.js `move({from, to, promotion})`. */
  datatype MoveRequest = MoveRequest(from: string, to: string, promotion: string)

  /** The App state: the FEN shown on the board, the board object, the game
      selected in the search tab (null until one is clicked) and the open tab. */
  datatype AppState<B> = AppState(fen: string, game: B, currentGame: Option<int>, tab: Tab)

  /** The result of a drop: the new state and the boolean handed back to the board. */
  datatype Drop<B> = Drop(state: AppState<B>, accepted: bool)

  /** The promotion piece every drop asks for. */
  const Queen: string := "q"

  /** The state the constructor builds around the board `new Chess()` returns. */
  function Init<B>(newBoard: B): (s: AppState<B>)
    ensures s.fen == StartFen && s.game == newBoard
    ensures s.currentGame == None && s.tab == SearchTab
  {
    AppState(StartFen, newBoard, None, SearchTab)
  }

  /** The displayed FEN is the sanitised FEN of the board object. */
  predicate Consistent<B>(s: AppState<B>, fenOf: B -> string)
  {
    s.fen == Sanitize(fenOf(s.game))
  }

  /** `onDrop(src, target)`: asks for the move with promotion "q" on a copy of the
      board, stores the copy and its sanitised FEN whatever the outcome, and
      answers whether the move was legal. */
  function OnDrop<B>(s: AppState<B>, src: string, target: string,
                     move: (B, MoveRequest) -> Option<B>, fenOf: B -> string): (r: Drop<B>)
    ensures r.accepted <==> move(s.game, MoveRequest(src, target, Queen)).Some?
    ensures r.accepted ==> r.state.game == move(s.game, MoveRequest(src, target, Queen)).value
    ensures Consistent(r.state, fenOf)
    ensures IsClean(r.state.fen)
    ensures !r.accepted && Consistent(s, fenOf) ==> r.state == s
    ensures r.state.currentGame == s.currentGame && r.state.tab == s.tab
  {
    var res := move(s.game, MoveRequest(src, target, Queen));
    var copy := if res.Some? then res.value else s.game;
    var state := s.(game := copy, fen := Sanitize(fenOf(copy)));
    Drop(state, res.Some?)
  }

  /** `SetCurrentGame(game_id)`: selects the game and opens the game-view tab;
      the board and its FEN are left alone. */
  function SetCurrentGame<B>(s: AppState<B>, id: int): (r: AppState<B>)
    ensures r.currentGame == Some(id) && r.tab == GameViewTab
    ensures r.fen == s.fen && r.game == s.game
  {
    s.(currentGame := Some(id)).(tab := GameViewTab)
  }

  /** Starting from a new board whose FEN is the start position, the App state
      is consistent (DropAllKeepsSelection carries it over any run of drops). */
  lemma InitConsistent<B>(newBoard: B, fenOf: B -> string)
    requires fenOf(newBoard) == StartFen
    ensures Consistent(Init(newBoard), fenOf)
  {
    StartFenIsClean();
  }

  /** A drop sequence: the state after dropping each (from, to) pair in turn. */
  function DropAll<B>(s: AppState<B>, drops: seq<(string, string)>,
                      move: (B, MoveRequest) -> Option<B>, fenOf: B -> string): AppState<B>
    decreases |drops|
  {
    if |drops| == 0 then s
    else DropAll(OnDrop(s, drops[0].0, drops[0].1, move, fenOf).state, drops[1..], move, fenOf)
  }

  /** Drops never change the selected game or tab, and leave a clean, consistent FEN. */
  lemma {:induction false} DropAllKeepsSelection<B>(s: AppState<B>, drops: seq<(string, string)>,
                                                    move: (B, MoveRequest) -> Option<B>, fenOf: B -> string)
    requires Consistent(s, fenOf)
    ensures Consistent(DropAll(s, drops, move, fenOf), fenOf)
    ensures DropAll(s, drops, move, fenOf).currentGame == s.currentGame
    ensures DropAll(s, drops, move, fenOf).tab == s.tab
    decreases |drops|
  {
    if |drops| > 0 {
      DropAllKeepsSelection(OnDrop(s, drops[0].0, drops[0].1, move, fenOf).state, drops[1..], move, fenOf);
    }
  }

  /** Rejected drops are invisible: a sequence of drops that the board all
      rejects leaves a consistent state exactly as it was. */
  lemma {:induction false} RejectedDropsChangeNothing<B>(s: AppState<B>, drops: seq<(string, string)>,
                                                         move: (B, MoveRequest) -> Option<B>, fenOf: B -> string)
    requires Consistent(s, fenOf)
    requires forall i :: 0 <= i < |drops| ==> move(s.game, MoveRequest(drops[i].0, drops[i].1, Queen)).None?
    ensures DropAll(s, drops, move, fenOf) == s
    decreases |drops|
  {
    if |drops| > 0 {
      var next := OnDrop(s, drops[0].0, drops[0].1, move, fenOf).state;
      assert next == s;
      assert forall i :: 0 <= i < |drops[1..]| ==> drops[1..][i] == drops[i + 1];
      RejectedDropsChangeNothing(s, drops[1..], move, fenOf);
    }
  }
}
