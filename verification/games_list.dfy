/** The GamesList component (frontend-src/src/games_list.js): it holds the FEN
    of the main board, fetches the games through the URL `GetGames` builds,
    refetches with default arguments when the FEN prop changes, and hands the
    id of a clicked row to the App. A fetch is represented by the URL it
    requests; responses arrive as separate events. */
module GamesList {
  import opened Wrappers
  import opened GamesUrl
  import opened PropSync
  import FreeBoard
  import Replay

  /** The fields of one game of the `get_games` response that the table reads. */
  datatype GameSummary = GameSummary(id: int, whitePlayer: string, whiteElo: int,
                                     blackPlayer: string, blackElo: int, date: string, outcome: string)

  /** The component state; `failed` stands for the `error` key the catch sets. */
  datatype ListState = ListState(fen: string, games: seq<GameSummary>, loading: bool, failed: bool)

  /** A state change and the URL it fetches, if any. */
  datatype Step = Step(state: ListState, fetch: Option<string>)

  /** What `render` shows; `form` says whether the GameSearch form is part of it. */
  datatype ListView = ListLoading | NoGames | Table(rows: seq<GameSummary>, form: bool)

  function Init(prop: string): (s: ListState)
    ensures s.fen == prop && s.games == [] && s.loading && !s.failed
  {
    ListState(prop, [], true, false)
  }

  /** `componentDidMount`: `GetGames()` with every argument at its default. */
  function Mount(s: ListState): (st: Step)
    ensures st.state == s
    ensures st.fetch == Some(BuildUrl(s.fen, Defaults()))
  {
    Step(s, Some(BuildUrl(s.fen, Defaults())))
  }

  /** The form's submit handler `GetGames(...)` with the user's arguments. */
  function Search(s: ListState, a: SearchArgs): (st: Step)
    ensures st.state == s
    ensures st.fetch == Some(BuildUrl(s.fen, a))
  {
    Step(s, Some(BuildUrl(s.fen, a)))
  }

  /** `componentDidUpdate`: when the FEN prop differs from the held one, hold it,
      show the loading text and call `GetGames` without arguments, which drops
      any filters the user had submitted. */
  function OnProps(s: ListState, prop: string): (st: Step)
    ensures st.state.fen == prop
    ensures st.fetch.Some? <==> s.fen != prop
    ensures st.fetch.Some? ==> st.fetch.value == BuildUrl(prop, Defaults()) && st.state.loading
    ensures st.fetch.None? ==> st.state == s
    ensures st.state.games == s.games && st.state.failed == s.failed
  {
    var r := Sync(s.fen, prop);
    if r.refetch then Step(s.(fen := r.held, loading := true), Some(BuildUrl(r.held, Defaults())))
    else Step(s, None)
  }

  /** The response of a fetch: the games replace the list. */
  function OnData(s: ListState, games: seq<GameSummary>): (r: ListState)
    ensures r.games == games && !r.loading
    ensures r.fen == s.fen && r.failed == s.failed
  {
    s.(games := games, loading := false)
  }

  /** The catch of a fetch: the error is recorded, loading ends and the list is
      left as it was. */
  function OnErrorAsWritten(s: ListState): (r: ListState)
    ensures r.failed && !r.loading
    ensures r.games == s.games && r.fen == s.fen
  {
    s.(failed := true, loading := false)
  }

  /** `render` as written: the loading text, the "no games" text when the list is
      empty, else the GameSearch form above the table. The error is not consulted. */
  function ViewAsWritten(s: ListState): (v: ListView)
    ensures v.Table? <==> !s.loading && |s.games| > 0
    ensures v.Table? ==> v.rows == s.games && v.form
  {
    if s.loading then ListLoading
    else if |s.games| == 0 then NoGames
    else Table(s.games, true)
  }

  /** True iff the view offers the search form, so the user can submit a search. */
  predicate FormShown(v: ListView)
  {
    v.Table? && v.form
  }

  /** A search that matches no game takes the form off the page: the user cannot
      submit another search for that position. */
  lemma EmptyResultHidesForm(s: ListState, a: SearchArgs)
    ensures Search(s, a).state == s
    ensures !FormShown(ViewAsWritten(OnData(Search(s, a).state, [])))
  {
  }

  /** A failed fetch leaves the previous list on show: after the FEN prop changes
      and the fetch for the new position fails, the table lists the games found
      for the old position under the new one. */
  lemma FailureShowsStaleGames(s: ListState, prop: string)
    requires s.fen != prop && |s.games| > 0
    ensures var t := OnErrorAsWritten(OnProps(s, prop).state);
            t.fen == prop && ViewAsWritten(t) == Table(s.games, true)
  {
  }

  /** The corrected catch: a failed fetch empties the list as well. */
  function OnError(s: ListState): (r: ListState)
    ensures r.failed && !r.loading && r.games == [] && r.fen == s.fen
  {
    s.(failed := true, loading := false, games := [])
  }

  /** The corrected `render`: the form is shown whenever loading has finished,
      the table only for the games of the latest successful fetch. */
  function View(s: ListState): (v: ListView)
    ensures v.Table? <==> !s.loading
    ensures v.Table? ==> v.rows == s.games && v.form
  {
    if s.loading then ListLoading else Table(s.games, true)
  }

  /** With the corrections the user can search again after any response, and a
      failure never shows games: every game on show came from a successful fetch
      for the held position (the rows of `OnData` for that FEN). */
  lemma CorrectedViewProperties(s: ListState, games: seq<GameSummary>, a: SearchArgs, prop: string)
    ensures FormShown(View(OnData(Search(s, a).state, games)))
    ensures FormShown(View(OnError(s)))
    ensures View(OnError(OnProps(s, prop).state)) == Table([], true)
  {
  }

  /** A click on row k: the row's id goes to the App's `SetCurrentGame`. */
  function Click(s: ListState, k: nat): (id: int)
    requires k < |s.games|
    ensures id == s.games[k].id
  {
    s.games[k].id
  }

  /** Clicking a listed game opens the game-view tab on that game without
      touching the board, and the ChessGame component, on its next update,
      fetches exactly that game unless it already holds it. */
  lemma ClickOpensGame<B>(s: ListState, k: nat, app: FreeBoard.AppState<B>, replay: Replay.ReplayState)
    requires k < |s.games|
    ensures var app' := FreeBoard.SetCurrentGame(app, Click(s, k));
            && app'.tab == FreeBoard.GameViewTab
            && app'.currentGame == Some(s.games[k].id)
            && app'.fen == app.fen
            && Replay.OnProps(replay, app'.currentGame).fetch
               == (if replay.gameId == Some(s.games[k].id) then None else Some(s.games[k].id))
  {
  }

  /** Any run of FEN props leaves the list holding the last one, with one fetch
      per change, each asking for the position with no filters. */
  lemma PropRunFetchesPerChange(fen: string, props: seq<string>)
    ensures SyncAll(fen, props).1 == Changes(fen, props)
    ensures |props| > 0 ==> SyncAll(fen, props).0 == props[|props| - 1]
  {
    SyncAllCountsChanges(fen, props);
  }
}
