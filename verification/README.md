# Chess DB — a Dafny model

Chess DB is a small web application over a database of chess games. It has three parts:

- **Ingest script** (`misc/extract_pgn.py`): reads PGN files into SQLite tables. The tables are PLAYERS, EVENTS, GAMES, MOVES and RATINGS.
- **Server** (`backend-src/server.py`): a FastAPI server over the same schema. It offers four endpoints:
  - the most played moves from a position (`get_moves`);
  - the games that reached a position, under optional filters (`get_games`);
  - outcome tallies per rating band (`get_outcomes_by_elo`);
  - one game with its moves (`get_game`).
- **Front end** (`frontend-src/src`): a React front end.
  - The App holds a free-edit board whose FEN is sanitised before it is published.
  - MovesTable, GamesList (with its GameSearch form) and the ELO graph fetch data for the published FEN.
  - Clicking a listed game opens it in ChessGame, which replays it move by move.

The project models that core as pure functions over immutable datatypes:

| module (file) | models |
|---|---|
| `Wrappers` (wrappers.dfy) | `Option` (null/None) and `Result` |
| `Strings` (strings.dfy) | JavaScript `split(' ')` / `join(' ')` on one-character separators |
| `Fen` (fen.dfy) | `sanitizeFen` |
| `FreeBoard` (free_board.dfy) | the App component: constructor, `onDrop`, `SetCurrentGame` |
| `Replay`, `MoveList` (replay.dfy) | ChessGame: `GetGame`, prop sync, `GoToMove` / `NextMove` / `PrevMove`, fetch callbacks, the paired move list |
| `PropSync` (prop_sync.dfy) | the `componentDidUpdate` rule the data components share |
| `SearchForm` (search_form.dfy) | GameSearch: the form record, its change handlers, the submit argument order |
| `GamesUrl` (games_url.dfy) | `GetGames` URL construction and a query-string reader as its partner |
| `GamesList` (games_list.dfy) | GamesList: mount, prop sync, fetch callbacks, render choice, row click |
| `QueryBinding` (query_binding.dfy) | binding the decoded query to `get_games`'s typed parameters |
| `SqlLike` (sql_like.dfy) | SQL `LIKE` as the name and result filters use it |
| `GamesQuery` (games_query.dfy) | the `get_games` query builder and the rows its WHERE clause admits |
| `SearchPipeline` (search_pipeline.dfy) | form → URL → binding → SQL, end to end |
| `TopMoves` (top_moves.dfy) | `get_moves`: grouping, counting, ordering, limit |
| `EloBands` (elo_bands.dfy) | `get_outcomes_by_elo`: the band formula, the join condition, the grouping |
| `MovesTable` (moves_table.dfy) | MovesTable: the rounded percentage cells and the prop sync |
| `Ingest` (ingest.dfy) | `insert_moves` and the `get_game` read-back order |
| `IngestDb` (ingest_db.dfy) | get-or-insert of ids, `insert_game`, the load loop and its skip filter |

### How external code is handled

- **Chess engines are parameters.** chess.js and python-chess appear as function-typed parameters:
  - `move` and `fenOf` of the free board;
  - `apply(fen, san)` of the replay;
  - `play`, `fenOf` and `sanOf` of the ingest board.
- **Fetches are outputs and events.** A fetch is the URL (or game id) a step returns. The response, or the failure, is a separate event function (`OnData`, `OnLoaded`, `OnFailed`, ...).
- **SQLite tables are sequences.** The row with id k is element k − 1. This is what SQLite's rowid assignment gives for a table nobody deletes from.

### Where the model follows the code rather than the documented intent

- **A blank ELO bound.** The comments at frontend-src/src/games_list.js:42-45 and backend-src/server.py:78-82 say a blank filter means the user does not care about that field. An emptied number box sends "" instead of null. FastAPI's `int` parameter refuses "", so the whole request fails rather than ignoring the field. A bound that is not an integer is refused the same way.
  - Members: `QueryBinding.Bind`, `QueryBinding.EmptyEloRefused`, `SearchPipeline.SubmitReachesServer`.
- **The ELO band edges.** The comment at backend-src/server.py:166-173 groups "all ELOs between 2000 and 2199". The query's strict `b.elo >` leaves out a Black rating on the band's lower edge. `EloBands.OutcomesByElo(AsWritten, ..)` is the endpoint as written; `Intended` is the rule the comment describes (see Findings).

### Other behaviour the model keeps

- **Responses are applied as they arrive.** Nothing checks that a response is for the position still current, so `OnData` has no such check.
- **A stored move chess.js cannot apply.** It is not reported as an error. chess.js leaves the position loaded, so the board shows the FEN before the move.
  - Member: `Replay.PositionAt`.

## Model

| member | source | states |
|---|---|---|
| Strings.Split | frontend-src/src/App.js:54 | `split(' ')` always yields at least one piece, and no piece contains the separator |
| Strings.JoinSplit | frontend-src/src/App.js:54-56 | joining the pieces of a split gives back the original string |
| Strings.SplitJoin | frontend-src/src/App.js:54-56 | splitting a join of separator-free pieces gives back the pieces, including empty ones |
| Fen.Fields | frontend-src/src/App.js:54 | a FEN always has at least one field |
| Fen.Overwrite | frontend-src/src/App.js:55 | the store at index 3 makes field 3 "-" and keeps every other field; a shorter array is padded with holes that join renders as "" |
| Fen.Sanitize | frontend-src/src/App.js:53-57 | re-splitting the sanitised FEN gives field 3 = "-"; every other field sits where it was; the field count is max(n, 4) |
| Fen.CleanIsFixed | frontend-src/src/App.js:53-57 | a FEN whose field 3 is already "-" passes unchanged |
| Fen.SanitizeIdempotent | frontend-src/src/App.js:53-57 | sanitising twice is the same as sanitising once |
| Fen.SanitizeIgnoresTarget | frontend-src/src/App.js:53-57 | FENs that differ only in field 3 sanitise to the same string |
| Fen.StartFenIsClean | frontend-src/src/App.js:34 | the start position has the six standard fields and is a fixed point of the sanitiser |
| FreeBoard.Init | frontend-src/src/App.js:29-41 | the App starts on the start FEN, on the search tab, with no game selected |
| FreeBoard.OnDrop | frontend-src/src/App.js:65-83 | the drop answers true iff chess.js accepts the move with promotion "q"; the stored board is the moved copy; the shown FEN is always the board's sanitised FEN, which is clean; a rejected drop changes nothing; the tab and the selected game are untouched |
| FreeBoard.SetCurrentGame | frontend-src/src/App.js:89-92 | selects the game and opens the game-view tab; the board and its FEN are kept |
| FreeBoard.InitConsistent | frontend-src/src/App.js:31-34 | a new board on the start position gives a consistent initial state |
| FreeBoard.DropAllKeepsSelection | frontend-src/src/App.js:65-83 | after any run of drops the FEN is still the board's sanitised FEN, and the tab and the selected game are unchanged |
| FreeBoard.RejectedDropsChangeNothing | frontend-src/src/App.js:78-80 | a run of drops that chess.js all rejects leaves the state exactly as it was |
| PropSync.Sync | frontend-src/src/games_list.js:36-40 | after an update the held value is the prop, and a refetch happens exactly when they differed |
| PropSync.SyncAllCountsChanges | frontend-src/src/moves_table.js:27-31 | after a run of updates the component holds the last prop and has refetched once per change of the prop |
| Replay.Init | frontend-src/src/chess_game.js:9-23 | a new component holds the id prop, has no data, is loading, and shows the start position at cursor -1 |
| Replay.GetGame | frontend-src/src/chess_game.js:36-39 | a fetch is made iff the held id is not null, and it is for that id |
| Replay.OnProps | frontend-src/src/chess_game.js:64-68 | a different id prop is held and fetched (a null prop is held but not fetched); nothing else in the state changes |
| Replay.GoToMove | frontend-src/src/chess_game.js:88-101 | the cursor becomes the index; the FEN is the start FEN for -1, else the stored move applied to its stored pre-move FEN; the state is valid; the rest is untouched |
| Replay.NextMove | frontend-src/src/chess_game.js:72-76 | the cursor moves to min(c + 1, N - 1) and the state stays valid |
| Replay.PrevMove | frontend-src/src/chess_game.js:80-84 | the cursor moves to max(-1, c - 1) and the state stays valid |
| Replay.GoToMoveForgetsCursor | frontend-src/src/chess_game.js:88-101 | the shown position depends only on the move list and the target index, never on the previous cursor |
| Replay.Advance | frontend-src/src/chess_game.js:72-76 | pressing "->" repeatedly keeps the list and never goes below -1 |
| Replay.Retreat | frontend-src/src/chess_game.js:80-84 | pressing "<-" repeatedly keeps the list and keeps the cursor in range |
| Replay.AdvanceClamps | frontend-src/src/chess_game.js:72-76 | k presses of "->" put the cursor at min(c + k, N - 1) and keep the state valid |
| Replay.RetreatClamps | frontend-src/src/chess_game.js:80-84 | k presses of "<-" put the cursor at max(-1, c - k) and keep the state valid |
| Replay.OnFailed | frontend-src/src/chess_game.js:57-59 | a failed fetch records the error and ends loading; nothing else changes |
| Replay.OnLoadedAsWritten | frontend-src/src/chess_game.js:54-56 | a loaded game sets the data and ends loading, but keeps the old cursor, FEN and error |
| Replay.StaleCursorAfterSwitch | frontend-src/src/chess_game.js:54-56 | switching from move 3 of a four-move game to a two-move game leaves an invalid cursor that "<-" would index past the end |
| Replay.StickyErrorAfterFailure | frontend-src/src/chess_game.js:106-116 | after one failed fetch, a later successful load is still rendered as an error |
| Replay.OnLoaded | frontend-src/src/chess_game.js:54-56 | the corrected load sets the data, ends loading, clears the error and keeps the held id |
| Replay.OnLoadedShowsNewGame | frontend-src/src/chess_game.js:104-118 | after the corrected load the state is valid for any move list, the game is shown, and it is shown from its start |
| MoveList.RowsFromShape | frontend-src/src/chess_game.js:121-142 | the reduce from any index yields one row per even index, in order, each built from its index |
| MoveList.RowsLayout | frontend-src/src/chess_game.js:121-142 | there are ceil(N/2) rows; row k shows moves 2k and 2k+1 (or ""), with move 2k's turn number; a cell is bold iff its move is under the cursor; a click on row k seeks move 2k |
| MoveList.AtMostOneBold | frontend-src/src/chess_game.js:126-134 | at most one cell is bold; exactly one when the cursor is on a move; none at -1 |
| SearchForm.Init | frontend-src/src/game_search.js:12-20 | every text field starts null and the result starts "Any" |
| SearchForm.Edit | frontend-src/src/game_search.js:33-74 | typing sets that field to the text, even "", and leaves every other field and the result alone |
| SearchForm.Pick | frontend-src/src/game_search.js:81-87 | picking sets the result to the option and leaves the text fields alone |
| SearchForm.HandleAllFields | frontend-src/src/game_search.js:33-87 | after any interactions each field holds the text last typed into it (else its old value), and the result holds the last pick (else its old value) |
| SearchForm.HandleAllKeepsInvariant | frontend-src/src/game_search.js:81-87 | the result always stays one of the four options, and a field once filled is never null again |
| SearchForm.Submit | frontend-src/src/game_search.js:92-99 | argument k of the submit call is the field at position k; the result is last |
| SearchForm.SubmitMatchesParameters | frontend-src/src/game_search.js:92-99 | each control reaches the `GetGames` parameter keyed for it; the untouched form submits the all-default arguments |
| GamesUrl.Defaults | frontend-src/src/games_list.js:46-54 | the default arguments are all null with result "Any" |
| GamesUrl.Slots | frontend-src/src/games_list.js:58-78 | there are seven optional parameters, in the order the builder tests them |
| GamesUrl.BuildUrl | frontend-src/src/games_list.js:56-78 | every URL starts with the endpoint and `fen_str=` followed by the FEN |
| GamesUrl.QueryOf | frontend-src/src/games_list.js:80 | the server receives the text after the '?' up to the first '#': it never contains '#', and it is the whole rest when there is no '#' |
| GamesUrl.BuildUrlReadsBack | frontend-src/src/games_list.js:56-80 | when no value contains '&' or '#', reading back the URL recovers exactly the FEN pair and then one pair per non-null argument, in parameter order |
| GamesUrl.ExpectedOrdered | frontend-src/src/games_list.js:56-78 | the read-back keys come in the fixed order fen_str, wmin, …, result, so no key repeats and the FEN is first |
| GamesUrl.PresenceFollowsArguments | frontend-src/src/games_list.js:58-78 | a key is present iff its argument is non-null, or for `result` iff it is not "Any", and it carries the argument; with defaults only `fen_str` is sent |
| GamesUrl.RawValuesInjectParameters | frontend-src/src/games_list.js:70-71 | a name holding "&result=0-1" is read back as a result filter that was never asked for |
| GamesUrl.FragmentCutsValue | frontend-src/src/games_list.js:70-80 | a name holding '#' is cut there: "a#b" reaches the server as "a", and nothing after the '#' is sent |
| GamesList.Init | frontend-src/src/games_list.js:14-29 | the list starts empty and loading, holding the FEN prop |
| GamesList.Mount | frontend-src/src/games_list.js:31-33 | mounting fetches the position with default arguments |
| GamesList.Search | frontend-src/src/games_list.js:46-80 | a submitted search fetches the URL built from the held FEN and the form's arguments |
| GamesList.OnProps | frontend-src/src/games_list.js:36-40 | a different FEN prop is held, shows loading, and refetches without filters; the same prop changes nothing |
| GamesList.OnData | frontend-src/src/games_list.js:95-97 | a response replaces the list and ends loading |
| GamesList.OnErrorAsWritten | frontend-src/src/games_list.js:98-100 | a failure records the error but keeps the old list |
| GamesList.ViewAsWritten | frontend-src/src/games_list.js:103-114 | the table with the form is shown iff loading has finished and the list is non-empty |
| GamesList.EmptyResultHidesForm | frontend-src/src/games_list.js:108-114 | a search that matches nothing removes the form, so the user cannot search again |
| GamesList.FailureShowsStaleGames | frontend-src/src/games_list.js:98-108 | when the fetch for a new FEN fails, the old position's games are listed under the new one |
| GamesList.OnError | frontend-src/src/games_list.js:98-100 | the corrected failure also empties the list |
| GamesList.View | frontend-src/src/games_list.js:103-114 | the corrected render shows the form whenever loading has finished |
| GamesList.CorrectedViewProperties | frontend-src/src/games_list.js:103-114 | with the corrections the form is shown after any response, and a failure shows no games |
| GamesList.Click | frontend-src/src/games_list.js:126-127 | clicking row k yields that row's game id |
| GamesList.ClickOpensGame | frontend-src/src/games_list.js:126-127 | clicking opens the game tab on that game without touching the board; ChessGame then fetches exactly that game unless it already holds it |
| GamesList.PropRunFetchesPerChange | frontend-src/src/games_list.js:36-40 | any run of FEN props ends holding the last one, with one refetch per change |
| QueryBinding.Lookup | backend-src/server.py:84-86 | the lookup is None iff the key is absent; otherwise it is the value of the key's last pair |
| QueryBinding.ParseInt | backend-src/server.py:85 | a value binds to `int` iff it is an optional '-' followed by one or more digits |
| QueryBinding.ParseIntText | backend-src/server.py:85 | reading back the decimal text of any integer gives the integer |
| QueryBinding.IntParam | backend-src/server.py:85 | an absent bound is None; a present one must parse, or the request fails |
| QueryBinding.Bind | backend-src/server.py:84-86 | binding succeeds iff `fen_str` is present and every present ELO bound parses; each parameter gets its key's value |
| QueryBinding.EmptyEloRefused | backend-src/server.py:85 | an empty ELO value makes the request fail |
| SqlLike.LikeContains | backend-src/server.py:115-120 | for wildcard-free x, the pattern "%x%" matches exactly the strings containing x; "" matches everything |
| SqlLike.LikeLiteral | backend-src/server.py:121-123 | a wildcard-free pattern matches only itself, so the result filter is an equality |
| SqlLike.LikePrefix | backend-src/server.py:115-120 | a literal followed by '%' matches exactly the strings it begins |
| GamesQuery.AddFilter | backend-src/server.py:103-123 | each present argument adds exactly one hole and one parameter, appended after the earlier ones |
| GamesQuery.Candidates | backend-src/server.py:103-123 | there are seven candidate filters, in the order the handler tests them |
| GamesQuery.BuildShape | backend-src/server.py:88-126 | the query starts with the SELECT and the FEN hole and ends with the ordering and LIMIT 10; holes = parameters = 1 + the number of present arguments; the FEN is the first parameter |
| GamesQuery.AdmitsIntended | backend-src/server.py:100-123 | for wildcard-free text the WHERE clause admits a game iff it matches the position, the strict ELO bounds, the name substrings and the exact result |
| GamesQuery.BoundsAreStrict | backend-src/server.py:103-114 | a rating equal to a bound is never admitted; an empty name filters nothing |
| SearchPipeline.LookupReceived | backend-src/server.py:84-86 | the server finds the FEN under `fen_str` and, under each filter key, exactly the client's argument |
| SearchPipeline.FormLookups | frontend-src/src/game_search.js:92-99 | each form field reaches the server under its own key |
| SearchPipeline.SubmitReachesServer | frontend-src/src/games_list.js:56-78 | a form whose ELO texts parse binds to exactly the arguments it means; otherwise the server refuses it as not an integer |
| SearchPipeline.SubmittedParameterCount | backend-src/server.py:101-123 | a bound request carries one SQL parameter for the FEN plus one per filled form entry |
| SearchPipeline.UntouchedFormAsksForPosition | frontend-src/src/game_search.js:12-20 | the untouched form asks only for the position, with one SQL parameter |
| TopMoves.Groups | backend-src/server.py:147-153 | there is one tally per distinct eligible move text, counted over the eligible rows |
| TopMoves.SortCorrect | backend-src/server.py:153 | the ordering is a permutation of the groups, sorted by occurrences, most first |
| TopMoves.GetMoves | backend-src/server.py:142-156 | the endpoint fails iff `lim` is negative |
| TopMoves.SortedGroups | backend-src/server.py:147-153 | the ordered groups are sorted, with distinct move texts and one correct tally for every group |
| TopMoves.GetMovesShape | backend-src/server.py:147-155 | the response has min(lim, #groups) rows; each is its move's tally; move texts are distinct; rows are most-played first |
| TopMoves.GetMovesCounts | backend-src/server.py:147-152 | every row counts at least one occurrence, and its outcome counts stay within it |
| TopMoves.GetMovesTop | backend-src/server.py:153-154 | no move left out was played more often than any move returned |
| TopMoves.OutcomesWithinOccurrences | backend-src/server.py:147-150 | wins plus draws stay within occurrences, with equality when every counted game was decided or drawn |
| TopMoves.IneligibleRowIgnored | backend-src/server.py:152 | moves from unfinished games ("*") or other positions do not change the response |
| TopMoves.SansMembers | backend-src/server.py:151-153 | a move is a group iff some eligible row plays it |
| EloBands.TruncDiv | backend-src/server.py:174 | integer division truncates toward zero (quotient bounds for both signs) |
| EloBands.ElorBand | backend-src/server.py:166-174 | the band is a multiple of 200 containing a non-negative rating; a negative rating truncates upward |
| EloBands.LowerEdgeExcluded | backend-src/server.py:185-187 | as written, two players rated 2000 are not counted, and swapping colours of 2000 and 2100 changes the result |
| EloBands.CountedIsSameBand | backend-src/server.py:169-173 | with the lower edge included, a game counts iff both ratings share a band, symmetrically in colour |
| EloBands.CountIsMatching | backend-src/server.py:175-179 | each `COUNT` of a group is the number of rows its condition selects (band, join rule, outcome) |
| EloBands.ElorsMembers | backend-src/server.py:174-189 | under either join rule (`AsWritten` is the query's strict `>`), a band appears iff some row the rule counts falls in it |
| EloBands.OutcomesByEloCorrect | backend-src/server.py:174-190 | under either join rule: one row per band that holds a counted move and no other row, highest band first; `occs`, `wwin`, `bwin` and `draw` are the counts of the band's rows; each band is a multiple of 200 with at least one move; the outcome counts stay within the occurrences |
| EloBands.EdgeGameDropped | backend-src/server.py:174-190 | as written, one won game between two players rated 2000 yields no row; under the intended rule it yields band 2000 with one occurrence and one white win |
| MovesTable.Percent | frontend-src/src/moves_table.js:89-91 | the cell is `Math.round(100·count/occ)`, characterised by 2·occ·p ≤ 200·count + occ < 2·occ·(p+1) |
| MovesTable.PercentIsNearest | frontend-src/src/moves_table.js:89-91 | the cell is the unique integer nearest the exact percentage, ties rounding up |
| MovesTable.PercentBounds | frontend-src/src/moves_table.js:89-91 | a count within occurrences gives 0 to 100; none gives 0; all gives 100 |
| MovesTable.PercentMonotone | frontend-src/src/moves_table.js:89-91 | more wins never show a smaller percentage |
| MovesTable.CellsSumNearHundred | frontend-src/src/moves_table.js:89-91 | when the outcomes cover every occurrence, the three cells sum to 99, 100 or 101 |
| MovesTable.NearestUnique | frontend-src/src/moves_table.js:89-91 | at most one integer is nearest a percentage under the half-up rule |
| MovesTable.CellOf | frontend-src/src/moves_table.js:89-91 | a cell with occurrences is the nearest whole percentage, at most 100 when the count is within them; with no occurrences it is NaN for a zero count and Infinity otherwise |
| MovesTable.RowOf | frontend-src/src/moves_table.js:86-92 | a row shows the move and its count as sent, and each outcome as the nearest whole percentage of the occurrences |
| MovesTable.View | frontend-src/src/moves_table.js:65-96 | "Loading..." iff loading; the no-games text iff loaded with no moves; otherwise one row per move, in order |
| MovesTable.OnData | frontend-src/src/moves_table.js:56-58 | a response replaces the moves and ends loading |
| MovesTable.OnFailed | frontend-src/src/moves_table.js:59-61 | a failure records the error and ends loading, keeping the moves |
| MovesTable.FetchOutcomeViews | frontend-src/src/moves_table.js:56-96 | after a response the table has one row per move, or the no-games text for none; a failure looks like a response returning the moves already held, since render never reads the error |
| MovesTable.Init | frontend-src/src/moves_table.js:11-19 | the table starts empty and loading, holding the FEN prop |
| MovesTable.OnProps | frontend-src/src/moves_table.js:27-31 | a different FEN prop is held, shows loading and is fetched; the same prop changes nothing |
| MovesTable.OnPropsSettles | frontend-src/src/moves_table.js:27-31 | a repeated update with the same prop fetches and changes nothing |
| Ingest.Push | misc/extract_pgn.py:82 | a push flips the side to move and increments the fullmove number after Black's move |
| Ingest.InsertMoves | misc/extract_pgn.py:75-94 | one MOVES row per mainline move |
| Ingest.InsertMovesAt | misc/extract_pgn.py:77-94 | row i carries the key and FEN of the board after i moves (read before the push), the move's SAN, and the next board's FEN |
| Ingest.InsertMovesChain | misc/extract_pgn.py:75-94 | rows start at the game's start FEN and chain each fen_after to the next fen_before; plies count up by one; all rows carry the game id; the (turn_no, white_to_move) keys are distinct |
| Ingest.KeyBeforeIsPlyOrder | backend-src/server.py:70-71 | `ORDER BY turn_no, white_to_move DESC` is play order |
| Ingest.ReadBackIsPlayOrder | backend-src/server.py:70-73 | any key-sorted arrangement of a game's inserted rows is the insertion sequence itself |
| Ingest.Entries | backend-src/server.py:70-73 | the rows reach the replay as move entries, one per row, with the row's turn, SAN and fen_before |
| Ingest.ReplayFollowsIngest | frontend-src/src/chess_game.js:88-101 | when chess.js applies moves as python-chess played them, cursor i shows the next row's fen_before, and the last cursor shows the final position |
| IngestDb.FindRow | misc/extract_pgn.py:51-53 | the lookup by name finds a row iff the name is in the table, and the id found holds the name |
| IngestDb.GetId | misc/extract_pgn.py:47-54 | with a consistent cache, an id is found iff the name is stored, and the id names a row holding it |
| IngestDb.CacheIsTransparent | misc/extract_pgn.py:47-54 | a consistent cache never changes the answer of the table lookup |
| IngestDb.Insert | misc/extract_pgn.py:56-59 | an insert appends the name, returns the next id and caches it, keeping the table consistent for a new name |
| IngestDb.GetOrInsert | misc/extract_pgn.py:106-116 | the id returned names a row holding the name; a known name adds no row, a new one adds exactly one |
| IngestDb.GetOrInsertPair | misc/extract_pgn.py:106-112 | both player ids name rows holding the two names, after both get-or-inserts |
| IngestDb.TwoNames | misc/extract_pgn.py:106-112 | the players table only grows, and only by the game's names |
| IngestDb.Stamp | misc/extract_pgn.py:128 | the ply log is written under the game id, row for row |
| IngestDb.StoreGame | misc/extract_pgn.py:105-128 | a GAMES row is appended whose ids name the game's players and event, with its result and date; the moves follow under the new id; the name tables stay consistent |
| IngestDb.StoreGameNames | misc/extract_pgn.py:105-116 | known names are not inserted again, and the only new names are the game's |
| IngestDb.AddRating | misc/extract_pgn.py:96-102 | a rating row is appended unless a row already has its (game_id, player_id) key, which raises and adds nothing (the primary key at line 39); keys stay unique |
| IngestDb.InsertGameAsWritten | misc/extract_pgn.py:105-132 | as written, the game and its moves are stored first; then at most two rating rows are added, none without WhiteElo; a value is returned only after both rows, and it is Black's RATINGS rowid; rating keys stay unique |
| IngestDb.RatedGameIds | misc/extract_pgn.py:127-130 | in a well-formed database every rating row belongs to a stored game |
| IngestDb.AsWrittenRatings | misc/extract_pgn.py:127-132 | on a well-formed database, as written: no rating row without WhiteElo; White's alone without BlackElo or when both colours are the same name; otherwise both; a value is returned iff both tags exist and the names differ |
| IngestDb.SameNameKeepsOneRating | misc/extract_pgn.py:39 | a game with the same name for both colours keeps its GAMES row and one rating row, returns nothing, and breaks the two-ratings invariant |
| IngestDb.AsWrittenAgrees | misc/extract_pgn.py:105-132 | for a game with both tags and two different names, the call as written writes what the corrected call writes and returns twice the game id |
| IngestDb.PartialGameLeftBehind | misc/extract_pgn.py:127-130 | a game without WhiteElo leaves a GAMES row and moves but no ratings; into an empty database a game with both tags and two names returns 2 while the game id is 1 |
| IngestDb.AsWrittenBreaksRated | misc/extract_pgn.py:127-130 | as written, a game without WhiteElo breaks the two-ratings-per-game invariant |
| IngestDb.InsertGame | misc/extract_pgn.py:105-132 | the corrected call stores the game iff both rating tags exist and the two names differ, leaves the database unchanged otherwise, appends White's then Black's rating row, and returns the game id |
| IngestDb.InsertGameWrites | misc/extract_pgn.py:105-132 | the returned id names the new GAMES row, whose ids name the game's players and event, with the moves under it |
| IngestDb.InsertGameKeepsWf | misc/extract_pgn.py:96-132 | the corrected call keeps the name tables consistent and every game with exactly its two rating rows |
| IngestDb.RatedAppend | misc/extract_pgn.py:129-130 | appending a game with its two rating rows keeps the invariant |
| IngestDb.LoadOneAsWritten | misc/extract_pgn.py:145-151 | as written, games with a "?" White, Black or Event are skipped and every other game adds a GAMES row, whether or not its ratings follow; no "?" name enters the tables |
| IngestDb.LoadAsWritten | misc/extract_pgn.py:136-153 | the loop as written keeps the name tables consistent |
| IngestDb.LoadAsWrittenCounts | misc/extract_pgn.py:136-153 | as written, the loop adds one GAMES row per game the filter lets through, keeps earlier games, and never inserts a "?" name |
| IngestDb.LoadAgrees | misc/extract_pgn.py:136-153 | when every game the filter lets through has both tags and two names, the loop as written and the corrected loop build the same database |
| IngestDb.LoadOne | misc/extract_pgn.py:145-149 | one turn of the corrected loop (calling `InsertGame`): "?" games are skipped; a game is added iff it can be stored whole; the database stays well formed; no "?" name enters it |
| IngestDb.Load | misc/extract_pgn.py:136-153 | the corrected loop keeps the database well formed |
| IngestDb.LoadCounts | misc/extract_pgn.py:136-153 | the corrected loop adds one game per game it can store whole, keeps earlier games, and never inserts a "?" name |

## Left out

- **I/O and lifecycle.** File globbing, PGN parsing, database connections and commits are left out, as are CORS, `componentDidMount`'s document title and all rendering markup. The model only has the render *choice*.
- **fetch and promises.** A fetch is an output value, and its outcome is a later event. Responses are not matched against the request that produced them.
- **Chess rules.** chess.js and python-chess are function parameters. The model does not implement move legality, SAN or FEN generation.
- **`outcome_graph.js` and `misc/test.py`.** They are outside the modelled core. `get_outcomes_by_elo` is modelled server-side only.
- **HTTP layer.** Percent-decoding, '+' decoding and FastAPI's other type coercions are not modelled. The query reader drops the fragment from the first '#', splits on '&' and splits each piece at the first '='.
- **`get_game` metadata query.** Only the moves ordering of `get_game` is modelled (`Ingest.KeyBeforeIsPlyOrder`, `Ingest.ReadBackIsPlayOrder`).
- **Ordering ties.** SQL leaves the order of rows with equal sort keys open.
  - `TopMoves.GetMoves` fixes one order: a stable insertion sort.
  - `EloBands.OutcomesByElo` orders bands only; `occs DESC` never breaks a tie, because the bands are distinct.
- **SQLite typing.** SQLite's type affinity on the `elo INTEGER` column is not modelled. The rating text is stored as given.
- **Concurrency.** The script is single-threaded, and the server's async handlers touch no shared state beyond the cursor.
- MovesTable.Percent: requires `occ > 0`. The source divides unguarded. `MovesTable.CellOf` renders a row with zero occurrences as NaN; the server never returns one.
- Replay.GoToMove: requires an index in [-1, N-1]. The source throws a TypeError outside that range. `StaleCursorAfterSwitch` exhibits a call that would throw.
- Replay.PrevMove: requires the cursor to be at most N. It only reaches N + 1 through the stale-cursor finding.
- SearchForm.Pick: requires one of the four option values, the only ones the `<select>` can report.
- GamesUrl.BuildUrlReadsBack: assumes values free of '&' and '#'. With '&', `RawValuesInjectParameters` shows an injected parameter. With '#', `fetch` drops the rest of the URL, as `FragmentCutsValue` shows: the value is cut and every later parameter is lost.
- GamesQuery.AdmitsIntended: assumes names free of `%`, `_` and `\`. Those characters act as wildcards in `LIKE`.
- EloBands.CountedIsSameBand: stated for non-negative ratings only. For negative ratings, truncation toward zero breaks the band property, as `ElorBand` records.
- IngestDb.Load: assumes nothing else writes the tables. Ids are sequence positions, as SQLite assigns them without deletions.

## Findings

| source | as written | input that shows it | evidently intended | confidence | as-written member | corrected member |
|---|---|---|---|---|---|---|
| frontend-src/src/chess_game.js:54-56 | a newly loaded game keeps the old `move_ind` and FEN | at move 3 of a four-move game, select a game with two moves, then press "<-": it asks for `moves[2]` of the two-move list | reset the cursor to -1 and the FEN to the start on load | not executed | Replay.StaleCursorAfterSwitch | Replay.OnLoadedShowsNewGame |
| frontend-src/src/chess_game.js:57-59 | `error` is set on failure and never cleared | a failed fetch, then another game that loads successfully | clear the error when a game loads | not executed | Replay.StickyErrorAfterFailure | Replay.OnLoaded |
| backend-src/server.py:186 | `b.elo > FLOOR(w.elo/200)*200` excludes the band's lower edge | White 2000 and Black 2000 are not counted; White 2000 / Black 2100 counts, but White 2100 / Black 2000 does not | `>=`: both players in the same band, as the comment says | not executed | EloBands.EdgeGameDropped | EloBands.CountedIsSameBand |
| frontend-src/src/games_list.js:108-114 | an empty result renders "No games" without the GameSearch form | any search that matches no game | keep the form visible so the user can search again | not executed | GamesList.EmptyResultHidesForm | GamesList.CorrectedViewProperties |
| frontend-src/src/games_list.js:98-100 | a failed fetch keeps the previous `games` on show | change the FEN, then let the fetch fail | show no games for a failed fetch | not executed | GamesList.FailureShowsStaleGames | GamesList.CorrectedViewProperties |
| misc/extract_pgn.py:127-132 | ratings are read after the game and moves are written; the KeyError is swallowed; the function returns the RATINGS rowid | a game without a WhiteElo tag; a complete game into an empty database returns 2 | read both ratings before writing, and return the game id | not executed | IngestDb.PartialGameLeftBehind | IngestDb.InsertGameKeepsWf |
| misc/extract_pgn.py:129-130 | a game whose White and Black have the same name gets one player id, so the second `insert_elo` violates `PRIMARY KEY(game_id, player_id)`; the bare `except` swallows the error, and the game is kept with one rating row | White "NN", Black "NN", both Elo tags present | all or nothing: skip such a game before anything is written, as a missing tag is skipped | not executed | IngestDb.SameNameKeepsOneRating | IngestDb.InsertGameKeepsWf |
