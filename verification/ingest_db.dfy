/** The database side of the PGN ingest script (misc/extract_pgn.py): the
    PLAYERS and EVENTS name tables with their in-memory id caches, the
    get-or-insert of a name, `insert_game` with its two RATINGS rows under the
    table's (game_id, player_id) primary key, and the loop over the games of a
    file that skips games with an unknown player or event. A table with an `INTEGER PRIMARY KEY` is a sequence whose k-th row
    has id k + 1, which is what SQLite assigns to rows inserted with a NULL key
    into a table nobody deletes from. */
module IngestDb {
  import opened Wrappers
  import Ingest

  /** A name table's contents and the cache the script keeps for it. */
  datatype Names = Names(rows: seq<string>, cache: map<string, int>)

  /** The result of a get-or-insert: the table afterwards and the name's id. */
  datatype NameStep = NameStep(names: Names, id: int)

  /** The result of two get-or-inserts: the table afterwards and both ids. */
  datatype PairStep = PairStep(names: Names, first: int, second: int)

  /** The cache only holds ids of rows that carry the name, and the table has
      no name twice. */
  predicate NamesOk(t: Names)
  {
    && Distinct(t.rows)
    && (forall n :: n in t.cache ==> 1 <= t.cache[n] <= |t.rows| && t.rows[t.cache[n] - 1] == n)
  }

  /** True iff no name occurs twice: each row's name is new when it is added. */
  predicate Distinct(rows: seq<string>)
    decreases |rows|
  {
    |rows| == 0 || (rows[|rows| - 1] !in rows[..|rows| - 1] && Distinct(rows[..|rows| - 1]))
  }

  /** A name occurs in a table without duplicates at one row only. */
  lemma {:induction false} DistinctAt(rows: seq<string>, i: nat, j: nat)
    requires Distinct(rows) && i < |rows| && j < |rows| && rows[i] == rows[j]
    ensures i == j
    decreases |rows|
  {
    var n := |rows| - 1;
    if i < n && j < n {
      assert rows[..n][i] == rows[i] && rows[..n][j] == rows[j];
      DistinctAt(rows[..n], i, j);
    }
  }

  /** True iff the row with id `id` exists and holds `name`. */
  predicate Holds(rows: seq<string>, id: int, name: string)
  {
    1 <= id <= |rows| && rows[id - 1] == name
  }

  /** Appending rows keeps the ids of the old ones. */
  lemma HoldsExtend(rows: seq<string>, longer: seq<string>, id: int, name: string)
    requires Holds(rows, id, name) && rows <= longer
    ensures Holds(longer, id, name)
  {
    assert longer[id - 1] == rows[id - 1];
  }

  /** `SELECT ... WHERE name=?` with `fetchone`: the id of a row with the name. */
  function FindRow(rows: seq<string>, name: string): (r: Option<int>)
    ensures r.Some? <==> name in rows
    ensures r.Some? ==> 1 <= r.value <= |rows| && rows[r.value - 1] == name
    decreases |rows|
  {
    if |rows| == 0 then None
    else if rows[|rows| - 1] == name then Some(|rows|)
    else FindRow(rows[..|rows| - 1], name)
  }

  /** `get_player_id` / `get_event_id`: a cached id is returned without a query;
      otherwise the table is queried and a found id is returned without being
      cached. */
  function GetId(t: Names, name: string): (r: Option<int>)
    ensures NamesOk(t) ==> (r.Some? <==> name in t.rows)
    ensures NamesOk(t) && r.Some? ==> 1 <= r.value <= |t.rows| && t.rows[r.value - 1] == name
  {
    if name in t.cache then Some(t.cache[name]) else FindRow(t.rows, name)
  }

  /** The cache never changes an answer: with a consistent cache the id found is
      the one the table alone gives. */
  lemma CacheIsTransparent(t: Names, name: string)
    requires NamesOk(t)
    ensures GetId(t, name) == GetId(Names(t.rows, map[]), name)
  {
    var r := GetId(t, name);
    var q := FindRow(t.rows, name);
    if r.Some? {
      assert q.Some? && t.rows[q.value - 1] == t.rows[r.value - 1];
      DistinctAt(t.rows, q.value - 1, r.value - 1);
    }
  }

  /** `insert_player` / `insert_event`: a row with a NULL key gets the next id,
      which is cached under the name. */
  function Insert(t: Names, name: string): (s: NameStep)
    ensures s.names.rows == t.rows + [name] && s.id == |t.rows| + 1
    ensures name !in t.rows && NamesOk(t) ==> NamesOk(s.names)
    ensures s.names.cache.Keys == t.cache.Keys + {name} && s.names.cache[name] == s.id
  {
    var rows := t.rows + [name];
    assert rows[..|rows| - 1] == t.rows;
    NameStep(Names(rows, t.cache[name := |rows|]), |rows|)
  }

  /** The `get_..._id`, then `insert_...` if None, pattern of `insert_game`. */
  function GetOrInsert(t: Names, name: string): (s: NameStep)
    requires NamesOk(t)
    ensures NamesOk(s.names)
    ensures Holds(s.names.rows, s.id, name)
    ensures name in t.rows ==> s.names.rows == t.rows
    ensures name !in t.rows ==> s.names.rows == t.rows + [name]
  {
    match GetId(t, name)
    case Some(id) => NameStep(t, id)
    case None => Insert(t, name)
  }

  /** A stored game: the ids of its players and event, its result and date. */
  datatype GameRow = GameRow(whiteId: int, blackId: int, eventId: int, outcome: string, date: string)

  /** A RATINGS row; the rating is the header's text, stored as SQLite converts it. */
  datatype RatingRow = RatingRow(gameId: int, playerId: int, elo: string)

  datatype Db = Db(players: Names, events: Names, games: seq<GameRow>,
                   moves: seq<Ingest.MoveRow>, ratings: seq<RatingRow>)

  /** The headers `insert_game` reads and the game's ply log. The Seven Tag
      Roster tags always exist (python-chess fills a missing one with "?"); the
      rating tags need not, and reading a missing one raises a KeyError. */
  datatype PgnGame = PgnGame(white: string, black: string, event: string, result: string, date: string,
                             whiteElo: Option<string>, blackElo: Option<string>,
                             plies: seq<Ingest.MoveRow>)

  /** The outcome of one call: the database afterwards and the value returned,
      None when the call raised (the caller's bare `except` swallows it). */
  datatype Inserted = Inserted(db: Db, ret: Option<int>)

  /** The ply log written under a game id, as `insert_moves(cur, game, game_id)`. */
  function Stamp(plies: seq<Ingest.MoveRow>, gameId: int): (rows: seq<Ingest.MoveRow>)
    ensures |rows| == |plies|
    ensures forall i :: 0 <= i < |rows| ==> rows[i] == plies[i].(gameId := gameId)
  {
    seq(|plies|, i requires 0 <= i < |plies| => plies[i].(gameId := gameId))
  }

  /** The GAMES row and the moves a game adds once its players and event have
      ids: what `insert_game` has written before it reads the rating headers.
      The row's ids name table rows holding the game's header values. */
  predicate Written(db: Db, r: Db, g: PgnGame)
  {
    |r.games| == |db.games| + 1 &&
    var row := r.games[|db.games|];
    && r.games == db.games + [row]
    && Holds(r.players.rows, row.whiteId, g.white)
    && Holds(r.players.rows, row.blackId, g.black)
    && Holds(r.events.rows, row.eventId, g.event)
    && row.outcome == g.result && row.date == g.date
    && r.moves == db.moves + Stamp(g.plies, |db.games| + 1)
  }

  /** The get-or-inserts of the players and the event, the GAMES row and the
      moves. */
  function StoreGame(db: Db, g: PgnGame): (r: Db)
    requires NamesOk(db.players) && NamesOk(db.events)
    ensures NamesOk(r.players) && NamesOk(r.events)
    ensures Written(db, r, g) && r.ratings == db.ratings
  {
    var p := GetOrInsertPair(db.players, g.white, g.black);
    var e := GetOrInsert(db.events, g.event);
    Db(p.names, e.names, db.games + [GameRow(p.first, p.second, e.id, g.result, g.date)],
       db.moves + Stamp(g.plies, |db.games| + 1), db.ratings)
  }

  /** The name tables after a game is stored: a name already in a table is not
      inserted again, and the only new names are the game's. */
  lemma StoreGameNames(db: Db, g: PgnGame)
    requires NamesOk(db.players) && NamesOk(db.events)
    ensures var r := StoreGame(db, g);
      && db.players.rows <= r.players.rows && db.events.rows <= r.events.rows
      && (forall n :: n in r.players.rows ==> n in db.players.rows || n == g.white || n == g.black)
      && (forall n :: n in r.events.rows ==> n in db.events.rows || n == g.event)
      && (g.white in db.players.rows && g.black in db.players.rows ==> r.players.rows == db.players.rows)
      && (g.event in db.events.rows ==> r.events.rows == db.events.rows)
  {
    TwoNames(db.players, g.white, g.black);
    Grows(db.events, g.event);
  }

  /** The players of a game: the get-or-insert of White's name, then of
      Black's, in the table White's left; White's id still names White. */
  function GetOrInsertPair(t: Names, a: string, b: string): (s: PairStep)
    requires NamesOk(t)
    ensures NamesOk(s.names)
    ensures Holds(s.names.rows, s.first, a) && Holds(s.names.rows, s.second, b)
  {
    var w := GetOrInsert(t, a);
    var v := GetOrInsert(w.names, b);
    HoldsExtend(w.names.rows, v.names.rows, w.id, a);
    PairStep(v.names, w.id, v.id)
  }

  /** Getting or inserting two names: the table only grows, by the names it
      lacked. */
  lemma TwoNames(t: Names, a: string, b: string)
    requires NamesOk(t)
    ensures var s := GetOrInsertPair(t, a, b);
      && t.rows <= s.names.rows
      && (forall n :: n in s.names.rows <==> n in t.rows || n == a || n == b)
  {
    var w := GetOrInsert(t, a);
    Grows(t, a);
    Grows(w.names, b);
  }

  /** One get-or-insert only appends, and only its name. */
  lemma Grows(t: Names, a: string)
    requires NamesOk(t)
    ensures var w := GetOrInsert(t, a);
      && t.rows <= w.names.rows
      && (forall n :: n in w.names.rows <==> n in t.rows || n == a)
  {
  }

  /** True iff a RATINGS row already has the key (game_id, player_id). */
  predicate KeyTaken(ratings: seq<RatingRow>, gameId: int, playerId: int)
  {
    exists i :: 0 <= i < |ratings| && ratings[i].gameId == gameId && ratings[i].playerId == playerId
  }

  /** True iff no two RATINGS rows share a key, as `PRIMARY KEY(game_id, player_id)` demands. */
  predicate KeysUnique(ratings: seq<RatingRow>)
  {
    forall i, j :: 0 <= i < j < |ratings| ==>
      ratings[i].gameId != ratings[j].gameId || ratings[i].playerId != ratings[j].playerId
  }

  /** `insert_elo`: the row is appended, unless its key is taken, in which case
      SQLite raises an IntegrityError and the table is left as it was. */
  function AddRating(ratings: seq<RatingRow>, row: RatingRow): (r: Option<seq<RatingRow>>)
    ensures r.None? <==> KeyTaken(ratings, row.gameId, row.playerId)
    ensures r.Some? ==> r.value == ratings + [row]
    ensures r.Some? && KeysUnique(ratings) ==> KeysUnique(r.value)
  {
    if KeyTaken(ratings, row.gameId, row.playerId) then None
    else
      var rows := ratings + [row];
      assert forall i :: 0 <= i < |ratings| ==> rows[i] == ratings[i];
      Some(rows)
  }

  /** `insert_game` as written: a missing rating tag raises after the game and
      its moves (and, for BlackElo, White's rating) are written, and so does a
      rating row whose key is taken; nothing undoes what was written before.
      On success it returns `cur.lastrowid` after the second RATINGS insert,
      the rowid of Black's rating row. */
  function InsertGameAsWritten(db: Db, g: PgnGame): (r: Inserted)
    requires NamesOk(db.players) && NamesOk(db.events)
    ensures r.db.(ratings := db.ratings) == StoreGame(db, g)
    ensures db.ratings <= r.db.ratings && |r.db.ratings| <= |db.ratings| + 2
    ensures g.whiteElo.None? ==> r.db.ratings == db.ratings && r.ret.None?
    ensures r.ret.Some? ==> && g.whiteElo.Some? && g.blackElo.Some?
                            && |r.db.ratings| == |db.ratings| + 2 && r.ret.value == |r.db.ratings|
    ensures KeysUnique(db.ratings) ==> KeysUnique(r.db.ratings)
  {
    var s := StoreGame(db, g);
    var gameId := |db.games| + 1;
    var game := s.games[gameId - 1];
    match g.whiteElo
    case None => Inserted(s, None)
    case Some(we) =>
      match AddRating(s.ratings, RatingRow(gameId, game.whiteId, we))
      case None => Inserted(s, None)
      case Some(r1) =>
        match g.blackElo
        case None => Inserted(s.(ratings := r1), None)
        case Some(be) =>
          match AddRating(r1, RatingRow(gameId, game.blackId, be))
          case None => Inserted(s.(ratings := r1), None)
          case Some(r2) => Inserted(s.(ratings := r2), Some(|r2|))
  }

  /** A game without a WhiteElo tag leaves a GAMES row and its moves behind but
      no RATINGS row: the moves count in the `get_moves` statistics, which do
      not join RATINGS, while the game never appears in `get_games`, which
      does. And the value returned for a game with two different players and
      both tags is a RATINGS rowid, not its game id: into an empty database it
      is 2 where the game id is 1. */
  lemma PartialGameLeftBehind(db: Db, g: PgnGame)
    requires NamesOk(db.players) && NamesOk(db.events)
    ensures g.whiteElo.None? ==> var r := InsertGameAsWritten(db, g);
      && r.ret.None?
      && |r.db.games| == |db.games| + 1
      && r.db.moves == db.moves + Stamp(g.plies, |db.games| + 1)
      && r.db.ratings == db.ratings
    ensures db.games == [] && db.ratings == [] && g.whiteElo.Some? && g.blackElo.Some? && g.white != g.black ==>
      InsertGameAsWritten(db, g).ret == Some(2)
  {
    if db.games == [] && db.ratings == [] {
      AsWrittenRatings(db, g);
    }
  }

  /** Every stored game has two different players and exactly their two rating
      rows, White's then Black's, in the order the games were stored. */
  predicate Rated(db: Db)
  {
    && |db.ratings| == 2 * |db.games|
    && forall k :: 0 <= k < |db.games| ==>
         && db.games[k].whiteId != db.games[k].blackId
         && db.ratings[2 * k].gameId == k + 1 && db.ratings[2 * k].playerId == db.games[k].whiteId
         && db.ratings[2 * k + 1].gameId == k + 1 && db.ratings[2 * k + 1].playerId == db.games[k].blackId
  }

  /** Appending a game with its two rating rows keeps `Rated`. */
  lemma RatedAppend(db: Db, row: GameRow, we: string, be: string)
    requires Rated(db) && row.whiteId != row.blackId
    ensures var n := |db.games| + 1;
            Rated(db.(games := db.games + [row],
                      ratings := db.ratings + [RatingRow(n, row.whiteId, we), RatingRow(n, row.blackId, be)]))
  {
    var n := |db.games|;
    var games := db.games + [row];
    var ratings := db.ratings + [RatingRow(n + 1, row.whiteId, we), RatingRow(n + 1, row.blackId, be)];
    forall k | 0 <= k < n + 1
      ensures && games[k].whiteId != games[k].blackId
              && ratings[2 * k].gameId == k + 1 && ratings[2 * k].playerId == games[k].whiteId
              && ratings[2 * k + 1].gameId == k + 1 && ratings[2 * k + 1].playerId == games[k].blackId
    {
      if k < n {
        assert games[k] == db.games[k];
        assert ratings[2 * k] == db.ratings[2 * k] && ratings[2 * k + 1] == db.ratings[2 * k + 1];
      }
    }
  }

  /** The database the script keeps: consistent name tables and the two rating
      rows of every game. */
  predicate Wf(db: Db)
  {
    NamesOk(db.players) && NamesOk(db.events) && Rated(db)
  }

  /** True iff a game can be stored whole: both rating tags, and two different
      players, so that its two RATINGS keys differ. */
  predicate Complete(g: PgnGame)
  {
    g.whiteElo.Some? && g.blackElo.Some? && g.white != g.black
  }

  /** The corrected `insert_game`: all or nothing. A game that cannot be stored
      whole is skipped before anything is written; a stored game adds its
      GAMES row, its moves and its two RATINGS rows, White's then Black's, and
      its game id is returned. */
  function InsertGame(db: Db, g: PgnGame): (r: Inserted)
    requires NamesOk(db.players) && NamesOk(db.events)
    ensures r.ret.Some? <==> Complete(g)
    ensures r.ret.None? ==> r.db == db
    ensures r.ret.Some? ==> && r.ret.value == |db.games| + 1
                            && r.db.(ratings := db.ratings) == StoreGame(db, g)
                            && var row := StoreGame(db, g).games[|db.games|];
                               r.db.ratings == db.ratings + [RatingRow(r.ret.value, row.whiteId, g.whiteElo.value),
                                                             RatingRow(r.ret.value, row.blackId, g.blackElo.value)]
  {
    if !Complete(g) then Inserted(db, None)
    else
      var s := StoreGame(db, g);
      var gameId := |db.games| + 1;
      var game := s.games[gameId - 1];
      Inserted(s.(ratings := s.ratings + [RatingRow(gameId, game.whiteId, g.whiteElo.value),
                                          RatingRow(gameId, game.blackId, g.blackElo.value)]),
               Some(gameId))
  }

  /** What a stored game's rows say: the returned id names the new GAMES row,
      whose player and event ids name rows holding the game's header values;
      the moves are the ply log under that id; the name tables stay
      consistent. */
  lemma InsertGameWrites(db: Db, g: PgnGame)
    requires NamesOk(db.players) && NamesOk(db.events)
    ensures var r := InsertGame(db, g);
      && NamesOk(r.db.players) && NamesOk(r.db.events)
      && (r.ret.Some? ==> Written(db, r.db, g) && r.ret.value == |r.db.games|)
  {
    var r := InsertGame(db, g);
    var s := StoreGame(db, g);
    if r.ret.Some? {
      WrittenIgnoresRatings(db, s, g, r.db.ratings);
    }
  }

  lemma WrittenIgnoresRatings(db: Db, r: Db, g: PgnGame, ratings: seq<RatingRow>)
    requires Written(db, r, g)
    ensures Written(db, r.(ratings := ratings), g)
  {
  }

  /** The corrected call keeps the database well formed. */
  lemma InsertGameKeepsWf(db: Db, g: PgnGame)
    requires Wf(db)
    ensures Wf(InsertGame(db, g).db)
  {
    var r := InsertGame(db, g);
    InsertGameWrites(db, g);
    if r.ret.Some? {
      var row := r.db.games[|db.games|];
      assert row.whiteId != row.blackId by {
        assert Holds(r.db.players.rows, row.whiteId, g.white);
        assert Holds(r.db.players.rows, row.blackId, g.black);
      }
      RatedAppend(db, row, g.whiteElo.value, g.blackElo.value);
      assert r.db.games == db.games + [row];
    }
  }

  /** As written the same fails: a game without a WhiteElo tag breaks the
      two-ratings-per-game invariant. */
  lemma AsWrittenBreaksRated(db: Db, g: PgnGame)
    requires Rated(db) && NamesOk(db.players) && NamesOk(db.events) && g.whiteElo.None?
    ensures !Rated(InsertGameAsWritten(db, g).db)
  {
  }

  /** In a well-formed database every rating row belongs to a stored game. */
  lemma RatedGameIds(db: Db, i: int)
    requires Rated(db) && 0 <= i < |db.ratings|
    ensures 1 <= db.ratings[i].gameId <= |db.games|
  {
    var k := i / 2;
    assert i == 2 * k || i == 2 * k + 1;
  }

  /** The rating rows `insert_game` as written manages to add for a game whose
      GAMES row is `row` with id `n`: none without WhiteElo, White's alone
      without BlackElo or when both colours are the same player (the second key
      is then taken), and otherwise White's and Black's. */
  function RatingsAsWritten(g: PgnGame, n: int, row: GameRow): seq<RatingRow>
  {
    match g.whiteElo
    case None => []
    case Some(we) =>
      [RatingRow(n, row.whiteId, we)]
      + if g.blackElo.None? || g.white == g.black then [] else [RatingRow(n, row.blackId, g.blackElo.value)]
  }

  /** On a well-formed database the primary key stops exactly the second row
      of a game whose two players share a name, and the call returns a value
      exactly for a game that can be stored whole. */
  lemma AsWrittenRatings(db: Db, g: PgnGame)
    requires Wf(db)
    ensures var r := InsertGameAsWritten(db, g);
            var row := StoreGame(db, g).games[|db.games|];
            && r.db.ratings == db.ratings + RatingsAsWritten(g, |db.games| + 1, row)
            && (r.ret.Some? <==> Complete(g))
  {
    var s := StoreGame(db, g);
    var n := |db.games| + 1;
    var row := s.games[|db.games|];
    assert !KeyTaken(db.ratings, n, row.whiteId) by {
      forall i | 0 <= i < |db.ratings| ensures db.ratings[i].gameId != n {
        RatedGameIds(db, i);
      }
    }
    if g.whiteElo.Some? {
      var r1 := db.ratings + [RatingRow(n, row.whiteId, g.whiteElo.value)];
      assert KeyTaken(r1, n, row.blackId) <==> row.whiteId == row.blackId by {
        forall i | 0 <= i < |db.ratings| ensures r1[i].gameId != n {
          RatedGameIds(db, i);
        }
        if row.whiteId == row.blackId { assert r1[|db.ratings|].playerId == row.blackId; }
      }
      assert row.whiteId == row.blackId <==> g.white == g.black by {
        assert Holds(s.players.rows, row.whiteId, g.white);
        assert Holds(s.players.rows, row.blackId, g.black);
      }
    }
  }

  /** A game with the same name for both colours keeps one rating row as
      written: the second `insert_elo` violates the primary key, the bare
      `except` swallows the error, and the game is left without Black's row. */
  lemma SameNameKeepsOneRating(db: Db, g: PgnGame)
    requires Wf(db) && g.white == g.black && g.whiteElo.Some? && g.blackElo.Some?
    ensures var r := InsertGameAsWritten(db, g);
            && r.ret.None? && |r.db.games| == |db.games| + 1 && |r.db.ratings| == |db.ratings| + 1
            && !Rated(r.db)
  {
    AsWrittenRatings(db, g);
  }

  /** For a game that can be stored whole, the call as written writes what the
      corrected call writes; only the returned value differs, being the rowid
      of Black's rating row, twice the game id. */
  lemma AsWrittenAgrees(db: Db, g: PgnGame)
    requires Wf(db) && Complete(g)
    ensures InsertGameAsWritten(db, g).db == InsertGame(db, g).db
    ensures InsertGameAsWritten(db, g).ret == Some(2 * InsertGame(db, g).ret.value)
  {
    AsWrittenRatings(db, g);
  }

  /** The loop's filter: games whose White, Black or Event tag is "?" are skipped. */
  predicate Skipped(g: PgnGame)
  {
    g.white == "?" || g.black == "?" || g.event == "?"
  }

  /** True iff the corrected loop stores the game: known players and event,
      and a game that can be stored whole. */
  predicate Stored(g: PgnGame)
  {
    !Skipped(g) && Complete(g)
  }

  /** True iff no player or event is named "?". */
  predicate NoUnknown(db: Db)
  {
    "?" !in db.players.rows && "?" !in db.events.rows
  }

  /** One turn of the corrected loop: a skipped game changes nothing, any
      other goes to the corrected `insert_game`. */
  function LoadOne(db: Db, g: PgnGame): (r: Db)
    requires Wf(db)
    ensures Wf(r)
    ensures |r.games| == |db.games| + (if Stored(g) then 1 else 0)
    ensures db.games <= r.games
    ensures NoUnknown(db) ==> NoUnknown(r)
  {
    InsertGameKeepsWf(db, g);
    StoreGameNames(db, g);
    if Skipped(g) then db else InsertGame(db, g).db
  }

  /** The loop over the games of the PGN files, with the corrected call. */
  function Load(db: Db, gs: seq<PgnGame>): (r: Db)
    requires Wf(db)
    ensures Wf(r)
    decreases |gs|
  {
    if |gs| == 0 then db else Load(LoadOne(db, gs[0]), gs[1..])
  }

  /** The number of games of `gs` the loop stores. */
  function StoredCount(gs: seq<PgnGame>): nat
    decreases |gs|
  {
    if |gs| == 0 then 0 else (if Stored(gs[0]) then 1 else 0) + StoredCount(gs[1..])
  }

  /** The corrected loop adds one game per storable game and keeps what was
      there; and a database without an unknown ("?") player or event never
      gets one. */
  lemma {:induction false} LoadCounts(db: Db, gs: seq<PgnGame>)
    requires Wf(db)
    ensures |Load(db, gs).games| == |db.games| + StoredCount(gs)
    ensures db.games <= Load(db, gs).games
    ensures NoUnknown(db) ==> NoUnknown(Load(db, gs))
    decreases |gs|
  {
    if |gs| > 0 {
      LoadCounts(LoadOne(db, gs[0]), gs[1..]);
    }
  }

  /** One turn of the loop as written: a skipped game changes nothing, any
      other goes to `insert_game` as written, whose partial writes stay. */
  function LoadOneAsWritten(db: Db, g: PgnGame): (r: Db)
    requires NamesOk(db.players) && NamesOk(db.events)
    ensures NamesOk(r.players) && NamesOk(r.events)
    ensures |r.games| == |db.games| + (if Skipped(g) then 0 else 1)
    ensures db.games <= r.games
    ensures NoUnknown(db) ==> NoUnknown(r)
  {
    StoreGameNames(db, g);
    if Skipped(g) then db else InsertGameAsWritten(db, g).db
  }

  /** The loop over the games of the PGN files (extract_pgn.py:136-153). */
  function LoadAsWritten(db: Db, gs: seq<PgnGame>): (r: Db)
    requires NamesOk(db.players) && NamesOk(db.events)
    ensures NamesOk(r.players) && NamesOk(r.events)
    decreases |gs|
  {
    if |gs| == 0 then db else LoadAsWritten(LoadOneAsWritten(db, gs[0]), gs[1..])
  }

  /** The number of games of `gs` the filter lets through. */
  function KeptCount(gs: seq<PgnGame>): nat
    decreases |gs|
  {
    if |gs| == 0 then 0 else (if Skipped(gs[0]) then 0 else 1) + KeptCount(gs[1..])
  }

  /** As written the loop adds a GAMES row for every game the filter lets
      through, rated or not, keeps what was there, and never inserts a "?"
      player or event. */
  lemma {:induction false} LoadAsWrittenCounts(db: Db, gs: seq<PgnGame>)
    requires NamesOk(db.players) && NamesOk(db.events)
    ensures |LoadAsWritten(db, gs).games| == |db.games| + KeptCount(gs)
    ensures db.games <= LoadAsWritten(db, gs).games
    ensures NoUnknown(db) ==> NoUnknown(LoadAsWritten(db, gs))
    decreases |gs|
  {
    if |gs| > 0 {
      LoadAsWrittenCounts(LoadOneAsWritten(db, gs[0]), gs[1..]);
    }
  }

  /** When every game the filter lets through can be stored whole, the loop as
      written and the corrected loop build the same database. */
  lemma {:induction false} LoadAgrees(db: Db, gs: seq<PgnGame>)
    requires Wf(db)
    requires forall i :: 0 <= i < |gs| && !Skipped(gs[i]) ==> Complete(gs[i])
    ensures LoadAsWritten(db, gs) == Load(db, gs)
    decreases |gs|
  {
    if |gs| > 0 {
      if !Skipped(gs[0]) {
        AsWrittenAgrees(db, gs[0]);
      }
      assert forall i :: 0 <= i < |gs[1..]| ==> gs[1..][i] == gs[i + 1];
      LoadAgrees(LoadOne(db, gs[0]), gs[1..]);
    }
  }
}
