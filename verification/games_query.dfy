/** The query builder of `get_games` (backend-src/server.py:84-129): a fixed
    SELECT whose one placeholder is the position, then one `AND ... %s` clause
    and one parameter per argument that is not None, in the order of the
    parameter list, then the ordering and the limit. The SQL text is kept as
    fragments: literal text (which holds no placeholder) and `%s` holes. */
module GamesQuery {
  import opened Wrappers
  import opened QueryBinding
  import opened SqlLike

  datatype Side = White | Black

  /** One WHERE clause after the position test, with the value it binds. */
  datatype Filter =
    | EloAbove(side: Side, bound: int)
    | EloBelow(side: Side, bound: int)
    | NameLike(side: Side, pattern: string)
    | OutcomeLike(pattern: string)

  /** A value handed to the driver alongside the SQL text. */
  datatype SqlParam = PStr(s: string) | PInt(i: int)

  datatype Frag = Text(text: string) | Hole

  /** The SQL fragments and the parameter list handed to `cur.execute`. */
  datatype Query = Query(frags: seq<Frag>, params: seq<SqlParam>)

  const Select: string :=
    "SELECT DISTINCT GAMES.game_id as id, GAMES.date as date, outcome, w.name as w_player, "
    + "b.name as b_player, rw.elo as w_elo, rb.elo as b_elo, (rw.elo + rb.elo) as combined_elo "
    + "FROM MOVES JOIN GAMES ON MOVES.game_id = GAMES.game_id "
    + "JOIN PLAYERS w on white_player_id=w.player_id JOIN PLAYERS b on black_player_id=b.player_id "
    + "JOIN RATINGS rw on white_player_id=rw.player_id AND GAMES.game_id=rw.game_id "
    + "JOIN RATINGS rb on black_player_id=rb.player_id AND rb.game_id = GAMES.game_id "
    + "WHERE fen_before="

  const OrderBy: string := "ORDER BY (rw.elo + rb.elo) DESC "
  const Limit: string := "LIMIT 10;"

  /** The number of `%s` holes in a run of fragments. */
  function Holes(frags: seq<Frag>): nat
    decreases |frags|
  {
    if |frags| == 0 then 0 else (if frags[0].Hole? then 1 else 0) + Holes(frags[1..])
  }

  lemma {:induction false} HolesAppend(s: seq<Frag>, t: seq<Frag>)
    ensures Holes(s + t) == Holes(s) + Holes(t)
    decreases |s|
  {
    if |s| == 0 {
      assert s + t == t;
    } else {
      assert (s + t)[1..] == s[1..] + t;
      HolesAppend(s[1..], t);
    }
  }

  /** A clause, and the base query, carry one hole; the tail carries none. */
  lemma HolesOfClause(t: string)
    ensures Holes([Text(t), Hole, Text(" ")]) == 1
  {
    var c := [Text(t), Hole, Text(" ")];
    assert c[1..] == [Hole, Text(" ")];
    assert c[1..][1..] == [Text(" ")];
    assert c[1..][1..][1..] == [];
    assert Holes([Text(" ")]) == 0 + Holes([]);
    assert Holes([Hole, Text(" ")]) == 1 + Holes([Text(" ")]);
    assert Holes(c) == 0 + Holes([Hole, Text(" ")]);
  }

  lemma HolesOfTail()
    ensures Holes([Text(OrderBy), Text(Limit)]) == 0
  {
    var c := [Text(OrderBy), Text(Limit)];
    assert c[1..] == [Text(Limit)];
    assert c[1..][1..] == [];
    assert Holes([Text(Limit)]) == 0 + Holes([]);
    assert Holes(c) == 0 + Holes([Text(Limit)]);
  }

  function SideAlias(side: Side, elo: bool): string
  {
    match side
    case White => if elo then "rw.elo" else "w.name"
    case Black => if elo then "rb.elo" else "b.name"
  }

  /** The text a filter appends before its hole. */
  function ClauseText(f: Filter): string
  {
    match f
    case EloAbove(side, _) => "AND " + SideAlias(side, true) + " > "
    case EloBelow(side, _) => "AND " + SideAlias(side, true) + " < "
    case NameLike(side, _) => "AND " + SideAlias(side, false) + " like "
    case OutcomeLike(_) => "AND GAMES.outcome like "
  }

  /** The parameter a filter appends. */
  function ParamOf(f: Filter): SqlParam
  {
    match f
    case EloAbove(_, b) => PInt(b)
    case EloBelow(_, b) => PInt(b)
    case NameLike(_, p) => PStr(p)
    case OutcomeLike(p) => PStr(p)
  }

  /** The query before any filter: the SELECT and the position's hole. */
  function Base(fen: string): Query
  {
    Query([Text(Select), Hole, Text(" ")], [PStr(fen)])
  }

  /** `if x is not None: query_str += clause; query_params.append(param)`: one
      hole and one parameter together, or nothing. */
  function AddFilter(q: Query, f: Option<Filter>): (r: Query)
    ensures Holes(r.frags) == Holes(q.frags) + (if f.Some? then 1 else 0)
    ensures |r.params| == |q.params| + (if f.Some? then 1 else 0)
    ensures q.frags <= r.frags && q.params <= r.params
    ensures f.Some? ==> r.params[|q.params|] == ParamOf(f.value)
  {
    match f
    case None => q
    case Some(g) =>
      var clause := [Text(ClauseText(g)), Hole, Text(" ")];
      HolesAppend(q.frags, clause);
      HolesOfClause(ClauseText(g));
      Query(q.frags + clause, q.params + [ParamOf(g)])
  }

  function AddAll(q: Query, cands: seq<Option<Filter>>): Query
    decreases |cands|
  {
    if |cands| == 0 then q else AddAll(AddFilter(q, cands[0]), cands[1..])
  }

  function EloFilter(above: bool, side: Side, bound: Option<int>): Option<Filter>
  {
    match bound
    case None => None
    case Some(b) => Some(if above then EloAbove(side, b) else EloBelow(side, b))
  }

  function NameFilter(side: Side, name: Option<string>): Option<Filter>
  {
    match name
    case None => None
    case Some(n) => Some(NameLike(side, "%" + n + "%"))
  }

  function ResultFilter(result: Option<string>): Option<Filter>
  {
    match result
    case None => None
    case Some(r) => Some(OutcomeLike(r))
  }

  /** The candidate filters in the order the handler tests its parameters. */
  function Candidates(a: ServerArgs): (cands: seq<Option<Filter>>)
    ensures |cands| == 7
  {
    [EloFilter(true, White, a.wmin), EloFilter(false, White, a.wmax),
     EloFilter(true, Black, a.bmin), EloFilter(false, Black, a.bmax),
     NameFilter(White, a.wname), NameFilter(Black, a.bname),
     ResultFilter(a.result)]
  }

  /** The query `get_games` executes for bound arguments. */
  function Build(a: ServerArgs): Query
  {
    var q := AddAll(Base(a.fen), Candidates(a));
    Query(q.frags + [Text(OrderBy), Text(Limit)], q.params)
  }

  /** The filters actually applied, in order. */
  function Somes(cands: seq<Option<Filter>>): seq<Filter>
    decreases |cands|
  {
    if |cands| == 0 then []
    else (if cands[0].Some? then [cands[0].value] else []) + Somes(cands[1..])
  }

  function ParamsOf(fs: seq<Filter>): seq<SqlParam>
    decreases |fs|
  {
    if |fs| == 0 then [] else [ParamOf(fs[0])] + ParamsOf(fs[1..])
  }

  /** The number of arguments that are not None. */
  function Present(a: ServerArgs): nat
  {
    (if a.wmin.Some? then 1 else 0) + (if a.wmax.Some? then 1 else 0)
    + (if a.bmin.Some? then 1 else 0) + (if a.bmax.Some? then 1 else 0)
    + (if a.wname.Some? then 1 else 0) + (if a.bname.Some? then 1 else 0)
    + (if a.result.Some? then 1 else 0)
  }

  lemma {:induction false} AddAllShape(q: Query, cands: seq<Option<Filter>>)
    ensures AddAll(q, cands).params == q.params + ParamsOf(Somes(cands))
    ensures Holes(AddAll(q, cands).frags) == Holes(q.frags) + |Somes(cands)|
    ensures q.frags <= AddAll(q, cands).frags
    decreases |cands|
  {
    if |cands| > 0 {
      var q1 := AddFilter(q, cands[0]);
      AddAllShape(q1, cands[1..]);
      if cands[0].Some? {
        assert Somes(cands) == [cands[0].value] + Somes(cands[1..]);
        assert ParamsOf(Somes(cands)) == [ParamOf(cands[0].value)] + ParamsOf(Somes(cands[1..]));
        assert q1.params == q.params + [ParamOf(cands[0].value)];
      } else {
        assert Somes(cands) == Somes(cands[1..]);
      }
    }
  }

  lemma {:induction false} ParamsOfLength(fs: seq<Filter>)
    ensures |ParamsOf(fs)| == |fs|
    decreases |fs|
  {
    if |fs| > 0 { ParamsOfLength(fs[1..]); }
  }

  lemma CandidatesCount(a: ServerArgs)
    ensures |Somes(Candidates(a))| == Present(a)
  {
    var c0 := Candidates(a);
    var c1 := c0[1..]; var c2 := c1[1..]; var c3 := c2[1..]; var c4 := c3[1..];
    var c5 := c4[1..]; var c6 := c5[1..]; var c7 := c6[1..];
    assert c7 == [];
    assert |Somes(c6)| == (if a.result.Some? then 1 else 0) + |Somes(c7)|;
    assert |Somes(c5)| == (if a.bname.Some? then 1 else 0) + |Somes(c6)|;
    assert |Somes(c4)| == (if a.wname.Some? then 1 else 0) + |Somes(c5)|;
    assert |Somes(c3)| == (if a.bmax.Some? then 1 else 0) + |Somes(c4)|;
    assert |Somes(c2)| == (if a.bmin.Some? then 1 else 0) + |Somes(c3)|;
    assert |Somes(c1)| == (if a.wmax.Some? then 1 else 0) + |Somes(c2)|;
    assert |Somes(c0)| == (if a.wmin.Some? then 1 else 0) + |Somes(c1)|;
  }

  /** The executed query is well formed and says what the arguments ask for:
      it starts with the SELECT and the position's hole, the position is the
      first parameter, each argument that is not None adds exactly one hole and
      one parameter, in parameter order, so the holes and the parameters
      balance; and the query always ends with the ordering by combined rating
      and the limit of ten. */
  lemma BuildShape(a: ServerArgs)
    ensures Holes(Build(a).frags) == |Build(a).params| == 1 + Present(a)
    ensures Build(a).params == [PStr(a.fen)] + ParamsOf(Somes(Candidates(a)))
    ensures |Build(a).frags| >= 5
    ensures Build(a).frags[..3] == [Text(Select), Hole, Text(" ")]
    ensures Build(a).frags[|Build(a).frags| - 2..] == [Text(OrderBy), Text(Limit)]
  {
    var b := Base(a.fen);
    var q := AddAll(b, Candidates(a));
    AddAllShape(b, Candidates(a));
    CandidatesCount(a);
    ParamsOfLength(Somes(Candidates(a)));
    HolesOfClause(Select);
    HolesAppend(q.frags, [Text(OrderBy), Text(Limit)]);
    HolesOfTail();
    assert b.frags <= q.frags;
  }

  /** The columns of a game the filters look at. */
  datatype GameRow = GameRow(fenBefore: string, whiteElo: int, blackElo: int,
                             whiteName: string, blackName: string, outcome: string)

  function EloOf(row: GameRow, side: Side): int
  {
    match side
    case White => row.whiteElo
    case Black => row.blackElo
  }

  function NameOf(row: GameRow, side: Side): string
  {
    match side
    case White => row.whiteName
    case Black => row.blackName
  }

  /** What a clause tests once its parameter is bound. */
  predicate Holds(f: Filter, row: GameRow)
  {
    match f
    case EloAbove(side, b) => EloOf(row, side) > b
    case EloBelow(side, b) => EloOf(row, side) < b
    case NameLike(side, p) => Like(NameOf(row, side), p)
    case OutcomeLike(p) => Like(row.outcome, p)
  }

  /** True iff the query's WHERE clause admits the row. */
  predicate Admits(a: ServerArgs, row: GameRow)
  {
    row.fenBefore == a.fen && forall f :: f in Somes(Candidates(a)) ==> Holds(f, row)
  }

  /** The filter the handler's comment describes, read directly off the
      arguments: the position, strict rating bounds, names by substring and the
      outcome by equality; an argument that is None does not constrain. */
  predicate Intended(a: ServerArgs, row: GameRow)
  {
    && row.fenBefore == a.fen
    && (a.wmin.Some? ==> row.whiteElo > a.wmin.value)
    && (a.wmax.Some? ==> row.whiteElo < a.wmax.value)
    && (a.bmin.Some? ==> row.blackElo > a.bmin.value)
    && (a.bmax.Some? ==> row.blackElo < a.bmax.value)
    && (a.wname.Some? ==> Contains(row.whiteName, a.wname.value))
    && (a.bname.Some? ==> Contains(row.blackName, a.bname.value))
    && (a.result.Some? ==> row.outcome == a.result.value)
  }

  /** True iff no text argument holds a character `LIKE` treats specially. */
  predicate LiteralText(a: ServerArgs)
  {
    && (a.wname.Some? ==> Literal(a.wname.value))
    && (a.bname.Some? ==> Literal(a.bname.value))
    && (a.result.Some? ==> Literal(a.result.value))
  }

  lemma {:induction false} SomesHold(cands: seq<Option<Filter>>, row: GameRow)
    ensures (forall f :: f in Somes(cands) ==> Holds(f, row))
            <==> (forall i :: 0 <= i < |cands| && cands[i].Some? ==> Holds(cands[i].value, row))
    decreases |cands|
  {
    if |cands| > 0 {
      SomesHold(cands[1..], row);
      assert Somes(cands) == (if cands[0].Some? then [cands[0].value] else []) + Somes(cands[1..]);
      assert forall i :: 1 <= i < |cands| ==> cands[i] == cands[1..][i - 1];
    }
  }

  /** For arguments free of `LIKE` wildcards, the executed query admits exactly
      the games the arguments describe. */
  lemma AdmitsIntended(a: ServerArgs, row: GameRow)
    requires LiteralText(a)
    ensures Admits(a, row) <==> Intended(a, row)
  {
    var c := Candidates(a);
    SomesHold(c, row);
    if a.wname.Some? { LikeContains(row.whiteName, a.wname.value); }
    if a.bname.Some? { LikeContains(row.blackName, a.bname.value); }
    if a.result.Some? { LikeLiteral(row.outcome, a.result.value); }
    assert (forall i :: 0 <= i < |c| && c[i].Some? ==> Holds(c[i].value, row))
      <==> (&& (c[0].Some? ==> Holds(c[0].value, row)) && (c[1].Some? ==> Holds(c[1].value, row))
            && (c[2].Some? ==> Holds(c[2].value, row)) && (c[3].Some? ==> Holds(c[3].value, row))
            && (c[4].Some? ==> Holds(c[4].value, row)) && (c[5].Some? ==> Holds(c[5].value, row))
            && (c[6].Some? ==> Holds(c[6].value, row)));
  }

  /** The rating bounds are strict: a game whose white rating equals `wmin` or
      `wmax` is never admitted, and an empty name filters nothing. */
  lemma BoundsAreStrict(a: ServerArgs, row: GameRow)
    ensures a.wmin == Some(row.whiteElo) ==> !Admits(a, row)
    ensures a.wmax == Some(row.whiteElo) ==> !Admits(a, row)
    ensures a.bmin == Some(row.blackElo) ==> !Admits(a, row)
    ensures a.bmax == Some(row.blackElo) ==> !Admits(a, row)
    ensures (&& a.wname == Some("") && a.bname.None? && a.result.None? && a.wmin.None?
             && a.wmax.None? && a.bmin.None? && a.bmax.None?)
            ==> (Admits(a, row) <==> row.fenBefore == a.fen)
  {
    var c := Candidates(a);
    if a.wmin == Some(row.whiteElo) { assert c[0].value in Somes(c) by { SomesMember(c, 0); } }
    if a.wmax == Some(row.whiteElo) { assert c[1].value in Somes(c) by { SomesMember(c, 1); } }
    if a.bmin == Some(row.blackElo) { assert c[2].value in Somes(c) by { SomesMember(c, 2); } }
    if a.bmax == Some(row.blackElo) { assert c[3].value in Somes(c) by { SomesMember(c, 3); } }
    if a.wname == Some("") && a.bname.None? && a.result.None? && a.wmin.None? && a.wmax.None?
       && a.bmin.None? && a.bmax.None? {
      AdmitsIntended(a, row);
      LikeContains(row.whiteName, "");
    }
  }

  lemma {:induction false} SomesMember(cands: seq<Option<Filter>>, i: nat)
    requires i < |cands| && cands[i].Some?
    ensures cands[i].value in Somes(cands)
    decreases i
  {
    assert Somes(cands) == (if cands[0].Some? then [cands[0].value] else []) + Somes(cands[1..]);
    if i > 0 {
      SomesMember(cands[1..], i - 1);
    }
  }
}
