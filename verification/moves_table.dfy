/** The MovesTable component (frontend-src/src/moves_table.js): one row per
    move of the `get_moves` response with the three outcome percentages, each
    `Math.round(count * 100 / occurrences)`, and the prop-sync refetch of the
    held FEN. */
module MovesTable {
  import opened Wrappers
  import opened PropSync

  /** `Math.round(100 * count / occ)` for non-negative counts: the quotient is
      rounded half up, which on integers is `(200 * count + occ) div (2 * occ)`.
      The source divides unguarded; a row always has `occ` >= 1 because the
      server groups at least one move into it. */
  function Percent(count: nat, occ: nat): (p: nat)
    requires occ > 0
    ensures 2 * occ * p <= 200 * count + occ < 2 * occ * (p + 1)
  {
    (200 * count + occ) / (2 * occ)
  }

  /** `p` is an integer nearest to `100 * count / occ`, ties going up: the
      distance is at most one half, strictly less on the lower side. */
  predicate NearestHalfUp(count: nat, occ: nat, p: int)
    requires occ > 0
  {
    var gap: int := 100 * count - p * occ;
    -(occ as int) <= 2 * gap < occ
  }

  /** The cell is the one integer nearest the exact percentage (ties up). */
  lemma PercentIsNearest(count: nat, occ: nat, p: int)
    requires occ > 0
    ensures NearestHalfUp(count, occ, Percent(count, occ))
    ensures NearestHalfUp(count, occ, p) ==> p == Percent(count, occ)
  {
    var q := Percent(count, occ);
    assert 2 * occ * (q + 1) == 2 * occ * q + 2 * occ;
    assert 2 * (100 * count - q * occ) == 200 * count - 2 * occ * q;
    if NearestHalfUp(count, occ, p) {
      NearestUnique(count, occ, p, q);
    }
  }

  /** At most one integer is nearest. */
  lemma NearestUnique(count: nat, occ: nat, p: int, q: int)
    requires occ > 0 && NearestHalfUp(count, occ, p) && NearestHalfUp(count, occ, q)
    ensures p == q
  {
    if p < q {
      MulMono(p + 1, q, occ);
    } else if q < p {
      MulMono(q + 1, p, occ);
    }
  }

  lemma MulMono(a: int, b: int, c: nat)
    requires a <= b
    ensures a * c <= b * c
  {
  }

  /** A count within the occurrences gives a cell from 0 to 100; none gives 0
      and all give 100. */
  lemma PercentBounds(count: nat, occ: nat)
    requires occ > 0 && count <= occ
    ensures 0 <= Percent(count, occ) <= 100
    ensures count == 0 ==> Percent(count, occ) == 0
    ensures count == occ ==> Percent(count, occ) == 100
  {
    var p := Percent(count, occ);
    if p > 100 {
      MulMono(101, p, 2 * occ);
    }
    if count == occ && p < 100 {
      MulMono(p + 1, 100, 2 * occ);
    }
  }

  /** More wins never show a smaller percentage. */
  lemma PercentMonotone(c1: nat, c2: nat, occ: nat)
    requires occ > 0 && c1 <= c2
    ensures Percent(c1, occ) <= Percent(c2, occ)
  {
    var p1 := Percent(c1, occ);
    var p2 := Percent(c2, occ);
    if p1 > p2 {
      MulMono(p2 + 1, p1, 2 * occ);
    }
  }

  /** When the three outcomes account for every occurrence, the three cells add
      up to 99, 100 or 101: each rounding moves its cell by at most one half. */
  lemma CellsSumNearHundred(w: nat, b: nat, d: nat, occ: nat)
    requires occ > 0 && w + b + d == occ
    ensures 99 <= Percent(w, occ) + Percent(b, occ) + Percent(d, occ) <= 101
  {
    var pw := Percent(w, occ);
    var pb := Percent(b, occ);
    var pd := Percent(d, occ);
    var s := pw + pb + pd;
    var a := 2 * occ;
    Distribute(a, pw, pb, pd);
    Distribute(a, pw + 1, pb + 1, pd + 1);
    assert a * s <= 203 * occ < a * (s + 3);
    if s > 101 {
      MulMono(102, s, a);
    }
    if s < 99 {
      MulMono(s + 3, 101, a);
    }
  }

  lemma Distribute(a: int, x: int, y: int, z: int)
    ensures a * (x + y + z) == a * x + a * y + a * z
  {
  }

  /** One row of the `get_moves` response. */
  datatype MoveStats = MoveStats(san: string, occurrences: nat, wwin: nat, bwin: nat, draws: nat)

  /** A rendered percentage cell: `Math.round(count * 100 / occ)`, which is NaN
      for 0 / 0 and Infinity for a positive count over no occurrences. */
  datatype Cell = Pct(p: nat) | NaN | Infinity

  function CellOf(count: nat, occ: nat): (c: Cell)
    ensures occ > 0 ==> c.Pct? && NearestHalfUp(count, occ, c.p)
    ensures occ > 0 && count <= occ ==> c.Pct? && c.p <= 100
    ensures occ == 0 ==> (c == NaN <==> count == 0) && (c == Infinity <==> count > 0)
  {
    if occ == 0 then (if count == 0 then NaN else Infinity)
    else if count <= occ then PercentIsNearest(count, occ, 0); PercentBounds(count, occ); Pct(Percent(count, occ))
    else PercentIsNearest(count, occ, 0); Pct(Percent(count, occ))
  }

  /** A rendered row: the move, its count and the three percentage cells. */
  datatype RowView = RowView(san: string, occurrences: nat, white: Cell, black: Cell, draw: Cell)

  /** One `<tr>` of the table: the move and its count as sent, and each outcome
      as the whole percentage nearest its share of the occurrences. */
  function RowOf(m: MoveStats): (r: RowView)
    ensures r.san == m.san && r.occurrences == m.occurrences
    ensures m.occurrences > 0 ==> && r.white.Pct? && NearestHalfUp(m.wwin, m.occurrences, r.white.p)
                                  && r.black.Pct? && NearestHalfUp(m.bwin, m.occurrences, r.black.p)
                                  && r.draw.Pct? && NearestHalfUp(m.draws, m.occurrences, r.draw.p)
  {
    RowView(m.san, m.occurrences, CellOf(m.wwin, m.occurrences),
            CellOf(m.bwin, m.occurrences), CellOf(m.draws, m.occurrences))
  }

  /** The component state. */
  datatype TableState = TableState(fen: string, topMoves: seq<MoveStats>, loading: bool, failed: bool)

  /** A state change and the FEN whose moves it fetches, if any. */
  datatype Step = Step(state: TableState, fetch: Option<string>)

  /** What `render` shows: "Loading...", the no-games paragraph, or the table. */
  datatype TableView = LoadingText | NoGamesText | Table(rows: seq<RowView>)

  /** `render`: loading first, then the empty check; `error` is never read. */
  function View(s: TableState): (v: TableView)
    ensures v == LoadingText <==> s.loading
    ensures v == NoGamesText <==> !s.loading && |s.topMoves| == 0
    ensures v.Table? ==> |v.rows| == |s.topMoves|
    ensures v.Table? ==> forall i :: 0 <= i < |v.rows| ==> v.rows[i] == RowOf(s.topMoves[i])
  {
    if s.loading then LoadingText
    else if |s.topMoves| == 0 then NoGamesText
    else Table(seq(|s.topMoves|, i requires 0 <= i < |s.topMoves| => RowOf(s.topMoves[i])))
  }

  /** A successful fetch: the rows replace the old ones and loading ends. */
  function OnData(s: TableState, data: seq<MoveStats>): (r: TableState)
    ensures r.topMoves == data && !r.loading && r.fen == s.fen && r.failed == s.failed
  {
    s.(topMoves := data, loading := false)
  }

  /** A failed fetch: the error is recorded and loading ends; the rows stay. */
  function OnFailed(s: TableState): (r: TableState)
    ensures r.failed && !r.loading && r.topMoves == s.topMoves && r.fen == s.fen
  {
    s.(failed := true, loading := false)
  }

  /** After a fetch the table shows one row per returned move, or the no-games
      paragraph for none; a failed fetch is indistinguishable from a success
      that returned the rows already held, since render never reads the error. */
  lemma FetchOutcomeViews(s: TableState, data: seq<MoveStats>)
    ensures View(OnData(s, data)).Table? <==> |data| > 0
    ensures View(OnData(s, data)).Table? ==> |View(OnData(s, data)).rows| == |data|
    ensures View(OnFailed(s)) == View(OnData(s, s.topMoves))
  {
  }

  function Init(prop: string): (s: TableState)
    ensures s.fen == prop && s.topMoves == [] && s.loading && !s.failed
  {
    TableState(prop, [], true, false)
  }

  /** `componentDidUpdate`: a different FEN prop is held and its moves fetched;
      the same prop changes nothing. */
  function OnProps(s: TableState, prop: string): (st: Step)
    ensures st.state.fen == prop
    ensures st.fetch.Some? <==> s.fen != prop
    ensures st.fetch.Some? ==> st.fetch.value == prop && st.state.loading
    ensures st.fetch.None? ==> st.state == s
  {
    var r := Sync(s.fen, prop);
    if r.refetch then Step(s.(fen := r.held, loading := true), Some(r.held)) else Step(s, None)
  }

  /** The held FEN settles on the prop: a second update with the same prop
      fetches nothing and changes nothing. */
  lemma OnPropsSettles(s: TableState, prop: string)
    ensures OnProps(OnProps(s, prop).state, prop).fetch.None?
    ensures OnProps(OnProps(s, prop).state, prop).state == OnProps(s, prop).state
  {
  }
}
