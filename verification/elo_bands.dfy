/** The `get_outcomes_by_elo` endpoint (backend-src/server.py:162-192): the
    moves played from a position are grouped into rating bands of width 200
    named by `elor = FLOOR(w.elo / 200) * 200`, the band of the white player,
    and a move is counted only when the black player's rating lies in the same
    band and the game is finished. Ratings are INTEGER columns, so `w.elo / 200`
    is PostgreSQL integer division, which truncates toward zero, and FLOOR of
    that integer changes nothing. */
module EloBands {
  import opened Wrappers

  /** A move joined with its game's outcome and both players' ratings. */
  datatype Rated = Rated(fenBefore: string, whiteElo: int, blackElo: int, outcome: string)

  /** One result row. */
  datatype Band = Band(elor: int, occs: nat, wwin: nat, bwin: nat, draw: nat)

  const Width: int := 200

  /** PostgreSQL integer division by a positive divisor: truncation toward zero. */
  function TruncDiv(a: int, b: int): (q: int)
    requires b > 0
    ensures a >= 0 ==> q * b <= a < (q + 1) * b
    ensures a < 0 ==> (q - 1) * b < a <= q * b
  {
    if a >= 0 then a / b else -((-a) / b)
  }

  /** The band of a rating: `FLOOR(elo / 200) * 200`. */
  function Elor(elo: int): int
  {
    TruncDiv(elo, Width) * Width
  }

  /** A non-negative rating lies in the band its elor names: elor is a multiple
      of 200 with elor <= elo < elor + 200. A negative rating is truncated toward
      zero instead, so its elor lies above it. */
  lemma ElorBand(elo: int)
    ensures Elor(elo) % Width == 0
    ensures elo >= 0 ==> Elor(elo) <= elo < Elor(elo) + Width
    ensures elo < 0 ==> Elor(elo) - Width < elo <= Elor(elo)
  {
    var q := TruncDiv(elo, Width);
    assert Elor(elo) == q * Width;
  }

  /** The join condition as written: finished game, and black strictly above
      the band's lower edge and strictly below its upper edge. */
  predicate CountedAsWritten(r: Rated, fen: string)
  {
    && r.fenBefore == fen && r.outcome != "*"
    && r.blackElo > Elor(r.whiteElo)
    && r.blackElo < Elor(r.whiteElo) + Width
  }

  /** The condition the comment above the query describes: black's rating
      between the band's edges, the lower edge included. */
  predicate Counted(r: Rated, fen: string)
  {
    && r.fenBefore == fen && r.outcome != "*"
    && Elor(r.whiteElo) <= r.blackElo < Elor(r.whiteElo) + Width
  }

  /** As written, two players both rated 2000 (band 2000-2199) are not counted,
      and the rule is not symmetric: swapping the colours of players rated 2000
      and 2100 changes whether the game counts. */
  lemma LowerEdgeExcluded()
    ensures !CountedAsWritten(Rated("p", 2000, 2000, "1-0"), "p")
    ensures Counted(Rated("p", 2000, 2000, "1-0"), "p")
    ensures CountedAsWritten(Rated("p", 2000, 2100, "1-0"), "p")
    ensures !CountedAsWritten(Rated("p", 2100, 2000, "1-0"), "p")
  {
    assert Elor(2000) == 2000 by { assert TruncDiv(2000, 200) == 10; }
    assert Elor(2100) == 2000 by { assert TruncDiv(2100, 200) == 10; }
  }

  /** With the lower edge included, a finished game from the position counts
      exactly when both non-negative ratings lie in the same band, so the rule
      is symmetric in the two colours; the band it counts in is both players'. */
  lemma CountedIsSameBand(r: Rated, fen: string)
    requires r.whiteElo >= 0 && r.blackElo >= 0
    ensures Counted(r, fen) <==> (r.fenBefore == fen && r.outcome != "*" && Elor(r.whiteElo) == Elor(r.blackElo))
    ensures Counted(r, fen) <==> Counted(r.(whiteElo := r.blackElo, blackElo := r.whiteElo), fen)
  {
    ElorBand(r.whiteElo);
    ElorBand(r.blackElo);
    var qw := TruncDiv(r.whiteElo, Width);
    var qb := TruncDiv(r.blackElo, Width);
    if Elor(r.whiteElo) <= r.blackElo < Elor(r.whiteElo) + Width {
      if qb < qw { MulLe(qb + 1, qw); }
      if qb > qw { MulLe(qw + 1, qb); }
    }
    if Elor(r.blackElo) <= r.whiteElo < Elor(r.blackElo) + Width {
      if qb < qw { MulLe(qb + 1, qw); }
      if qb > qw { MulLe(qw + 1, qb); }
    }
  }

  lemma MulLe(a: int, b: int)
    requires a <= b
    ensures a * Width <= b * Width
  {
  }

  /** The join condition a query uses: the one at server.py:186-187, or the
      one its comment describes. */
  datatype Rule = AsWritten | Intended

  predicate CountedBy(rule: Rule, r: Rated, fen: string)
  {
    match rule
    case AsWritten => CountedAsWritten(r, fen)
    case Intended => Counted(r, fen)
  }

  /** True iff row `r` is counted in band `elor` with the given outcome (None
      for every outcome). */
  predicate InBand(rule: Rule, r: Rated, fen: string, elor: int, outcome: Option<string>)
  {
    CountedBy(rule, r, fen) && Elor(r.whiteElo) == elor && (outcome.None? || r.outcome == outcome.value)
  }

  /** `COUNT(...)` over one group, folded over the rows. */
  function Count(rule: Rule, rows: seq<Rated>, fen: string, elor: int, outcome: Option<string>): nat
    decreases |rows|
  {
    if |rows| == 0 then 0
    else
      Count(rule, rows[..|rows| - 1], fen, elor, outcome)
      + if InBand(rule, rows[|rows| - 1], fen, elor, outcome) then 1 else 0
  }

  /** The positions of the rows a group counts. */
  function Matching(rule: Rule, rows: seq<Rated>, fen: string, elor: int, outcome: Option<string>): set<nat>
  {
    set i: nat | i < |rows| && InBand(rule, rows[i], fen, elor, outcome)
  }

  /** The fold counts exactly the rows the group's condition selects. */
  lemma {:induction false} CountIsMatching(rule: Rule, rows: seq<Rated>, fen: string, elor: int, outcome: Option<string>)
    ensures Count(rule, rows, fen, elor, outcome) == |Matching(rule, rows, fen, elor, outcome)|
    decreases |rows|
  {
    if |rows| > 0 {
      var n := |rows| - 1;
      CountIsMatching(rule, rows[..n], fen, elor, outcome);
      var before := Matching(rule, rows[..n], fen, elor, outcome);
      var all := Matching(rule, rows, fen, elor, outcome);
      var last: set<nat> := if InBand(rule, rows[n], fen, elor, outcome) then {n} else {};
      forall i: nat
        ensures i in all <==> i in before || i in last
      {
        if i < n { assert rows[..n][i] == rows[i]; }
      }
      assert all == before + last;
      assert before !! last;
    }
  }

  /** The distinct bands of the counted rows, in order of first appearance. */
  function Elors(rule: Rule, rows: seq<Rated>, fen: string): seq<int>
    decreases |rows|
  {
    if |rows| == 0 then []
    else
      var init := Elors(rule, rows[..|rows| - 1], fen);
      var r := rows[|rows| - 1];
      if CountedBy(rule, r, fen) && Elor(r.whiteElo) !in init then init + [Elor(r.whiteElo)] else init
  }

  /** Inserts `x` into a strictly decreasing list. */
  function InsertDesc(x: int, xs: seq<int>): seq<int>
    decreases |xs|
  {
    if |xs| == 0 then [x]
    else if xs[0] > x then [xs[0]] + InsertDesc(x, xs[1..])
    else if xs[0] == x then xs
    else [x] + xs
  }

  /** `ORDER BY elor DESC`: the bands, highest first. */
  function SortDesc(xs: seq<int>): seq<int>
    decreases |xs|
  {
    if |xs| == 0 then [] else InsertDesc(xs[0], SortDesc(xs[1..]))
  }

  predicate StrictlyDesc(xs: seq<int>)
  {
    forall i, j :: 0 <= i < j < |xs| ==> xs[i] > xs[j]
  }

  lemma {:induction false} InsertDescCorrect(x: int, xs: seq<int>)
    requires StrictlyDesc(xs)
    ensures StrictlyDesc(InsertDesc(x, xs))
    ensures forall y :: y in InsertDesc(x, xs) <==> y == x || y in xs
    decreases |xs|
  {
    if |xs| > 0 && xs[0] > x {
      InsertDescCorrect(x, xs[1..]);
      var r := InsertDesc(x, xs);
      assert r == [xs[0]] + InsertDesc(x, xs[1..]);
      assert xs == [xs[0]] + xs[1..];
      forall j | 1 <= j < |r| ensures xs[0] > r[j] {
        assert r[j] in InsertDesc(x, xs[1..]);
      }
    }
  }

  lemma {:induction false} SortDescCorrect(xs: seq<int>)
    ensures StrictlyDesc(SortDesc(xs))
    ensures forall y :: y in SortDesc(xs) <==> y in xs
    decreases |xs|
  {
    if |xs| > 0 {
      SortDescCorrect(xs[1..]);
      InsertDescCorrect(xs[0], SortDesc(xs[1..]));
      assert xs == [xs[0]] + xs[1..];
    }
  }

  /** The endpoint's rows under a join rule: one per band with a counted move,
      highest band first; `get_outcomes_by_elo` is `OutcomesByElo(AsWritten, ..)`. */
  function OutcomesByElo(rule: Rule, rows: seq<Rated>, fen: string): seq<Band>
  {
    var bands := SortDesc(Elors(rule, rows, fen));
    seq(|bands|, i requires 0 <= i < |bands| =>
      Band(bands[i], Count(rule, rows, fen, bands[i], None), Count(rule, rows, fen, bands[i], Some("1-0")),
           Count(rule, rows, fen, bands[i], Some("0-1")), Count(rule, rows, fen, bands[i], Some("1/2-1/2"))))
  }

  /** True iff some row counted under `rule` falls in band `e`. */
  predicate HasCounted(rule: Rule, rows: seq<Rated>, fen: string, e: int)
  {
    exists i :: 0 <= i < |rows| && CountedBy(rule, rows[i], fen) && Elor(rows[i].whiteElo) == e
  }

  /** True iff some result row names band `e`. */
  predicate HasBand(out: seq<Band>, e: int)
  {
    exists i :: 0 <= i < |out| && out[i].elor == e
  }

  /** A band appears exactly when some counted row falls in it. */
  lemma {:induction false} ElorsMembers(rule: Rule, rows: seq<Rated>, fen: string, e: int)
    ensures e in Elors(rule, rows, fen) <==> HasCounted(rule, rows, fen, e)
    decreases |rows|
  {
    if |rows| > 0 {
      var n := |rows| - 1;
      ElorsMembers(rule, rows[..n], fen, e);
      assert forall i :: 0 <= i < n ==> rows[..n][i] == rows[i];
    }
  }

  /** A counted row adds one to its band. */
  lemma {:induction false} CountPositive(rule: Rule, rows: seq<Rated>, fen: string, i: nat)
    requires i < |rows| && CountedBy(rule, rows[i], fen)
    ensures Count(rule, rows, fen, Elor(rows[i].whiteElo), None) >= 1
    decreases |rows|
  {
    var n := |rows| - 1;
    if i < n {
      assert rows[..n][i] == rows[i];
      CountPositive(rule, rows[..n], fen, i);
    }
  }

  lemma {:induction false} OutcomesWithinOccs(rule: Rule, rows: seq<Rated>, fen: string, e: int)
    ensures Count(rule, rows, fen, e, Some("1-0")) + Count(rule, rows, fen, e, Some("0-1"))
            + Count(rule, rows, fen, e, Some("1/2-1/2")) <= Count(rule, rows, fen, e, None)
    decreases |rows|
  {
    if |rows| > 0 {
      OutcomesWithinOccs(rule, rows[..|rows| - 1], fen, e);
    }
  }

  /** The result lists each band with a counted move once, highest first, and
      nothing else; each band is a multiple of 200 with at least one move; its
      `occs` and outcome columns are the counts of its group (see
      CountIsMatching), and the outcome counts stay within the occurrences. */
  lemma OutcomesByEloCorrect(rule: Rule, rows: seq<Rated>, fen: string)
    ensures var out := OutcomesByElo(rule, rows, fen);
      && (forall i, j :: 0 <= i < j < |out| ==> out[i].elor > out[j].elor)
      && (forall e :: HasBand(out, e) <==> HasCounted(rule, rows, fen, e))
      && (forall i :: 0 <= i < |out| ==>
            && out[i].occs == Count(rule, rows, fen, out[i].elor, None)
            && out[i].wwin == Count(rule, rows, fen, out[i].elor, Some("1-0"))
            && out[i].bwin == Count(rule, rows, fen, out[i].elor, Some("0-1"))
            && out[i].draw == Count(rule, rows, fen, out[i].elor, Some("1/2-1/2")))
      && (forall i :: 0 <= i < |out| ==> out[i].elor % Width == 0 && out[i].occs >= 1
                                         && out[i].wwin + out[i].bwin + out[i].draw <= out[i].occs)
  {
    var elors := Elors(rule, rows, fen);
    var bands := SortDesc(elors);
    var out := OutcomesByElo(rule, rows, fen);
    SortDescCorrect(elors);
    forall e
      ensures HasBand(out, e) <==> HasCounted(rule, rows, fen, e)
    {
      ElorsMembers(rule, rows, fen, e);
      if e in elors {
        var i :| 0 <= i < |bands| && bands[i] == e;
        assert out[i].elor == e;
      }
    }
    forall i | 0 <= i < |out|
      ensures out[i].elor % Width == 0 && out[i].occs >= 1 && out[i].wwin + out[i].bwin + out[i].draw <= out[i].occs
    {
      var e := bands[i];
      assert e in elors;
      ElorsMembers(rule, rows, fen, e);
      var k :| 0 <= k < |rows| && CountedBy(rule, rows[k], fen) && Elor(rows[k].whiteElo) == e;
      CountPositive(rule, rows, fen, k);
      ElorBand(rows[k].whiteElo);
      OutcomesWithinOccs(rule, rows, fen, e);
    }
  }

  /** The query as written returns nothing for a single won game between two
      players rated 2000, where the intended rule reports band 2000 with one
      occurrence and one white win. */
  lemma EdgeGameDropped()
    ensures OutcomesByElo(AsWritten, [Rated("p", 2000, 2000, "1-0")], "p") == []
    ensures OutcomesByElo(Intended, [Rated("p", 2000, 2000, "1-0")], "p") == [Band(2000, 1, 1, 0, 0)]
  {
    var rows := [Rated("p", 2000, 2000, "1-0")];
    LowerEdgeExcluded();
    assert rows[..0] == [];
    assert Elors(AsWritten, rows, "p") == [];
    assert Elors(Intended, rows, "p") == [2000];
    assert SortDesc([2000]) == [2000];
    assert Count(Intended, rows, "p", 2000, None) == 1;
    assert Count(Intended, rows, "p", 2000, Some("1-0")) == 1;
    assert Count(Intended, rows, "p", 2000, Some("0-1")) == 0;
    assert Count(Intended, rows, "p", 2000, Some("1/2-1/2")) == 0;
  }
}
