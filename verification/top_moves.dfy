/** The `get_moves` endpoint (backend-src/server.py:142-156): over the moves
    played from a position in games with a decided or drawn result (outcome not
    "*"), one row per move text with its number of occurrences and the number
    of white wins, black wins and draws among them, the rows ordered by
    occurrences, most first, and at most `lim` of them. SQL leaves the order of
    rows with equal counts open; the model fixes one (a stable insertion sort).
    The joined MOVES and GAMES rows are the input. */
module TopMoves {
  import opened Wrappers

  /** A move joined with the outcome of its game. */
  datatype Played = Played(fenBefore: string, san: string, outcome: string)

  /** One result row. */
  datatype Tally = Tally(san: string, occurrences: nat, wwin: nat, bwin: nat, draws: nat)

  predicate Eligible(r: Played, fen: string)
  {
    r.fenBefore == fen && r.outcome != "*"
  }

  /** `COUNT(CASE WHEN ... THEN 1 END)` over the eligible rows of one move; the
      outcome None counts them all (`COUNT(*)`). */
  function Count(rows: seq<Played>, fen: string, san: string, outcome: Option<string>): nat
    decreases |rows|
  {
    if |rows| == 0 then 0
    else
      var r := rows[|rows| - 1];
      Count(rows[..|rows| - 1], fen, san, outcome)
      + if Eligible(r, fen) && r.san == san && (outcome.None? || r.outcome == outcome.value) then 1 else 0
  }

  /** The row the grouping produces for one move text. */
  function TallyOf(rows: seq<Played>, fen: string, san: string): Tally
  {
    Tally(san, Count(rows, fen, san, None), Count(rows, fen, san, Some("1-0")),
          Count(rows, fen, san, Some("0-1")), Count(rows, fen, san, Some("1/2-1/2")))
  }

  /** The distinct move texts of the eligible rows, in order of first appearance. */
  function Sans(rows: seq<Played>, fen: string): seq<string>
    decreases |rows|
  {
    if |rows| == 0 then []
    else
      var init := Sans(rows[..|rows| - 1], fen);
      var r := rows[|rows| - 1];
      if Eligible(r, fen) && r.san !in init then init + [r.san] else init
  }

  /** One row per group. */
  function Groups(rows: seq<Played>, fen: string): (g: seq<Tally>)
    ensures |g| == |Sans(rows, fen)|
    ensures forall i :: 0 <= i < |g| ==> g[i] == TallyOf(rows, fen, Sans(rows, fen)[i])
  {
    var sans := Sans(rows, fen);
    seq(|sans|, i requires 0 <= i < |sans| => TallyOf(rows, fen, sans[i]))
  }

  predicate SortedDesc(ts: seq<Tally>)
  {
    forall i, j :: 0 <= i < j < |ts| ==> ts[i].occurrences >= ts[j].occurrences
  }

  /** Inserts `t` after every row with at least its count. */
  function Insert(t: Tally, ts: seq<Tally>): seq<Tally>
    decreases |ts|
  {
    if |ts| == 0 then [t]
    else if ts[0].occurrences >= t.occurrences then [ts[0]] + Insert(t, ts[1..])
    else [t] + ts
  }

  /** `ORDER BY count(*) DESC`. */
  function Sort(ts: seq<Tally>): seq<Tally>
    decreases |ts|
  {
    if |ts| == 0 then [] else Insert(ts[0], Sort(ts[1..]))
  }

  lemma {:induction false} InsertPerm(t: Tally, ts: seq<Tally>)
    ensures multiset(Insert(t, ts)) == multiset(ts) + multiset{t}
    decreases |ts|
  {
    if |ts| > 0 && ts[0].occurrences >= t.occurrences {
      InsertPerm(t, ts[1..]);
      assert ts == [ts[0]] + ts[1..];
    }
  }

  lemma {:induction false} InsertSorted(t: Tally, ts: seq<Tally>)
    requires SortedDesc(ts)
    ensures SortedDesc(Insert(t, ts))
    decreases |ts|
  {
    if |ts| > 0 && ts[0].occurrences >= t.occurrences {
      InsertSorted(t, ts[1..]);
      InsertPerm(t, ts[1..]);
      var r := Insert(t, ts);
      var tail := Insert(t, ts[1..]);
      assert r == [ts[0]] + tail;
      forall j | 1 <= j < |r| ensures ts[0].occurrences >= r[j].occurrences {
        assert r[j] == tail[j - 1];
        assert r[j] in multiset(tail);
        assert r[j] in multiset(ts[1..]) + multiset{t};
        if r[j] != t {
          assert r[j] in ts[1..];
          var k :| 0 <= k < |ts[1..]| && ts[1..][k] == r[j];
          assert ts[k + 1] == r[j];
        }
      }
    }
  }

  /** The ordering is a permutation of the groups, sorted by count. */
  lemma {:induction false} SortCorrect(ts: seq<Tally>)
    ensures multiset(Sort(ts)) == multiset(ts)
    ensures SortedDesc(Sort(ts))
    decreases |ts|
  {
    if |ts| > 0 {
      SortCorrect(ts[1..]);
      InsertPerm(ts[0], Sort(ts[1..]));
      InsertSorted(ts[0], Sort(ts[1..]));
      assert ts == [ts[0]] + ts[1..];
    }
  }

  /** The endpoint: PostgreSQL refuses a negative LIMIT. */
  function GetMoves(rows: seq<Played>, fen: string, lim: int): (r: Result<seq<Tally>, string>)
    ensures r.Err? <==> lim < 0
  {
    if lim < 0 then Err("LIMIT must not be negative")
    else
      var sorted := Sort(Groups(rows, fen));
      Ok(if lim < |sorted| then sorted[..lim] else sorted)
  }

  /** A move text is a group exactly when some eligible row plays it. */
  lemma {:induction false} SansMembers(rows: seq<Played>, fen: string, san: string)
    ensures san in Sans(rows, fen) <==> exists i :: 0 <= i < |rows| && Eligible(rows[i], fen) && rows[i].san == san
    decreases |rows|
  {
    if |rows| > 0 {
      var n := |rows| - 1;
      SansMembers(rows[..n], fen, san);
      assert forall i :: 0 <= i < n ==> rows[..n][i] == rows[i];
    }
  }

  /** Group texts are pairwise distinct. */
  lemma {:induction false} SansDistinct(rows: seq<Played>, fen: string)
    ensures forall i, j :: 0 <= i < j < |Sans(rows, fen)| ==> Sans(rows, fen)[i] != Sans(rows, fen)[j]
    decreases |rows|
  {
    if |rows| > 0 {
      SansDistinct(rows[..|rows| - 1], fen);
    }
  }

  /** Every eligible row playing `san` adds one to its count. */
  lemma {:induction false} CountPositive(rows: seq<Played>, fen: string, san: string, i: nat)
    requires i < |rows| && Eligible(rows[i], fen) && rows[i].san == san
    ensures Count(rows, fen, san, None) >= 1
    decreases |rows|
  {
    var n := |rows| - 1;
    if i < n {
      assert rows[..n][i] == rows[i];
      CountPositive(rows[..n], fen, san, i);
    }
  }

  /** The outcome counts never exceed the occurrences, and equal them when every
      counted game ended 1-0, 0-1 or 1/2-1/2. */
  lemma {:induction false} OutcomesWithinOccurrences(rows: seq<Played>, fen: string, san: string)
    ensures var t := TallyOf(rows, fen, san); t.wwin + t.bwin + t.draws <= t.occurrences
    ensures (forall i :: 0 <= i < |rows| && Eligible(rows[i], fen) ==> rows[i].outcome in {"1-0", "0-1", "1/2-1/2"})
            ==> var t := TallyOf(rows, fen, san); t.wwin + t.bwin + t.draws == t.occurrences
    decreases |rows|
  {
    if |rows| > 0 {
      var n := |rows| - 1;
      OutcomesWithinOccurrences(rows[..n], fen, san);
      assert forall i :: 0 <= i < n ==> rows[..n][i] == rows[i];
    }
  }

  /** The ordered groups: a sorted permutation of one tally per move text. */
  lemma SortedGroups(rows: seq<Played>, fen: string)
    ensures var sorted := Sort(Groups(rows, fen));
      && |sorted| == |Sans(rows, fen)|
      && SortedDesc(sorted)
      && (forall i :: 0 <= i < |sorted| ==> sorted[i] == TallyOf(rows, fen, sorted[i].san) && sorted[i].san in Sans(rows, fen))
      && (forall i, j :: 0 <= i < j < |sorted| ==> sorted[i].san != sorted[j].san)
      && (forall m :: 0 <= m < |Sans(rows, fen)| ==> TallyOf(rows, fen, Sans(rows, fen)[m]) in sorted)
  {
    var g := Groups(rows, fen);
    var sorted := Sort(g);
    SortCorrect(g);
    assert |sorted| == |g| by {
      assert |multiset(sorted)| == |multiset(g)|;
    }
    forall i | 0 <= i < |sorted|
      ensures sorted[i] == TallyOf(rows, fen, sorted[i].san) && sorted[i].san in Sans(rows, fen)
    {
      assert sorted[i] in multiset(g);
      var k :| 0 <= k < |g| && g[k] == sorted[i];
    }
    DistinctAfterSort(g, sorted, rows, fen);
    forall m | 0 <= m < |Sans(rows, fen)| ensures TallyOf(rows, fen, Sans(rows, fen)[m]) in sorted {
      assert g[m] in multiset(sorted);
    }
  }

  /** What `get_moves` returns: at most `lim` rows, as many as there are groups
      up to that bound; each row is the tally of its move text over the eligible
      rows; the move texts are distinct; the rows come most played first. */
  lemma GetMovesShape(rows: seq<Played>, fen: string, lim: int)
    requires lim >= 0
    ensures var r := GetMoves(rows, fen, lim).value;
      && |r| == (if lim < |Sans(rows, fen)| then lim else |Sans(rows, fen)|)
      && (forall i :: 0 <= i < |r| ==> r[i] == TallyOf(rows, fen, r[i].san) && r[i].san in Sans(rows, fen))
      && (forall i, j :: 0 <= i < j < |r| ==> r[i].san != r[j].san)
      && SortedDesc(r)
  {
    SortedGroups(rows, fen);
  }

  /** Every returned row counts at least one occurrence, and its outcome counts
      stay within its occurrences. */
  lemma GetMovesCounts(rows: seq<Played>, fen: string, lim: int)
    requires lim >= 0
    ensures var r := GetMoves(rows, fen, lim).value;
      forall i :: 0 <= i < |r| ==> r[i].occurrences >= 1 && r[i].wwin + r[i].bwin + r[i].draws <= r[i].occurrences
  {
    GetMovesShape(rows, fen, lim);
    var r := GetMoves(rows, fen, lim).value;
    forall i | 0 <= i < |r|
      ensures r[i].occurrences >= 1 && r[i].wwin + r[i].bwin + r[i].draws <= r[i].occurrences
    {
      SansMembers(rows, fen, r[i].san);
      var k :| 0 <= k < |rows| && Eligible(rows[k], fen) && rows[k].san == r[i].san;
      CountPositive(rows, fen, r[i].san, k);
      OutcomesWithinOccurrences(rows, fen, r[i].san);
    }
  }

  /** The rows returned are the most played: no move left out was played more
      often than any row returned. */
  lemma GetMovesTop(rows: seq<Played>, fen: string, lim: int)
    requires lim >= 0
    ensures var r := GetMoves(rows, fen, lim).value;
      forall s, i :: s in Sans(rows, fen) && 0 <= i < |r| && s !in SansOf(r) ==>
        Count(rows, fen, s, None) <= r[i].occurrences
  {
    SortedGroups(rows, fen);
    var sorted := Sort(Groups(rows, fen));
    var r := GetMoves(rows, fen, lim).value;
    assert r == sorted[..if lim < |sorted| then lim else |sorted|];
    forall s, i | s in Sans(rows, fen) && 0 <= i < |r| && s !in SansOf(r)
      ensures Count(rows, fen, s, None) <= r[i].occurrences
    {
      var m :| 0 <= m < |Sans(rows, fen)| && Sans(rows, fen)[m] == s;
      var t := TallyOf(rows, fen, s);
      assert t in sorted;
      var k :| 0 <= k < |sorted| && sorted[k] == t;
      if k < |r| {
        assert r[k] == t;
        SansOfAt(r, k);
      }
    }
  }

  /** The move texts of the rows. */
  function SansOf(ts: seq<Tally>): seq<string>
    decreases |ts|
  {
    if |ts| == 0 then [] else [ts[0].san] + SansOf(ts[1..])
  }

  lemma {:induction false} SansOfAt(ts: seq<Tally>, k: nat)
    requires k < |ts|
    ensures ts[k].san in SansOf(ts)
    decreases k
  {
    if k > 0 { SansOfAt(ts[1..], k - 1); }
  }

  /** Rows of a permutation of the groups carry distinct move texts. */
  lemma DistinctAfterSort(g: seq<Tally>, sorted: seq<Tally>, rows: seq<Played>, fen: string)
    requires g == Groups(rows, fen)
    requires multiset(sorted) == multiset(g)
    ensures forall i, j :: 0 <= i < j < |sorted| ==> sorted[i].san != sorted[j].san
  {
    SansDistinct(rows, fen);
    forall i, j | 0 <= i < j < |sorted| ensures sorted[i].san != sorted[j].san {
      if sorted[i].san == sorted[j].san {
        assert sorted[i] in multiset(g) && sorted[j] in multiset(g);
        var a :| 0 <= a < |g| && g[a] == sorted[i];
        var b :| 0 <= b < |g| && g[b] == sorted[j];
        assert Sans(rows, fen)[a] == Sans(rows, fen)[b];
        assert a == b;
        assert sorted[i] == sorted[j];
        MultisetTwice(sorted, i, j);
        assert multiset(g)[g[a]] == 1 by { GroupOnce(g, a, rows, fen); }
      }
    }
  }

  /** A value at two indices occurs at least twice. */
  lemma MultisetTwice(s: seq<Tally>, i: nat, j: nat)
    requires i < j < |s| && s[i] == s[j]
    ensures multiset(s)[s[i]] >= 2
  {
    assert s == s[..i] + [s[i]] + s[i + 1..j] + [s[j]] + s[j + 1..];
  }

  /** Each group occurs once among the groups. */
  lemma GroupOnce(g: seq<Tally>, a: nat, rows: seq<Played>, fen: string)
    requires g == Groups(rows, fen) && a < |g|
    ensures multiset(g)[g[a]] == 1
  {
    SansDistinct(rows, fen);
    assert g == g[..a] + [g[a]] + g[a + 1..];
    assert g[a] !in g[..a] by {
      forall k | 0 <= k < a ensures g[..a][k] != g[a] { assert g[..a][k].san == Sans(rows, fen)[k]; }
    }
    var tail := g[a + 1..];
    assert g[a] !in tail by {
      forall k | 0 <= k < |tail| ensures tail[k] != g[a] {
        assert tail[k].san == Sans(rows, fen)[a + 1 + k];
      }
    }
  }

  /** Rows of unfinished games ("*") and rows of other positions change nothing. */
  lemma IneligibleRowIgnored(rows: seq<Played>, fen: string, x: Played, lim: int)
    requires !Eligible(x, fen)
    ensures GetMoves(rows + [x], fen, lim) == GetMoves(rows, fen, lim)
  {
    var rows' := rows + [x];
    assert rows'[..|rows'| - 1] == rows;
    assert Sans(rows', fen) == Sans(rows, fen);
    forall san, o: Option<string> ensures Count(rows', fen, san, o) == Count(rows, fen, san, o) { }
    assert Groups(rows', fen) == Groups(rows, fen);
  }
}
