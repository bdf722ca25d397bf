/** The FEN sanitiser of the free-edit board (frontend-src/src/App.js:53-57).
    A FEN is handled only as text: it is split on single spaces, the field at
    index 3 -- the en-passant target square, the fourth FEN field of section
    16.1.3.4 of the PGN Standard -- is overwritten with "-", and the fields are
    joined back. */
module Fen {
  import opened Strings

  /** The standard starting position, as the App and ChessGame components hold it. */
  const StartFen: string := "rnbqkbnr/pppppppp/8/8/8/8/PPPPPPPP/RNBQKBNR w KQkq - 0 1"

  /** Index of the field the sanitiser overwrites. */
  const Target: nat := 3

  /** The space-separated fields of a FEN, as `raw_fen.split(' ')` returns them. */
  function Fields(fen: string): (fields: seq<string>)
    ensures |fields| >= 1
  {
    Split(fen, ' ')
  }

  /** The array store `fields[3] = "-"`. On a shorter array JavaScript leaves holes
      at the missing indexes below 3, and `join` renders a hole as "". */
  function Overwrite(fields: seq<string>): (r: seq<string>)
    ensures |r| == if |fields| > Target then |fields| else Target + 1
    ensures r[Target] == "-"
    ensures forall i :: 0 <= i < |fields| && i != Target ==> r[i] == fields[i]
    ensures forall i :: |fields| <= i < Target ==> r[i] == ""
  {
    if |fields| > Target then fields[Target := "-"]
    else fields + seq(Target - |fields|, _ => "") + ["-"]
  }

  /** `sanitizeFen`: the field at index 3 of the result is "-", every other field
      of the input is kept in place, and nothing else changes. */
  function Sanitize(raw: string): (clean: string)
    ensures |Fields(clean)| == if |Fields(raw)| > Target then |Fields(raw)| else Target + 1
    ensures Fields(clean)[Target] == "-"
    ensures forall i :: 0 <= i < |Fields(raw)| && i != Target ==> Fields(clean)[i] == Fields(raw)[i]
    ensures forall i :: |Fields(raw)| <= i < Target ==> Fields(clean)[i] == ""
  {
    var fields := Overwrite(Fields(raw));
    SplitJoin(fields, ' ');
    Join(fields, ' ')
  }

  /** True iff the field at index 3 of `fen` is already "-". */
  predicate IsClean(fen: string)
  {
    |Fields(fen)| > Target && Fields(fen)[Target] == "-"
  }

  /** A clean FEN is a fixed point of the sanitiser. */
  lemma CleanIsFixed(fen: string)
    requires IsClean(fen)
    ensures Sanitize(fen) == fen
  {
    var fields := Fields(fen);
    assert Overwrite(fields) == fields;
    JoinSplit(fen, ' ');
  }

  /** Sanitising twice is sanitising once. */
  lemma SanitizeIdempotent(raw: string)
    ensures Sanitize(Sanitize(raw)) == Sanitize(raw)
  {
    CleanIsFixed(Sanitize(raw));
  }

  /** Two FENs whose fields differ at most at index 3 sanitise to the same string. */
  lemma SanitizeIgnoresTarget(a: string, b: string)
    requires |Fields(a)| == |Fields(b)|
    requires forall i :: 0 <= i < |Fields(a)| && i != Target ==> Fields(a)[i] == Fields(b)[i]
    ensures Sanitize(a) == Sanitize(b)
  {
    var fa := Fields(a);
    var fb := Fields(b);
    assert Overwrite(fa) == Overwrite(fb);
  }

  /** The starting position is already clean, so the sanitiser leaves it as it is. */
  lemma StartFenIsClean()
    ensures Fields(StartFen) == StartFields()
    ensures Sanitize(StartFen) == StartFen
  {
    StartFieldsJoin();
    StartFieldsNoSpace();
    SplitJoin(StartFields(), ' ');
    CleanIsFixed(StartFen);
  }

  /** The six fields of the starting position. */
  function StartFields(): seq<string>
  {
    ["rnbqkbnr/pppppppp/8/8/8/8/PPPPPPPP/RNBQKBNR", "w", "KQkq", "-", "0", "1"]
  }

  lemma StartFieldsJoin()
    ensures Join(StartFields(), ' ') == StartFen
  {
    var f := StartFields();
    assert Join(f[5..], ' ') == "1";
    assert f[4..][1..] == f[5..];
    assert Join(f[4..], ' ') == "0 1";
    assert f[3..][1..] == f[4..];
    assert Join(f[3..], ' ') == "- 0 1";
    assert f[2..][1..] == f[3..];
    assert Join(f[2..], ' ') == "KQkq - 0 1";
    assert f[1..][1..] == f[2..];
    assert Join(f[1..], ' ') == "w KQkq - 0 1";
    assert Join(f, ' ') == f[0] + " " + "w KQkq - 0 1";
  }

  lemma StartFieldsNoSpace()
    ensures NoSeparator(StartFields(), ' ')
  {
    var f := StartFields();
    assert forall i :: 0 <= i < |f[0]| ==> f[0][i] != ' ';
  }
}
