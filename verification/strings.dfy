/** Splitting a string on a one-character separator and joining it back,
    as `String.prototype.split(' ')` / `Array.prototype.join(' ')` do in
    JavaScript: empty pieces between adjacent separators are kept. */
module Strings {

  /** The pieces of `s` between occurrences of `d`; there is always at least one. */
  function Split(s: string, d: char): (fields: seq<string>)
    ensures |fields| >= 1
    ensures forall i :: 0 <= i < |fields| ==> d !in fields[i]
  {
    if |s| == 0 then [""]
    else
      var rest := Split(s[1..], d);
      if s[0] == d then [""] + rest
      else [[s[0]] + rest[0]] + rest[1..]
  }

  /** The pieces of `fields` with `d` between neighbours; the empty list joins to "". */
  function Join(fields: seq<string>, d: char): string
  {
    if |fields| == 0 then ""
    else if |fields| == 1 then fields[0]
    else fields[0] + [d] + Join(fields[1..], d)
  }

  /** True iff no piece contains the separator. */
  predicate NoSeparator(fields: seq<string>, d: char)
  {
    forall i :: 0 <= i < |fields| ==> d !in fields[i]
  }

  lemma JoinExtendHead(a: string, fields: seq<string>, d: char)
    requires |fields| >= 1
    ensures Join([a + fields[0]] + fields[1..], d) == a + Join(fields, d)
  {
    var g := [a + fields[0]] + fields[1..];
    assert g[1..] == fields[1..];
  }

  /** Joining the pieces of a split gives the original string back. */
  lemma {:induction false} JoinSplit(s: string, d: char)
    ensures Join(Split(s, d), d) == s
  {
    if |s| > 0 {
      var rest := Split(s[1..], d);
      JoinSplit(s[1..], d);
      if s[0] == d {
        assert ([""] + rest)[1..] == rest;
        assert s == [d] + s[1..];
      } else {
        JoinExtendHead([s[0]], rest, d);
        assert s == [s[0]] + s[1..];
      }
    }
  }

  lemma {:induction false} SplitExtendHead(x: string, t: string, d: char)
    requires d !in x
    ensures Split(x + t, d) == [x + Split(t, d)[0]] + Split(t, d)[1..]
    decreases |x|
  {
    if |x| > 0 {
      SplitExtendHead(x[1..], t, d);
      assert (x + t)[1..] == x[1..] + t;
      assert [x[0]] + (x[1..] + Split(t, d)[0]) == x + Split(t, d)[0];
    } else {
      var f := Split(t, d);
      assert x + t == t;
      assert x + f[0] == f[0];
      assert f == [f[0]] + f[1..];
    }
  }

  /** Splitting a join of separator-free pieces gives the pieces back. */
  lemma {:induction false} SplitJoin(fields: seq<string>, d: char)
    requires |fields| >= 1
    requires NoSeparator(fields, d)
    ensures Split(Join(fields, d), d) == fields
    decreases |fields|
  {
    var x := fields[0];
    assert d !in x;
    if |fields| == 1 {
      SplitExtendHead(x, "", d);
      assert x + "" == x;
    } else {
      var tail := fields[1..];
      assert NoSeparator(tail, d) by {
        forall i | 0 <= i < |tail| ensures d !in tail[i] {
          assert tail[i] == fields[i + 1];
        }
      }
      SplitJoin(tail, d);
      var j := Join(tail, d);
      SplitExtendHead(x, [d] + j, d);
      assert ([d] + j)[1..] == j;
      assert Split([d] + j, d) == [""] + tail;
      assert x + ([d] + j) == x + [d] + j;
      assert x + "" == x;
      assert fields == [x] + tail;
    }
  }

  /** A string without the separator is one piece. */
  lemma SplitWhole(s: string, d: char)
    requires d !in s
    ensures Split(s, d) == [s]
  {
    SplitJoin([s], d);
  }

  /** Joining pieces free of `c` with a different separator gives a string free of `c`. */
  lemma {:induction false} JoinAvoids(fields: seq<string>, d: char, c: char)
    requires c != d && NoSeparator(fields, c)
    ensures c !in Join(fields, d)
    decreases |fields|
  {
    if |fields| > 1 {
      assert NoSeparator(fields[1..], c) by {
        forall i | 0 <= i < |fields[1..]| ensures c !in fields[1..][i] {
          assert fields[1..][i] == fields[i + 1];
        }
      }
      JoinAvoids(fields[1..], d, c);
      assert c !in fields[0];
    }
  }

  /** The first piece of a split is a prefix of the string. */
  lemma {:induction false} FirstPieceIsPrefix(s: string, d: char)
    ensures Split(s, d)[0] <= s
    decreases |s|
  {
    if |s| > 0 && s[0] != d {
      FirstPieceIsPrefix(s[1..], d);
      assert s == [s[0]] + s[1..];
    }
  }
}
