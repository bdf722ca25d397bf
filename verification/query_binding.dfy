/** How the `get_games` endpoint (backend-src/server.py:83-86) receives its
    arguments: the decoded query pairs are bound to the declared parameters by
    name. A scalar parameter given twice takes its last value; `fen_str` is
    required; the four ELO bounds are declared `int` and a value that is not an
    integer rejects the whole request (HTTP 422); the names and the result are
    taken as text. An empty value is text like any other: it is an empty name,
    or a non-integer ELO. */
module QueryBinding {
  import opened Wrappers
  import opened GamesUrl

  /** The bound arguments of `get_games`. */
  datatype ServerArgs = ServerArgs(fen: string,
                                   wmin: Option<int>, wmax: Option<int>,
                                   bmin: Option<int>, bmax: Option<int>,
                                   wname: Option<string>, bname: Option<string>,
                                   result: Option<string>)

  /** Why a request is refused before the handler runs. */
  datatype BindError = MissingFen | NotAnInteger(key: string)

  /** The value of the last pair carrying `key`, if any. */
  function Lookup(pairs: seq<Pair>, key: string): (r: Option<string>)
    ensures r.None? <==> !HasKey(pairs, key)
    ensures r.Some? ==> exists i :: 0 <= i < |pairs| && pairs[i] == Pair(key, r.value)
                          && forall j :: i < j < |pairs| ==> pairs[j].key != key
    decreases |pairs|
  {
    if |pairs| == 0 then None
    else
      var n := |pairs| - 1;
      if pairs[n].key == key then Some(pairs[n].value)
      else
        var r := Lookup(pairs[..n], key);
        assert forall i :: 0 <= i < n ==> pairs[..n][i] == pairs[i];
        r
  }

  /** When a key occurs once, its only value is the one looked up. */
  lemma LookupUnique(pairs: seq<Pair>, i: nat)
    requires i < |pairs|
    requires forall j :: 0 <= j < |pairs| && j != i ==> pairs[j].key != pairs[i].key
    ensures Lookup(pairs, pairs[i].key) == Some(pairs[i].value)
  {
  }

  predicate IsDigit(c: char) { '0' <= c <= '9' }

  function DigitValue(c: char): nat
    requires IsDigit(c)
  {
    (c as int) - ('0' as int)
  }

  /** The number a string of decimal digits denotes, most significant first. */
  function DigitsValue(s: string): nat
    requires forall i :: 0 <= i < |s| ==> IsDigit(s[i])
    decreases |s|
  {
    if |s| == 0 then 0
    else 10 * DigitsValue(s[..|s| - 1]) + DigitValue(s[|s| - 1])
  }

  /** The integers the ELO parameters accept: an optional '-' and then one or
      more decimal digits. */
  function ParseInt(s: string): (r: Option<int>)
    ensures r.Some? <==> (|s| > 0 && (forall i :: 0 <= i < |s| ==> IsDigit(s[i])))
                         || (|s| > 1 && s[0] == '-' && forall i :: 1 <= i < |s| ==> IsDigit(s[i]))
  {
    if |s| > 0 && forall i :: 0 <= i < |s| ==> IsDigit(s[i]) then
      var v: int := DigitsValue(s);
      Some(v)
    else if |s| > 1 && s[0] == '-' && forall i :: 0 <= i < |s[1..]| ==> IsDigit(s[1..][i]) then
      var v: int := 0 - (DigitsValue(s[1..]) as int);
      Some(v)
    else None
  }

  function DigitChar(d: nat): (c: char)
    requires d < 10
    ensures IsDigit(c) && DigitValue(c) == d
  {
    ('0' as int + d) as char
  }

  /** The decimal text of a natural number, without leading zeros. */
  function NatText(n: nat): (s: string)
    ensures |s| > 0 && forall i :: 0 <= i < |s| ==> IsDigit(s[i])
    decreases n
  {
    if n < 10 then [DigitChar(n)] else NatText(n / 10) + [DigitChar(n % 10)]
  }

  /** The decimal text of an integer, as `String(n)` writes it. */
  function IntText(n: int): string
  {
    if n < 0 then "-" + NatText(0 - n) else NatText(n)
  }

  lemma {:induction false} NatTextValue(n: nat)
    ensures DigitsValue(NatText(n)) == n
    decreases n
  {
    if n >= 10 {
      NatTextValue(n / 10);
      var s := NatText(n);
      assert s[..|s| - 1] == NatText(n / 10);
    }
  }

  /** Reading back the decimal text of any integer gives the integer. */
  lemma ParseIntText(n: int)
    ensures ParseInt(IntText(n)) == Some(n)
  {
    if n < 0 {
      NatTextValue(-n);
      var s := IntText(n);
      assert s[1..] == NatText(-n);
    } else {
      NatTextValue(n);
    }
  }

  /** An `int` parameter: absent is None, present must parse. */
  function IntParam(pairs: seq<Pair>, key: string): (r: Result<Option<int>, BindError>)
    ensures r.Err? <==> Lookup(pairs, key).Some? && ParseInt(Lookup(pairs, key).value).None?
    ensures r.Ok? && Lookup(pairs, key).None? ==> r.value.None?
    ensures r.Ok? && Lookup(pairs, key).Some? ==> r.value == ParseInt(Lookup(pairs, key).value)
  {
    match Lookup(pairs, key)
    case None => Ok(None)
    case Some(text) =>
      match ParseInt(text)
      case None => Err(NotAnInteger(key))
      case Some(n) => Ok(Some(n))
  }

  /** The keys of the `int` parameters, in declaration order. */
  const IntKeys: seq<string> := ["wmin", "wmax", "bmin", "bmax"]

  /** Binding the decoded query to `get_games`'s parameters. */
  function Bind(pairs: seq<Pair>): (r: Result<ServerArgs, BindError>)
    ensures r.Ok? <==> HasKey(pairs, "fen_str")
                       && forall k :: k in IntKeys ==> IntParam(pairs, k).Ok?
    ensures r.Err? && !HasKey(pairs, "fen_str") ==> r.error == MissingFen
    ensures r.Ok? ==> && Some(r.value.fen) == Lookup(pairs, "fen_str")
                      && Ok(r.value.wmin) == IntParam(pairs, "wmin")
                      && Ok(r.value.wmax) == IntParam(pairs, "wmax")
                      && Ok(r.value.bmin) == IntParam(pairs, "bmin")
                      && Ok(r.value.bmax) == IntParam(pairs, "bmax")
                      && r.value.wname == Lookup(pairs, "wname")
                      && r.value.bname == Lookup(pairs, "bname")
                      && r.value.result == Lookup(pairs, "result")
  {
    match Lookup(pairs, "fen_str")
    case None => Err(MissingFen)
    case Some(fen) =>
      var wmin := IntParam(pairs, "wmin");
      var wmax := IntParam(pairs, "wmax");
      var bmin := IntParam(pairs, "bmin");
      var bmax := IntParam(pairs, "bmax");
      if wmin.Err? then Err(wmin.error)
      else if wmax.Err? then Err(wmax.error)
      else if bmin.Err? then Err(bmin.error)
      else if bmax.Err? then Err(bmax.error)
      else Ok(ServerArgs(fen, wmin.value, wmax.value, bmin.value, bmax.value,
                         Lookup(pairs, "wname"), Lookup(pairs, "bname"), Lookup(pairs, "result")))
  }

  /** An empty ELO value is not an integer, so a request carrying one is refused. */
  lemma EmptyEloRefused(pairs: seq<Pair>, k: string)
    requires k in IntKeys
    requires Lookup(pairs, k) == Some("")
    ensures Bind(pairs).Err?
  {
  }
}
