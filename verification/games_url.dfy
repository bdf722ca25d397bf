/** URL construction of the GamesList component (frontend-src/src/games_list.js):
    `GetGames` appends one `&key=value` piece per filter argument that is not
    null (and `&result=` unless the result is "Any"), concatenating the values
    raw. The partner of the builder is a query-string reader that splits the
    query on '&' and each piece at its first '=', as the server does before it
    binds parameters (percent- and plus-decoding are not modelled). `fetch`
    sends no fragment: everything from the first '#' on never reaches the
    server. */
module GamesUrl {
  import opened Wrappers
  import opened Strings

  /** The endpoint prefix up to and including the '?'. */
  const Endpoint: string := "http://127.0.0.1:80/get_games?"

  /** The arguments of `GetGames`, in its parameter order. */
  datatype SearchArgs = SearchArgs(whiteEloMin: Option<string>, whiteEloMax: Option<string>,
                                   blackEloMin: Option<string>, blackEloMax: Option<string>,
                                   whiteName: Option<string>, blackName: Option<string>,
                                   result: string)

  /** One optional query parameter: its key and the argument behind it. */
  datatype Slot = Slot(key: string, arg: Option<string>)

  /** A decoded `key=value` piece of a query string. */
  datatype Pair = Pair(key: string, value: string)

  /** The default arguments: a call with no arguments (mount and prop sync). */
  function Defaults(): (a: SearchArgs)
    ensures a.whiteEloMin == a.whiteEloMax == a.blackEloMin == a.blackEloMax == None
    ensures a.whiteName == a.blackName == None && a.result == "Any"
  {
    SearchArgs(None, None, None, None, None, None, "Any")
  }

  /** The result argument as an optional value: "Any" means omitted. */
  function ResultParam(result: string): Option<string>
  {
    if result != "Any" then Some(result) else None
  }

  /** The optional parameters in the order `GetGames` tests them
      (games_list.js:58-78), each with the argument it tests. */
  function Slots(a: SearchArgs): (slots: seq<Slot>)
    ensures |slots| == 7
  {
    [Slot("wmin", a.whiteEloMin), Slot("wmax", a.whiteEloMax),
     Slot("bmin", a.blackEloMin), Slot("bmax", a.blackEloMax),
     Slot("wname", a.whiteName), Slot("bname", a.blackName),
     Slot("result", ResultParam(a.result))]
  }

  /** `if (arg != null) url += '&key=' + String(arg)` for each slot in turn. */
  function Params(slots: seq<Slot>): string
  {
    if |slots| == 0 then ""
    else (if slots[0].arg.Some? then "&" + slots[0].key + "=" + slots[0].arg.value else "") + Params(slots[1..])
  }

  /** The URL `GetGames` fetches for the held FEN and its arguments. */
  function BuildUrl(fen: string, a: SearchArgs): (url: string)
    ensures Endpoint + "fen_str=" + fen <= url
  {
    Endpoint + "fen_str=" + fen + Params(Slots(a))
  }

  /** The query the server receives for an endpoint URL: the text after the
      '?' up to the first '#', which starts the fragment `fetch` does not send. */
  function QueryOf(url: string): (q: string)
    requires Endpoint <= url
    ensures '#' !in q && q <= url[|Endpoint|..]
    ensures '#' !in url[|Endpoint|..] ==> q == url[|Endpoint|..]
  {
    var tail := url[|Endpoint|..];
    FirstPieceIsPrefix(tail, '#');
    if '#' in tail then Split(tail, '#')[0]
    else SplitWhole(tail, '#'); Split(tail, '#')[0]
  }

  /** A query piece split at its first '=' (a piece without '=' is a key with an
      empty value). */
  function ParsePair(piece: string): Pair
  {
    if |piece| == 0 then Pair("", "")
    else if piece[0] == '=' then Pair("", piece[1..])
    else
      var rest := ParsePair(piece[1..]);
      Pair([piece[0]] + rest.key, rest.value)
  }

  /** The non-empty pieces of a query string, decoded in order. */
  function ParsePieces(pieces: seq<string>): seq<Pair>
  {
    if |pieces| == 0 then []
    else (if pieces[0] == "" then [] else [ParsePair(pieces[0])]) + ParsePieces(pieces[1..])
  }

  function ParseQuery(query: string): seq<Pair>
  {
    ParsePieces(Split(query, '&'))
  }

  /** The pairs of the slots whose argument is present, in slot order. */
  function Present(slots: seq<Slot>): seq<Pair>
  {
    if |slots| == 0 then []
    else (if slots[0].arg.Some? then [Pair(slots[0].key, slots[0].arg.value)] else []) + Present(slots[1..])
  }

  /** The pairs a reader should find: the FEN first, then each present argument. */
  function Expected(fen: string, a: SearchArgs): seq<Pair>
  {
    [Pair("fen_str", fen)] + Present(Slots(a))
  }

  /** True iff `s` cannot end a query piece, or the query, early. */
  predicate Raw(s: string) { '&' !in s && '#' !in s }

  /** True iff the FEN and every supplied value are free of '&' and '#'. */
  predicate RawArgs(fen: string, a: SearchArgs)
  {
    && Raw(fen)
    && forall m :: 0 <= m < |Slots(a)| && Slots(a)[m].arg.Some? ==> Raw(Slots(a)[m].arg.value)
  }

  /** True iff every key is a non-empty word without '=', '&' or '#' and every
      present value is free of '&' and '#'. */
  predicate WellKeyed(slots: seq<Slot>)
  {
    forall m :: 0 <= m < |slots| ==>
      && slots[m].key != "" && '=' !in slots[m].key && '&' !in slots[m].key && '#' !in slots[m].key
      && (slots[m].arg.Some? ==> Raw(slots[m].arg.value))
  }

  /** The pieces between '&' that the slots contribute. */
  function Pieces(slots: seq<Slot>): seq<string>
  {
    if |slots| == 0 then []
    else (if slots[0].arg.Some? then [slots[0].key + "=" + slots[0].arg.value] else []) + Pieces(slots[1..])
  }

  lemma {:induction false} ParsePairKeyed(key: string, value: string)
    requires '=' !in key
    ensures ParsePair(key + "=" + value) == Pair(key, value)
    decreases |key|
  {
    if |key| == 0 {
      assert key + "=" + value == "=" + value;
    } else {
      ParsePairKeyed(key[1..], value);
      assert (key + "=" + value)[1..] == key[1..] + "=" + value;
      assert [key[0]] + key[1..] == key;
    }
  }

  lemma {:induction false} JoinParams(head: string, slots: seq<Slot>)
    ensures Join([head] + Pieces(slots), '&') == head + Params(slots)
    decreases |slots|
  {
    if |slots| == 0 {
      assert [head] + Pieces(slots) == [head];
      assert head + "" == head;
    } else {
      var rest := slots[1..];
      var s0 := slots[0];
      if s0.arg.Some? {
        var p := s0.key + "=" + s0.arg.value;
        JoinParams(p, rest);
        var l := [head] + ([p] + Pieces(rest));
        assert Pieces(slots) == [p] + Pieces(rest);
        assert l[1..] == [p] + Pieces(rest);
        assert Join(l, '&') == head + ['&'] + Join(l[1..], '&');
        assert Params(slots) == "&" + s0.key + "=" + s0.arg.value + Params(rest);
        calc {
          Join(l, '&');
          head + ['&'] + (p + Params(rest));
          head + ("&" + s0.key + "=" + s0.arg.value + Params(rest));
        }
      } else {
        JoinParams(head, rest);
        assert Pieces(slots) == Pieces(rest);
        assert Params(slots) == "" + Params(rest);
        assert "" + Params(rest) == Params(rest);
      }
    }
  }

  lemma {:induction false} PiecesRaw(slots: seq<Slot>)
    requires WellKeyed(slots)
    ensures forall i :: 0 <= i < |Pieces(slots)| ==> '&' !in Pieces(slots)[i] && '#' !in Pieces(slots)[i] && Pieces(slots)[i] != ""
    decreases |slots|
  {
    if |slots| > 0 {
      assert WellKeyed(slots[1..]) by {
        forall m | 0 <= m < |slots[1..]| ensures slots[1..][m] == slots[m + 1] { }
      }
      PiecesRaw(slots[1..]);
      if slots[0].arg.Some? {
        var p := slots[0].key + "=" + slots[0].arg.value;
        assert |p| > 0;
        assert '&' !in p && '#' !in p by {
          assert forall c :: c in p ==> c in slots[0].key || c == '=' || c in slots[0].arg.value;
        }
      }
    }
  }

  lemma {:induction false} ParsePiecesPresent(slots: seq<Slot>)
    requires WellKeyed(slots)
    ensures ParsePieces(Pieces(slots)) == Present(slots)
    decreases |slots|
  {
    if |slots| > 0 {
      assert WellKeyed(slots[1..]) by {
        forall m | 0 <= m < |slots[1..]| ensures slots[1..][m] == slots[m + 1] { }
      }
      ParsePiecesPresent(slots[1..]);
      if slots[0].arg.Some? {
        var p := slots[0].key + "=" + slots[0].arg.value;
        ParsePairKeyed(slots[0].key, slots[0].arg.value);
        assert |p| > 0;
        var l := [p] + Pieces(slots[1..]);
        assert Pieces(slots) == l;
        assert l[1..] == Pieces(slots[1..]);
        assert ParsePieces(l) == [ParsePair(p)] + ParsePieces(l[1..]);
        assert Present(slots) == [Pair(slots[0].key, slots[0].arg.value)] + Present(slots[1..]);
      } else {
        assert Pieces(slots) == Pieces(slots[1..]);
        assert Present(slots) == Present(slots[1..]);
      }
    }
  }

  lemma SlotsWellKeyed(fen: string, a: SearchArgs)
    requires RawArgs(fen, a)
    ensures WellKeyed(Slots(a))
  {
  }

  /** Reading back the URL `GetGames` builds recovers exactly the expected pairs,
      provided no value contains '&' or '#': the FEN first, then one pair per non-null
      argument in parameter order, and `result` only when it is not "Any". */
  lemma BuildUrlReadsBack(fen: string, a: SearchArgs)
    requires RawArgs(fen, a)
    ensures ParseQuery(QueryOf(BuildUrl(fen, a))) == Expected(fen, a)
  {
    var slots := Slots(a);
    SlotsWellKeyed(fen, a);
    var head := "fen_str=" + fen;
    var pieces := [head] + Pieces(slots);
    JoinParams(head, slots);
    var url := BuildUrl(fen, a);
    assert url[|Endpoint|..] == Join(pieces, '&');
    PiecesRaw(slots);
    assert '&' !in head && '#' !in head;
    assert NoSeparator(pieces, '&') && NoSeparator(pieces, '#') by {
      forall i | 0 <= i < |pieces| ensures '&' !in pieces[i] && '#' !in pieces[i] {
        if i > 0 { assert pieces[i] == Pieces(slots)[i - 1]; }
      }
    }
    JoinAvoids(pieces, '&', '#');
    assert QueryOf(url) == Join(pieces, '&');
    SplitJoin(pieces, '&');
    ParsePairKeyed("fen_str", fen);
    assert "fen_str" + "=" + fen == head;
    assert |head| > 0;
    assert pieces[1..] == Pieces(slots);
    ParsePiecesPresent(slots);
    var q := QueryOf(BuildUrl(fen, a));
    assert Split(q, '&') == pieces;
    assert ParsePieces(pieces) == [ParsePair(head)] + ParsePieces(Pieces(slots));
  }

  /** The position of a key in the parameter order (8 for an unknown key). */
  function Rank(key: string): nat
  {
    if key == "fen_str" then 0 else if key == "wmin" then 1 else if key == "wmax" then 2
    else if key == "bmin" then 3 else if key == "bmax" then 4 else if key == "wname" then 5
    else if key == "bname" then 6 else if key == "result" then 7 else 8
  }

  /** The index of the slot that the `i`-th present pair comes from. */
  function Origin(slots: seq<Slot>, i: nat): (m: nat)
    requires i < |Present(slots)|
    ensures m < |slots| && slots[m].arg.Some?
    ensures Present(slots)[i] == Pair(slots[m].key, slots[m].arg.value)
    decreases |slots|
  {
    var rest := slots[1..];
    if slots[0].arg.Some? then
      assert Present(slots) == [Pair(slots[0].key, slots[0].arg.value)] + Present(rest);
      if i == 0 then 0 else 1 + Origin(rest, i - 1)
    else
      assert Present(slots) == Present(rest);
      1 + Origin(rest, i)
  }

  /** Present pairs keep the order of their slots. */
  lemma {:induction false} OriginIncreasing(slots: seq<Slot>, i: nat, j: nat)
    requires i < j < |Present(slots)|
    ensures Origin(slots, i) < Origin(slots, j)
    decreases |slots|
  {
    var rest := slots[1..];
    if slots[0].arg.Some? {
      assert Present(slots) == [Pair(slots[0].key, slots[0].arg.value)] + Present(rest);
      if i > 0 {
        OriginIncreasing(rest, i - 1, j - 1);
      }
    } else {
      assert Present(slots) == Present(rest);
      OriginIncreasing(rest, i, j);
    }
  }

  /** Every present slot shows up as a pair. */
  lemma {:induction false} PresentContains(slots: seq<Slot>)
    ensures forall m :: 0 <= m < |slots| && slots[m].arg.Some? ==> Pair(slots[m].key, slots[m].arg.value) in Present(slots)
    decreases |slots|
  {
    if |slots| > 0 {
      PresentContains(slots[1..]);
      forall m | 0 <= m < |slots| && slots[m].arg.Some?
        ensures Pair(slots[m].key, slots[m].arg.value) in Present(slots)
      {
        if m > 0 { assert slots[m] == slots[1..][m - 1]; }
      }
    }
  }

  /** The keys of `GetGames`'s slots have ranks 1 to 7 in slot order. */
  lemma SlotRanks(a: SearchArgs)
    ensures forall m :: 0 <= m < |Slots(a)| ==> Rank(Slots(a)[m].key) == m + 1
  {
    var slots := Slots(a);
    forall m | 0 <= m < |slots| ensures Rank(slots[m].key) == m + 1 {
      if m == 0 {} else if m == 1 {} else if m == 2 {} else if m == 3 {}
      else if m == 4 {} else if m == 5 {} else {}
    }
  }

  /** The keys of the read-back URL come in the fixed parameter order fen_str,
      wmin, wmax, bmin, bmax, wname, bname, result, so each appears at most once;
      the FEN always comes first. */
  lemma ExpectedOrdered(fen: string, a: SearchArgs)
    ensures Expected(fen, a)[0] == Pair("fen_str", fen)
    ensures forall i, j :: 0 <= i < j < |Expected(fen, a)| ==> Rank(Expected(fen, a)[i].key) < Rank(Expected(fen, a)[j].key)
  {
    var slots := Slots(a);
    SlotRanks(a);
    var e := Expected(fen, a);
    var p := Present(slots);
    forall i, j | 0 <= i < j < |e| ensures Rank(e[i].key) < Rank(e[j].key) {
      assert e[j] == p[j - 1];
      var mj := Origin(slots, j - 1);
      if i > 0 {
        assert e[i] == p[i - 1];
        OriginIncreasing(slots, i - 1, j - 1);
      }
    }
  }

  /** True iff some pair carries `key`. */
  predicate HasKey(pairs: seq<Pair>, key: string)
  {
    exists i :: 0 <= i < |pairs| && pairs[i].key == key
  }

  /** A parameter is present in the read-back URL exactly when its argument is
      not null, carrying the argument's value; an empty string is still sent.
      `result` is present exactly when it is not "Any". With all defaults only
      `fen_str` is sent. */
  lemma PresenceFollowsArguments(fen: string, a: SearchArgs)
    requires RawArgs(fen, a)
    ensures var pairs := ParseQuery(QueryOf(BuildUrl(fen, a)));
            forall m :: 0 <= m < |Slots(a)| ==>
              && (HasKey(pairs, Slots(a)[m].key) <==> Slots(a)[m].arg.Some?)
              && (Slots(a)[m].arg.Some? ==> Pair(Slots(a)[m].key, Slots(a)[m].arg.value) in pairs)
    ensures ParseQuery(QueryOf(BuildUrl(fen, Defaults()))) == [Pair("fen_str", fen)]
  {
    BuildUrlReadsBack(fen, a);
    DefaultsSendOnlyFen(fen);
    ExpectedPresence(fen, a);
  }

  /** The expected pairs hold a key exactly when its argument is present, with
      the argument's value. */
  lemma ExpectedPresence(fen: string, a: SearchArgs)
    ensures var e := Expected(fen, a);
            forall m :: 0 <= m < |Slots(a)| ==>
              && (HasKey(e, Slots(a)[m].key) <==> Slots(a)[m].arg.Some?)
              && (Slots(a)[m].arg.Some? ==> Pair(Slots(a)[m].key, Slots(a)[m].arg.value) in e)
  {
    var slots := Slots(a);
    var e := Expected(fen, a);
    var p := Present(slots);
    SlotRanks(a);
    PresentContains(slots);
    forall m | 0 <= m < |slots|
      ensures HasKey(e, slots[m].key) <==> slots[m].arg.Some?
      ensures slots[m].arg.Some? ==> Pair(slots[m].key, slots[m].arg.value) in e
    {
      if slots[m].arg.Some? {
        assert Pair(slots[m].key, slots[m].arg.value) in p;
        var i :| 0 <= i < |p| && p[i] == Pair(slots[m].key, slots[m].arg.value);
        assert e[i + 1] == p[i];
      }
      if HasKey(e, slots[m].key) {
        var i :| 0 <= i < |e| && e[i].key == slots[m].key;
        assert i > 0;
        assert e[i] == p[i - 1];
        var o := Origin(slots, i - 1);
        assert Rank(slots[o].key) == o + 1;
      }
    }
  }

  lemma DefaultsSendOnlyFen(fen: string)
    requires Raw(fen)
    ensures ParseQuery(QueryOf(BuildUrl(fen, Defaults()))) == [Pair("fen_str", fen)]
  {
    BuildUrlReadsBack(fen, Defaults());
    NoneAbsent(Slots(Defaults()));
  }

  /** Slots whose arguments are all null contribute no pairs. */
  lemma {:induction false} NoneAbsent(slots: seq<Slot>)
    requires forall m :: 0 <= m < |slots| ==> slots[m].arg.None?
    ensures Present(slots) == []
    decreases |slots|
  {
    if |slots| > 0 {
      assert forall m :: 0 <= m < |slots[1..]| ==> slots[1..][m] == slots[m + 1];
      NoneAbsent(slots[1..]);
    }
  }

  lemma InjectedParams(w: string)
    ensures Params(Slots(Defaults().(whiteName := Some(w)))) == "&wname=" + w
  {
    var n: Option<string> := None;
    var slots := Slots(Defaults().(whiteName := Some(w)));
    assert ResultParam("Any") == None;
    var t6 := [Slot("result", n)];
    var t5 := [Slot("bname", n)] + t6;
    var t4 := [Slot("wname", Some(w))] + t5;
    var t3 := [Slot("bmax", n)] + t4;
    var t2 := [Slot("bmin", n)] + t3;
    var t1 := [Slot("wmax", n)] + t2;
    var t0 := [Slot("wmin", n)] + t1;
    assert t0 == slots;
    assert t6[1..] == [];
    assert Params(t6) == "" + Params([]);
    assert t5[1..] == t6;
    assert Params(t5) == "" + Params(t6);
    assert t4[1..] == t5;
    assert Params(t4) == "&" + "wname" + "=" + w + Params(t5);
    assert "&" + "wname" + "=" + w + "" == "&wname=" + w;
    assert t3[1..] == t4 && t2[1..] == t3 && t1[1..] == t2 && t0[1..] == t1;
    assert Params(t3) == "" + Params(t4);
    assert Params(t2) == "" + Params(t3);
    assert Params(t1) == "" + Params(t2);
    assert Params(t0) == "" + Params(t1);
  }

  lemma ReadQueryOf3(a: string, b: string, c: string, ka: string, va: string, kb: string, vb: string, kc: string, vc: string)
    requires a == ka + "=" + va && b == kb + "=" + vb && c == kc + "=" + vc
    requires '=' !in ka && '=' !in kb && '=' !in kc
    requires '&' !in a && '&' !in b && '&' !in c
    ensures ParseQuery(a + "&" + b + "&" + c) == [Pair(ka, va), Pair(kb, vb), Pair(kc, vc)]
  {
    var parts := [a, b, c];
    assert Join(parts, '&') == a + "&" + b + "&" + c by {
      assert parts[1..] == [b, c];
      assert [b, c][1..] == [c];
      assert Join([c], '&') == c;
      assert Join([b, c], '&') == b + ['&'] + c;
      assert Join(parts, '&') == a + ['&'] + (b + ['&'] + c);
    }
    assert NoSeparator(parts, '&');
    SplitJoin(parts, '&');
    ParsePairKeyed(ka, va);
    ParsePairKeyed(kb, vb);
    ParsePairKeyed(kc, vc);
    assert |a| > 0 && |b| > 0 && |c| > 0;
    assert parts[1..] == [b, c];
    assert [b, c][1..] == [c];
    assert [c][1..] == [];
    assert ParsePieces([c]) == [ParsePair(c)] + ParsePieces([]);
    assert ParsePieces([b, c]) == [ParsePair(b)] + ParsePieces([c]);
    assert ParsePieces(parts) == [ParsePair(a)] + ParsePieces([b, c]);
  }

  /** Values are concatenated raw: a player name holding "&result=0-1" makes the
      reader see a result filter that the arguments never asked for. */
  lemma RawValuesInjectParameters()
    ensures var a := Defaults().(whiteName := Some("x&result=0-1"));
            ParseQuery(QueryOf(BuildUrl("f", a))) == [Pair("fen_str", "f"), Pair("wname", "x"), Pair("result", "0-1")]
  {
    var q := "fen_str=f" + "&" + "wname=x" + "&" + "result=0-1";
    InjectedUrl();
    QueryOfEndpoint(q);
    ReadInjectedQuery();
  }

  /** `fetch` drops the fragment: a player name "a#b" reaches the server as
      "a", and nothing after the '#' is sent. */
  lemma FragmentCutsValue()
    ensures ParseQuery(QueryOf(BuildUrl("f", Defaults().(whiteName := Some("a#b")))))
         == [Pair("fen_str", "f"), Pair("wname", "a")]
  {
    var sent := "fen_str=f" + "&" + "wname=a";
    FragmentUrl();
    assert '#' !in sent;
    FragmentQuery(sent);
    ReadFragmentQuery();
  }

  lemma ReadFragmentQuery()
    ensures ParseQuery("fen_str=f" + "&" + "wname=a") == [Pair("fen_str", "f"), Pair("wname", "a")]
  {
    assert "fen_str=f" == "fen_str" + "=" + "f";
    assert "wname=a" == "wname" + "=" + "a";
    assert '=' !in "fen_str";
    assert '=' !in "wname";
    assert '&' !in "fen_str=f";
    assert '&' !in "wname=a";
    ReadQueryOf2("fen_str=f", "wname=a", "fen_str", "f", "wname", "a");
  }

  lemma FragmentUrl()
    ensures BuildUrl("f", Defaults().(whiteName := Some("a#b"))) == Endpoint + ("fen_str=f" + "&" + "wname=a" + "#b")
  {
    var w := "a#b";
    var p := Params(Slots(Defaults().(whiteName := Some(w))));
    InjectedParams(w);
    Regroup(Endpoint, "fen_str=", "f", p);
    assert "fen_str=" + "f" + ("&wname=" + w) == "fen_str=f" + "&" + "wname=a" + "#b";
  }

  lemma FragmentQuery(sent: string)
    requires '#' !in sent
    ensures QueryOf(Endpoint + (sent + "#b")) == sent
  {
    var url := Endpoint + (sent + "#b");
    assert url[|Endpoint|..] == sent + "#b";
    SplitExtendHead(sent, "#b", '#');
    assert Split("#b", '#')[0] == "";
    assert sent + "" == sent;
    assert '#' in url[|Endpoint|..];
  }

  lemma ReadQueryOf2(a: string, b: string, ka: string, va: string, kb: string, vb: string)
    requires a == ka + "=" + va && b == kb + "=" + vb
    requires '=' !in ka && '=' !in kb
    requires '&' !in a && '&' !in b
    ensures ParseQuery(a + "&" + b) == [Pair(ka, va), Pair(kb, vb)]
  {
    var parts := [a, b];
    assert parts[1..] == [b];
    assert Join(parts, '&') == a + ['&'] + b;
    assert NoSeparator(parts, '&');
    SplitJoin(parts, '&');
    ParsePairKeyed(ka, va);
    ParsePairKeyed(kb, vb);
    assert |a| > 0 && |b| > 0;
    assert [b][1..] == [];
    assert ParsePieces([b]) == [ParsePair(b)] + ParsePieces([]);
    assert ParsePieces(parts) == [ParsePair(a)] + ParsePieces([b]);
  }

  lemma InjectedUrl()
    ensures BuildUrl("f", Defaults().(whiteName := Some("x&result=0-1")))
         == Endpoint + ("fen_str=f" + "&" + "wname=x" + "&" + "result=0-1")
  {
    var w := "x&result=0-1";
    var p := Params(Slots(Defaults().(whiteName := Some(w))));
    InjectedParams(w);
    Regroup(Endpoint, "fen_str=", "f", p);
    assert "fen_str=" + "f" + ("&wname=" + w) == "fen_str=f" + "&" + "wname=x" + "&" + "result=0-1";
  }

  lemma Regroup(a: string, b: string, c: string, d: string)
    ensures a + b + c + d == a + (b + c + d)
  {
  }

  lemma ReadInjectedQuery()
    ensures ParseQuery("fen_str=f" + "&" + "wname=x" + "&" + "result=0-1")
         == [Pair("fen_str", "f"), Pair("wname", "x"), Pair("result", "0-1")]
  {
    assert "fen_str=f" == "fen_str" + "=" + "f";
    assert "wname=x" == "wname" + "=" + "x";
    assert "result=0-1" == "result" + "=" + "0-1";
    assert '=' !in "fen_str";
    assert '=' !in "wname";
    assert '=' !in "result";
    assert '&' !in "fen_str=f";
    assert '&' !in "wname=x";
    assert '&' !in "result=0-1";
    ReadQueryOf3("fen_str=f", "wname=x", "result=0-1", "fen_str", "f", "wname", "x", "result", "0-1");
  }

  lemma QueryOfEndpoint(tail: string)
    requires '#' !in tail
    ensures QueryOf(Endpoint + tail) == tail
  {
    assert (Endpoint + tail)[|Endpoint|..] == tail;
  }
}
