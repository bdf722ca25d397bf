/** A search end to end: the GameSearch form is submitted to `GetGames`
    (frontend-src/src/game_search.js:92-99), which builds the URL
    (frontend-src/src/games_list.js:56-78); the server splits the query, binds
    it to the parameters of `get_games` and builds the SQL
    (backend-src/server.py:84-126). */
module SearchPipeline {
  import opened Wrappers
  import opened GamesUrl
  import opened QueryBinding
  import opened GamesQuery
  import SearchForm

  /** The pairs the server decodes from the URL built for `fen` and `a`. */
  function Received(fen: string, a: SearchArgs): seq<Pair>
  {
    ParseQuery(QueryOf(BuildUrl(fen, a)))
  }

  /** Every key of the built URL is read back once: the server finds the
      position under "fen_str", and under each filter key exactly the argument
      the client passed (nothing when it was null). */
  lemma LookupReceived(fen: string, a: SearchArgs)
    requires RawArgs(fen, a)
    ensures Lookup(Received(fen, a), "fen_str") == Some(fen)
    ensures forall m :: 0 <= m < |Slots(a)| ==> Lookup(Received(fen, a), Slots(a)[m].key) == Slots(a)[m].arg
  {
    var pairs := Received(fen, a);
    BuildUrlReadsBack(fen, a);
    ExpectedOrdered(fen, a);
    PresenceFollowsArguments(fen, a);
    assert pairs[0] == Pair("fen_str", fen);
    UniqueKey(pairs, 0);
    forall m | 0 <= m < |Slots(a)|
      ensures Lookup(pairs, Slots(a)[m].key) == Slots(a)[m].arg
    {
      var s := Slots(a)[m];
      if s.arg.Some? {
        var i :| 0 <= i < |pairs| && pairs[i] == Pair(s.key, s.arg.value);
        UniqueKey(pairs, i);
      }
    }
  }

  lemma UniqueKey(pairs: seq<Pair>, i: nat)
    requires i < |pairs|
    requires forall j, k :: 0 <= j < k < |pairs| ==> Rank(pairs[j].key) < Rank(pairs[k].key)
    ensures Lookup(pairs, pairs[i].key) == Some(pairs[i].value)
  {
    forall j | 0 <= j < |pairs| && j != i ensures pairs[j].key != pairs[i].key {
      if j < i { assert Rank(pairs[j].key) < Rank(pairs[i].key); }
      else { assert Rank(pairs[i].key) < Rank(pairs[j].key); }
    }
    LookupUnique(pairs, i);
  }

  /** True iff a form value can bind to an `int` parameter. */
  predicate EloText(o: Option<string>)
  {
    o.None? || ParseInt(o.value).Some?
  }

  function Parsed(o: Option<string>): Option<int>
    requires EloText(o)
  {
    if o.None? then None else ParseInt(o.value)
  }

  predicate ElosParse(form: SearchForm.Form)
  {
    && EloText(form.whiteEloMin) && EloText(form.whiteEloMax)
    && EloText(form.blackEloMin) && EloText(form.blackEloMax)
  }

  /** The arguments the form means, read directly off its fields. */
  function Meant(fen: string, form: SearchForm.Form): ServerArgs
    requires ElosParse(form)
  {
    ServerArgs(fen, Parsed(form.whiteEloMin), Parsed(form.whiteEloMax),
               Parsed(form.blackEloMin), Parsed(form.blackEloMax),
               form.whiteName, form.blackName, ResultParam(form.result))
  }

  /** What the server binds for a submitted form. */
  function Request(fen: string, form: SearchForm.Form): Result<ServerArgs, BindError>
  {
    Bind(Received(fen, SearchForm.Submit(form)))
  }

  /** The number of form entries that reach the server: the non-null text
      fields, and the result unless it is "Any". */
  function Filled(form: SearchForm.Form): nat
  {
    (if form.whiteEloMin.Some? then 1 else 0) + (if form.whiteEloMax.Some? then 1 else 0)
    + (if form.blackEloMin.Some? then 1 else 0) + (if form.blackEloMax.Some? then 1 else 0)
    + (if form.whiteName.Some? then 1 else 0) + (if form.blackName.Some? then 1 else 0)
    + (if form.result != "Any" then 1 else 0)
  }

  /** The value the server finds under each key for a submitted form. */
  lemma FormLookups(fen: string, form: SearchForm.Form)
    requires RawArgs(fen, SearchForm.Submit(form))
    ensures var pairs := Received(fen, SearchForm.Submit(form));
            && Lookup(pairs, "fen_str") == Some(fen)
            && Lookup(pairs, "wmin") == form.whiteEloMin && Lookup(pairs, "wmax") == form.whiteEloMax
            && Lookup(pairs, "bmin") == form.blackEloMin && Lookup(pairs, "bmax") == form.blackEloMax
            && Lookup(pairs, "wname") == form.whiteName && Lookup(pairs, "bname") == form.blackName
            && Lookup(pairs, "result") == ResultParam(form.result)
  {
    var a := SearchForm.Submit(form);
    LookupReceived(fen, a);
    assert Slots(a)[0] == Slot("wmin", form.whiteEloMin);
    assert Slots(a)[1] == Slot("wmax", form.whiteEloMax);
    assert Slots(a)[2] == Slot("bmin", form.blackEloMin);
    assert Slots(a)[3] == Slot("bmax", form.blackEloMax);
    assert Slots(a)[4] == Slot("wname", form.whiteName);
    assert Slots(a)[5] == Slot("bname", form.blackName);
    assert Slots(a)[6] == Slot("result", ResultParam(form.result));
  }

  /** With values free of '&', the server binds exactly what the form holds:
      every non-null field arrives under its own parameter, null fields and the
      result "Any" arrive as None, and an ELO field holding text that is not an
      integer (an emptied number box holds "") makes the server refuse the
      request. */
  lemma SubmitReachesServer(fen: string, form: SearchForm.Form)
    requires RawArgs(fen, SearchForm.Submit(form))
    ensures ElosParse(form) ==> Request(fen, form) == Ok(Meant(fen, form))
    ensures !ElosParse(form) ==> Request(fen, form).Err? && Request(fen, form).error.NotAnInteger?
  {
    var pairs := Received(fen, SearchForm.Submit(form));
    FormLookups(fen, form);
    assert HasKey(pairs, "fen_str");
    var r := Bind(pairs);
    if ElosParse(form) {
      assert IntParam(pairs, "wmin") == Ok(Parsed(form.whiteEloMin));
      assert IntParam(pairs, "wmax") == Ok(Parsed(form.whiteEloMax));
      assert IntParam(pairs, "bmin") == Ok(Parsed(form.blackEloMin));
      assert IntParam(pairs, "bmax") == Ok(Parsed(form.blackEloMax));
      assert r.Ok?;
    } else {
      assert r.Err?;
    }
  }

  /** When the request binds, the SQL carries one parameter for the position and
      one per filled entry of the form. */
  lemma SubmittedParameterCount(fen: string, form: SearchForm.Form)
    requires RawArgs(fen, SearchForm.Submit(form))
    requires ElosParse(form)
    ensures Request(fen, form).Ok?
    ensures |Build(Request(fen, form).value).params| == 1 + Filled(form)
  {
    SubmitReachesServer(fen, form);
    BuildShape(Meant(fen, form));
  }

  /** The untouched form, like the component's own mount-time fetch, asks only
      for the position. */
  lemma UntouchedFormAsksForPosition(fen: string)
    requires Raw(fen)
    ensures Request(fen, SearchForm.Init()) == Ok(ServerArgs(fen, None, None, None, None, None, None, None))
    ensures SearchForm.Submit(SearchForm.Init()) == Defaults()
    ensures |Build(Request(fen, SearchForm.Init()).value).params| == 1
  {
    SearchForm.SubmitMatchesParameters(SearchForm.Init());
    SubmitReachesServer(fen, SearchForm.Init());
    SubmittedParameterCount(fen, SearchForm.Init());
  }
}
