/** The filter form of the GameSearch component (frontend-src/src/game_search.js):
    six optional text fields that start out null, a result selector that starts
    at "Any", one change handler per control, and a submit button that hands the
    fields to `GetGames` positionally. */
module SearchForm {
  import opened Wrappers
  import GamesUrl

  /** The six free-text controls, in the order the submit button passes them. */
  datatype Field = WhiteEloMin | WhiteEloMax | BlackEloMin | BlackEloMax | WhiteName | BlackName

  /** The component state: null until a control is edited, then the control's text. */
  datatype Form = Form(whiteEloMin: Option<string>, whiteEloMax: Option<string>,
                       blackEloMin: Option<string>, blackEloMax: Option<string>,
                       whiteName: Option<string>, blackName: Option<string>,
                       result: string)

  /** The values of the `<option>`s of the result selector. */
  const ResultOptions: seq<string> := ["Any", "1-0", "0-1", "1/2-1/2"]

  /** One user interaction: typing into a text control, or picking a result. */
  datatype Event = Typed(field: Field, text: string) | Picked(choice: string)

  /** The position of a field among the submit arguments (0 to 5; the result is 6). */
  function Position(f: Field): nat
  {
    match f
    case WhiteEloMin => 0
    case WhiteEloMax => 1
    case BlackEloMin => 2
    case BlackEloMax => 3
    case WhiteName => 4
    case BlackName => 5
  }

  /** The value a text control currently holds. */
  function Get(form: Form, f: Field): Option<string>
  {
    match f
    case WhiteEloMin => form.whiteEloMin
    case WhiteEloMax => form.whiteEloMax
    case BlackEloMin => form.blackEloMin
    case BlackEloMax => form.blackEloMax
    case WhiteName => form.whiteName
    case BlackName => form.blackName
  }

  /** The constructor's state: every text field null, the result "Any". */
  function Init(): (form: Form)
    ensures forall f: Field :: Get(form, f) == None
    ensures form.result == "Any"
  {
    Form(None, None, None, None, None, None, "Any")
  }

  /** The state invariant: the result holds one of the offered options. */
  predicate WellFormed(form: Form)
  {
    form.result in ResultOptions
  }

  /** `onChange` of a text control: `setState({ field: e.target.value })`. The
      edited field holds the text (an empty string included); nothing else moves. */
  function Edit(form: Form, f: Field, text: string): (r: Form)
    ensures Get(r, f) == Some(text)
    ensures forall g: Field :: g != f ==> Get(r, g) == Get(form, g)
    ensures r.result == form.result
  {
    match f
    case WhiteEloMin => form.(whiteEloMin := Some(text))
    case WhiteEloMax => form.(whiteEloMax := Some(text))
    case BlackEloMin => form.(blackEloMin := Some(text))
    case BlackEloMax => form.(blackEloMax := Some(text))
    case WhiteName => form.(whiteName := Some(text))
    case BlackName => form.(blackName := Some(text))
  }

  /** `onChange` of the result selector; the browser only ever reports the value
      of one of its options. */
  function Pick(form: Form, choice: string): (r: Form)
    requires choice in ResultOptions
    ensures WellFormed(r) && r.result == choice
    ensures forall g: Field :: Get(r, g) == Get(form, g)
  {
    form.(result := choice)
  }

  /** True iff the event is one the controls can produce. */
  predicate Possible(e: Event)
  {
    e.Picked? ==> e.choice in ResultOptions
  }

  function Handle(form: Form, e: Event): Form
    requires Possible(e)
  {
    match e
    case Typed(f, text) => Edit(form, f, text)
    case Picked(choice) => Pick(form, choice)
  }

  /** The form after a run of interactions. */
  function HandleAll(form: Form, es: seq<Event>): Form
    requires forall i :: 0 <= i < |es| ==> Possible(es[i])
    decreases |es|
  {
    if |es| == 0 then form else HandleAll(Handle(form, es[0]), es[1..])
  }

  /** The text last typed into `f` during `es`, if any: a reference definition
      read from the end of the run. */
  function LastTyped(es: seq<Event>, f: Field): Option<string>
    decreases |es|
  {
    if |es| == 0 then None
    else
      var e := es[|es| - 1];
      if e.Typed? && e.field == f then Some(e.text) else LastTyped(es[..|es| - 1], f)
  }

  /** The choice last picked during `es`, if any. */
  function LastPicked(es: seq<Event>): Option<string>
    decreases |es|
  {
    if |es| == 0 then None
    else if es[|es| - 1].Picked? then Some(es[|es| - 1].choice) else LastPicked(es[..|es| - 1])
  }

  lemma {:induction false} HandleAllSnoc(form: Form, es: seq<Event>, e: Event)
    requires forall i :: 0 <= i < |es| ==> Possible(es[i])
    requires Possible(e)
    ensures forall i :: 0 <= i < |es + [e]| ==> Possible((es + [e])[i])
    ensures HandleAll(form, es + [e]) == Handle(HandleAll(form, es), e)
    decreases |es|
  {
    assert forall i :: 0 <= i < |es + [e]| ==> Possible((es + [e])[i]) by {
      forall i | 0 <= i < |es + [e]| ensures Possible((es + [e])[i]) {
        if i < |es| { assert (es + [e])[i] == es[i]; }
      }
    }
    if |es| == 0 {
      assert es + [e] == [e];
      assert [e][1..] == [];
    } else {
      assert (es + [e])[1..] == es[1..] + [e];
      HandleAllSnoc(Handle(form, es[0]), es[1..], e);
    }
  }

  /** After any run of interactions every text field holds the text last typed
      into it, or what it held before when it was not touched; the result holds
      the last choice picked, or the old one. In particular a field is null only
      if it was never edited: no handler resets a field to null. */
  lemma {:induction false} HandleAllFields(form: Form, es: seq<Event>)
    requires forall i :: 0 <= i < |es| ==> Possible(es[i])
    ensures forall f: Field :: Get(HandleAll(form, es), f)
              == if LastTyped(es, f).Some? then LastTyped(es, f) else Get(form, f)
    ensures HandleAll(form, es).result
              == if LastPicked(es).Some? then LastPicked(es).value else form.result
    decreases |es|
  {
    if |es| > 0 {
      var n := |es|;
      var init := es[..n - 1];
      assert init + [es[n - 1]] == es;
      assert forall i :: 0 <= i < |init| ==> Possible(init[i]) by {
        forall i | 0 <= i < |init| ensures Possible(init[i]) { assert init[i] == es[i]; }
      }
      HandleAllSnoc(form, init, es[n - 1]);
      HandleAllFields(form, init);
    }
  }

  /** A well-formed form stays well formed, and a field that holds text keeps
      holding text, whatever the user does. */
  lemma HandleAllKeepsInvariant(form: Form, es: seq<Event>)
    requires forall i :: 0 <= i < |es| ==> Possible(es[i])
    requires WellFormed(form)
    ensures WellFormed(HandleAll(form, es))
    ensures forall f: Field :: Get(form, f).Some? ==> Get(HandleAll(form, es), f).Some?
  {
    HandleAllFields(form, es);
    if LastPicked(es).Some? {
      LastPickedPossible(es);
    }
  }

  lemma {:induction false} LastPickedPossible(es: seq<Event>)
    requires forall i :: 0 <= i < |es| ==> Possible(es[i])
    requires LastPicked(es).Some?
    ensures LastPicked(es).value in ResultOptions
    decreases |es|
  {
    if !es[|es| - 1].Picked? {
      var init := es[..|es| - 1];
      assert forall i :: 0 <= i < |init| ==> Possible(init[i]) by {
        forall i | 0 <= i < |init| ensures Possible(init[i]) { assert init[i] == es[i]; }
      }
      LastPickedPossible(init);
    }
  }

  /** The submit button: `submit_handler(white_elo_min, white_elo_max,
      black_elo_min, black_elo_max, white_name, black_name, result)`. */
  function Submit(form: Form): (a: GamesUrl.SearchArgs)
    ensures forall f: Field :: GamesUrl.Slots(a)[Position(f)].arg == Get(form, f)
    ensures a.result == form.result
  {
    GamesUrl.SearchArgs(form.whiteEloMin, form.whiteEloMax, form.blackEloMin, form.blackEloMax,
                        form.whiteName, form.blackName, form.result)
  }

  /** The query key `GetGames` files each control under. */
  function Key(f: Field): string
  {
    match f
    case WhiteEloMin => "wmin"
    case WhiteEloMax => "wmax"
    case BlackEloMin => "bmin"
    case BlackEloMax => "bmax"
    case WhiteName => "wname"
    case BlackName => "bname"
  }

  /** Submitting lines each control up with the `GetGames` parameter of the same
      meaning: position k of the submit call lands in the slot keyed for that
      control, and the result lands in the "result" slot. The untouched form
      submits the all-default arguments. */
  lemma SubmitMatchesParameters(form: Form)
    ensures forall f: Field :: GamesUrl.Slots(Submit(form))[Position(f)] == GamesUrl.Slot(Key(f), Get(form, f))
    ensures GamesUrl.Slots(Submit(form))[6] == GamesUrl.Slot("result", GamesUrl.ResultParam(form.result))
    ensures Submit(Init()) == GamesUrl.Defaults()
  {
    forall f: Field ensures GamesUrl.Slots(Submit(form))[Position(f)] == GamesUrl.Slot(Key(f), Get(form, f)) {
      match f
      case WhiteEloMin => {}
      case WhiteEloMax => {}
      case BlackEloMin => {}
      case BlackEloMax => {}
      case WhiteName => {}
      case BlackName => {}
    }
  }
}
