/** The prop-sync rule the data components share in `componentDidUpdate`
    (games_list.js:36-40, moves_table.js:27-31, chess_game.js:64-68): when the
    value held in state differs from the prop, copy the prop and refetch. */
module PropSync {

  datatype Synced<T> = Synced(held: T, refetch: bool)

  /** One `componentDidUpdate`: afterwards the held value equals the prop, and a
      refetch is asked for exactly when they differed. */
  function Sync<T(==)>(held: T, prop: T): (r: Synced<T>)
    ensures r.held == prop
    ensures r.refetch <==> held != prop
  {
    if held != prop then Synced(prop, true) else Synced(held, false)
  }

  /** The held value and the number of refetches after a run of updates. */
  function SyncAll<T(==)>(held: T, props: seq<T>): (r: (T, nat))
    decreases |props|
  {
    if |props| == 0 then (held, 0)
    else
      var s := Sync(held, props[0]);
      var rest := SyncAll(s.held, props[1..]);
      (rest.0, rest.1 + if s.refetch then 1 else 0)
  }

  /** The number of places in `props` where the value differs from the one before
      it (the first compared against `held`). */
  function Changes<T(==)>(held: T, props: seq<T>): nat
    decreases |props|
  {
    if |props| == 0 then 0
    else Changes(held, props[..|props| - 1])
         + if props[|props| - 1] != (if |props| == 1 then held else props[|props| - 2]) then 1 else 0
  }

  /** After a run of updates the component holds the last prop, has refetched once
      per change of the prop, and a repeat of the last prop refetches nothing. */
  lemma {:induction false} SyncAllCountsChanges<T>(held: T, props: seq<T>)
    ensures |props| > 0 ==> SyncAll(held, props).0 == props[|props| - 1]
    ensures |props| == 0 ==> SyncAll(held, props).0 == held
    ensures SyncAll(held, props).1 == Changes(held, props)
    decreases |props|
  {
    if |props| > 0 {
      var n := |props|;
      var init := props[..n - 1];
      SyncAllSnoc(held, init, props[n - 1]);
      assert init + [props[n - 1]] == props;
      SyncAllCountsChanges(held, init);
      if n > 1 {
        assert init[n - 2] == props[n - 2];
      }
    }
  }

  lemma {:induction false} SyncAllSnoc<T>(held: T, props: seq<T>, p: T)
    ensures SyncAll(held, props + [p]).0 == p
    ensures SyncAll(held, props + [p]).1
            == SyncAll(held, props).1 + if SyncAll(held, props).0 != p then 1 else 0
    decreases |props|
  {
    if |props| == 0 {
      assert props + [p] == [p];
      assert [p][1..] == [];
    } else {
      var s := Sync(held, props[0]);
      assert (props + [p])[1..] == props[1..] + [p];
      SyncAllSnoc(s.held, props[1..], p);
    }
  }
}
