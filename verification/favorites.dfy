/** The favorites set (`toggleFavorite`, app.js:185-196) and the array it is
    persisted as under the storage key `gptp_fav` (app.js:7, 191). */
module Favorites {
  import opened Text

  /** The storage key the favorites array lives under. */
  const StorageKey: string := "gptp_fav"

  /** Flip the membership of `id`: delete it when present, add it otherwise. */
  function Toggle(favs: set<string>, id: string): (r: set<string>)
    ensures id in r <==> id !in favs
    ensures forall x :: x != id ==> (x in r <==> x in favs)
  {
    if id in favs then favs - {id} else favs + {id}
  }

  /** Toggling the same id twice restores the set. */
  lemma ToggleInvolution(favs: set<string>, id: string)
    ensures Toggle(Toggle(favs, id), id) == favs
  {
  }

  predicate NoDuplicates(xs: seq<string>) {
    forall i, j :: 0 <= i < j < |xs| ==> xs[i] != xs[j]
  }

  /** `Array.from(state.favorites)` as written by `localStorage.setItem` (app.js:191):
      each element of the set exactly once. The set's iteration order is not
      modelled, so any order is allowed. */
  method Persist(favs: set<string>) returns (arr: seq<string>)
    ensures forall x :: x in arr <==> x in favs
    ensures NoDuplicates(arr)
    ensures |arr| == |favs|
  {
    arr := [];
    var rest := favs;
    while rest != {}
      invariant rest <= favs
      invariant forall x :: x in arr <==> x in favs && x !in rest
      invariant NoDuplicates(arr)
      invariant |arr| + |rest| == |favs|
      decreases |rest|
    {
      var x :| x in rest;
      arr := arr + [x];
      rest := rest - {x};
    }
  }

  /** The start-up read (app.js:7): the stored array, or `[]` when the key is absent,
      turned into a set. */
  function Load(stored: Option<seq<string>>): (r: set<string>)
    ensures stored.None? ==> r == {}
    ensures stored.Some? ==> forall x :: x in r <==> x in stored.value
  {
    match stored
    case None => {}
    case Some(arr) => set x | x in arr
  }

  /** Reading back what `Persist` wrote gives the same set. */
  method PersistThenLoad(favs: set<string>) returns (back: set<string>)
    ensures back == favs
  {
    var arr := Persist(favs);
    back := Load(Some(arr));
  }
}
