/** The browser's single mutable state record (app.js:1-8), as an immutable value.
    `route` is the value `location.hash` reads. */
module AppState {
  import opened Text
  import opened Catalog

  datatype State = State(
    prompts: seq<Record>,
    activeCategory: Option<string>,
    search: string,
    favoritesOnly: bool,
    favorites: set<string>,
    route: string)

  /** `if (state.activeCategory)`: JavaScript treats the empty slug like `null`. */
  predicate HasCategory(st: State) {
    st.activeCategory.Some? && st.activeCategory.value != ""
  }

  /** The state after `loadData` and the start-up read of the favorites: no category,
      no search, favorites-only off. */
  function Initial(prompts: seq<Record>, favorites: set<string>, route: string): (st: State)
    ensures st.prompts == prompts && st.favorites == favorites && st.route == route
    ensures !HasCategory(st) && st.search == [] && !st.favoritesOnly
  {
    State(prompts, None, "", false, favorites, route)
  }
}
