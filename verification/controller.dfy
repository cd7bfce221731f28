/** What the browser shows and how each user action changes the state:
    `updateView` (app.js:288-299), the chip handlers (app.js:65-77),
    `openPrompt` and `closeDrawer` (app.js:198-213), `toggleFavorite`'s state
    part (app.js:185-190) and the search, favorites-only and `hashchange`
    listeners (app.js:302-329). Rendering itself is left out: a view is the
    state after the call plus which panel is visible and which records it lists. */
module Controller {
  import opened Text
  import opened Uri
  import opened Location
  import opened Slug
  import opened Routes
  import opened Catalog
  import opened AppState
  import opened Listing
  import opened Favorites

  /** The visible panel: the category grid, or the record list with its items. */
  datatype Mode = HomeGrid | ListView(items: seq<Record>)

  datatype View = View(state: State, mode: Mode)

  /** On a category route the selected category is the route's slug. */
  predicate Synced(st: State) {
    ParseRoute(st.route).Category? ==> st.activeCategory == Some(ParseRoute(st.route).slug)
  }

  /** `updateView` (app.js:288-299): the list shows on a category route, with a
      non-empty search text (white space counts) or with favorites-only on; a
      category route also selects its slug. The list is built from the synced state. */
  function UpdateView(extra: char -> bool, st: State): (v: View)
    ensures Synced(v.state)
    ensures v.state == st.(activeCategory := v.state.activeCategory)
    ensures !ParseRoute(st.route).Category? ==> v.state == st
    ensures v.mode.ListView? <==> ParseRoute(st.route).Category? || st.search != [] || st.favoritesOnly
    ensures v.mode.ListView? ==> v.mode.items == Visible(extra, v.state)
  {
    var r := ParseRoute(st.route);
    var showList := r.Category? || st.search != "" || st.favoritesOnly;
    var st' := if r.Category? then st.(activeCategory := Some(r.slug)) else st;
    View(st', if showList then ListView(Visible(extra, st')) else HomeGrid)
  }

  /** A second `updateView` changes nothing, so the `hashchange` that follows a
      handler's own `updateView` redraws the same view. */
  lemma UpdateViewIdempotent(extra: char -> bool, st: State)
    ensures UpdateView(extra, UpdateView(extra, st).state) == UpdateView(extra, st)
  {
  }

  /** A synced state is left as it is. */
  lemma UpdateViewKeepsSynced(extra: char -> bool, st: State)
    requires Synced(st)
    ensures UpdateView(extra, st).state == st
  {
  }

  /** Every slug `slugify` makes is free of the route delimiters when the extra
      alphabet admits none, so it reads back from a category fragment. */
  lemma SlugDelimiterFree(extra: char -> bool, s: string)
    requires forall c :: extra(c) ==> !IsDelimiter(c)
    ensures DelimiterFree(Slugify(extra, s))
  {
    var r := Slugify(extra, s);
    forall i | 0 <= i < |r|
      ensures !IsDelimiter(r[i])
    {
      SlugCharNotDelimiter(extra, r[i]);
    }
  }

  lemma SlugCharNotDelimiter(extra: char -> bool, c: char)
    requires forall x :: extra(x) ==> !IsDelimiter(x)
    requires SlugChar(extra, c)
    ensures !IsDelimiter(c)
  {
  }

  /** A category chip's click handler (app.js:72-77). `pressed` was computed when
      the chips were last drawn, which is the current selection: every change of
      the selection is followed by `updateView`, which redraws them. Pressing a
      chip selects its slug or, when it is already selected, deselects it; the
      fragment follows, as the browser stores it, and the view is updated. */
  function ChipClick(extra: char -> bool, st: State, slug: string): (v: View)
    ensures Synced(v.state)
    ensures v.state == st.(activeCategory := v.state.activeCategory, route := v.state.route)
    ensures StoredHash(v.state.route) == v.state.route
  {
    var pressed := st.activeCategory == Some(slug);
    var active: Option<string> := if pressed then None else Some(slug);
    var written := if active.Some? && active.value != "" then CategoryPrefix + active.value else "";
    StoredHashIdempotent(written);
    UpdateView(extra, st.(activeCategory := active, route := StoredHash(written)))
  }

  /** Selecting a chip selects the slug the fragment reads back as: the browser
      stores the fragment percent-encoded, so the selection becomes the slug's
      fragment encoding, and the list holds exactly the records whose category
      slugifies to that, narrowed by favorites-only and the search. */
  lemma ChipSelects(extra: char -> bool, st: State, slug: string)
    requires st.activeCategory != Some(slug)
    requires Storable(slug) && DelimiterFree(slug)
    ensures var v := ChipClick(extra, st, slug);
      && v.state.activeCategory == Some(FragmentEncode(slug))
      && ParseRoute(v.state.route) == Category(FragmentEncode(slug))
      && v.mode.ListView?
      && forall r :: r in v.mode.items <==>
           && r in st.prompts && Slugify(extra, r.category) == FragmentEncode(slug)
           && FavoriteTest(st, r) && SearchTest(Query(st.search), r)
  {
    CategoryRoundTrip(slug);
    ChipClickWrites(extra, st, slug);
    CategoryView(extra, st.(activeCategory := Some(slug), route := StoredHash(RouteHash(Category(slug)))), FragmentEncode(slug));
  }

  /** Pressing an unselected chip with a non-empty slug writes its category route. */
  lemma ChipClickWrites(extra: char -> bool, st: State, slug: string)
    requires st.activeCategory != Some(slug) && slug != []
    ensures ChipClick(extra, st, slug) ==
            UpdateView(extra, st.(activeCategory := Some(slug), route := StoredHash(RouteHash(Category(slug)))))
  {
  }

  /** The view of a category route: the list of the records whose category
      slugifies to the route's slug, narrowed by favorites-only and the search. */
  lemma CategoryView(extra: char -> bool, st: State, s: string)
    requires ParseRoute(st.route) == Category(s) && s != []
    ensures var v := UpdateView(extra, st);
      && v.state == st.(activeCategory := Some(s))
      && v.mode.ListView?
      && forall r :: r in v.mode.items <==>
           && r in st.prompts && Slugify(extra, r.category) == s
           && FavoriteTest(st, r) && SearchTest(Query(st.search), r)
  {    var st' := st.(activeCategory := Some(s));
    var v := UpdateView(extra, st);
    assert v.state == st' && v.mode == ListView(Visible(extra, st'));
    forall r
      ensures r in v.mode.items <==>
                && r in st.prompts && Slugify(extra, r.category) == s
                && FavoriteTest(st, r) && SearchTest(Query(st.search), r)
    {
      PassesSelected(extra, st, s, r);
    }
  }

  /** A slug the fragment encoding leaves alone (printable ASCII other than space,
      `"`, `<`, `>` and `` ` ``) is selected as itself, and the list holds exactly
      that category's records. */
  lemma ChipSelectsAsciiSlug(extra: char -> bool, st: State, slug: string)
    requires st.activeCategory != Some(slug)
    requires slug != [] && DelimiterFree(slug) && FragmentSafe(slug)
    ensures var v := ChipClick(extra, st, slug);
      && v.state.activeCategory == Some(slug)
      && ParseRoute(v.state.route) == Category(slug)
      && v.mode.ListView?
      && forall r :: r in v.mode.items <==>
           && r in st.prompts && Slugify(extra, r.category) == slug
           && FavoriteTest(st, r) && SearchTest(Query(st.search), r)
  {
    assert !IsTabOrNewline(slug[0]);
    ChipSelects(extra, st, slug);
  }

  /** No slug holds `%` when the slug alphabet does not admit it. */
  lemma SlugHasNoPercent(extra: char -> bool, name: string)
    requires !extra('%')
    ensures '%' !in Slugify(extra, name)
  {
  }

  /** As written, a chip whose slug holds a character of the fragment set (every
      letter above U+007E, so every Cyrillic slug) selects the escaped form of its
      slug. No slug holds `%`, so no record passes the category test: the list is
      empty, and no chip is drawn pressed. */
  lemma EncodedChipListsNothing(extra: char -> bool, st: State, slug: string)
    requires !extra('%')
    requires st.activeCategory != Some(slug)
    requires slug != [] && DelimiterFree(slug) && !FragmentSafe(slug)
    requires forall i :: 0 <= i < |slug| ==> !IsTabOrNewline(slug[i])
    ensures var v := ChipClick(extra, st, slug);
      && v.mode == ListView([])
      && forall name :: v.state.activeCategory != Some(Slugify(extra, name))
  {
    var i :| 0 <= i < |slug| && !FragmentKeeps(slug[i]);
    FragmentEncodeEscapes(slug, i);
    NoSlugIsEscaped(extra, FragmentEncode(slug));
    ChipSelects(extra, st, slug);
    NothingIn(ChipClick(extra, st, slug).mode.items);
  }

  /** A string holding `%` is no slug when the slug alphabet does not admit it. */
  lemma NoSlugIsEscaped(extra: char -> bool, f: string)
    requires !extra('%') && '%' in f
    ensures forall name :: Slugify(extra, name) != f
  {
    forall name
      ensures Slugify(extra, name) != f
    {
      SlugHasNoPercent(extra, name);
    }
  }

  /** The Cyrillic chip "маркетинг" as an instance: its list is empty. */
  lemma CyrillicChipListsNothing(extra: char -> bool, st: State)
    requires !extra('%') && st.activeCategory != Some("маркетинг")
    ensures ChipClick(extra, st, "маркетинг").mode == ListView([])
  {
    var slug := "маркетинг";
    assert !FragmentKeeps(slug[0]);
    EncodedChipListsNothing(extra, st, slug);
  }

  /** `updateView` over the corrected `getRoute`: a category route selects the
      URI-decoded slug. */
  function UpdateViewDecoded(extra: char -> bool, st: State): (v: View)
    ensures v.state == st.(activeCategory := v.state.activeCategory)
    ensures ParseRouteDecoded(st.route).Category? ==>
              v.state.activeCategory == Some(ParseRouteDecoded(st.route).slug)
    ensures !ParseRoute(st.route).Category? ==> v.state == st
    ensures v.mode.ListView? <==> ParseRoute(st.route).Category? || st.search != [] || st.favoritesOnly
    ensures v.mode.ListView? ==> v.mode.items == Visible(extra, v.state)
  {
    var r := ParseRouteDecoded(st.route);
    var showList := r.Category? || st.search != "" || st.favoritesOnly;
    var st' := if r.Category? then st.(activeCategory := Some(r.slug)) else st;
    View(st', if showList then ListView(Visible(extra, st')) else HomeGrid)
  }

  /** The category chip's handler over the corrected `updateView`. */
  function ChipClickDecoded(extra: char -> bool, st: State, slug: string): (v: View)
    ensures v.state == st.(activeCategory := v.state.activeCategory, route := v.state.route)
  {
    var pressed := st.activeCategory == Some(slug);
    var active: Option<string> := if pressed then None else Some(slug);
    var written := if active.Some? && active.value != "" then CategoryPrefix + active.value else "";
    UpdateViewDecoded(extra, st.(activeCategory := active, route := StoredHash(written)))
  }

  /** With decoding, every chip selects its own slug, whatever characters it holds,
      and lists that category's records. */
  lemma ChipDecodedSelects(extra: char -> bool, st: State, slug: string)
    requires st.activeCategory != Some(slug)
    requires slug != [] && DelimiterFree(slug)
    requires forall i :: 0 <= i < |slug| ==> slug[i] != '%' && !IsTabOrNewline(slug[i])
    ensures var v := ChipClickDecoded(extra, st, slug);
      && v.state.activeCategory == Some(slug)
      && ParseRouteDecoded(v.state.route) == Category(slug)
      && v.mode.ListView?
      && forall r :: r in v.mode.items <==>
           && r in st.prompts && Slugify(extra, r.category) == slug
           && FavoriteTest(st, r) && SearchTest(Query(st.search), r)
  {
    DecodedRoundTrip(Category(slug));
    ChipClickDecodedWrites(extra, st, slug);
    CategoryViewDecoded(extra, st.(activeCategory := Some(slug), route := StoredHash(RouteHash(Category(slug)))), slug);
  }

  /** With a non-empty slug selected, a record passes exactly when its category
      slugifies to that slug and the other two stages let it through. */
  lemma PassesSelected(extra: char -> bool, st: State, s: string, r: Record)
    requires s != []
    ensures Passes(extra, st.(activeCategory := Some(s)), r) <==>
              FavoriteTest(st, r) && Slugify(extra, r.category) == s && SearchTest(Query(st.search), r)
  {
  }

  lemma CategoryViewDecoded(extra: char -> bool, st: State, s: string)
    requires ParseRouteDecoded(st.route) == Category(s) && s != []
    ensures var v := UpdateViewDecoded(extra, st);
      && v.state == st.(activeCategory := Some(s))
      && v.mode.ListView?
      && forall r :: r in v.mode.items <==>
           && r in st.prompts && Slugify(extra, r.category) == s
           && FavoriteTest(st, r) && SearchTest(Query(st.search), r)
  {    var st' := st.(activeCategory := Some(s));
    var v := UpdateViewDecoded(extra, st);
    assert v.state == st' && v.mode == ListView(Visible(extra, st'));
    forall r
      ensures r in v.mode.items <==>
                && r in st.prompts && Slugify(extra, r.category) == s
                && FavoriteTest(st, r) && SearchTest(Query(st.search), r)
    {
      PassesSelected(extra, st, s, r);
    }
  }

  lemma ChipClickDecodedWrites(extra: char -> bool, st: State, slug: string)
    requires st.activeCategory != Some(slug) && slug != []
    ensures ChipClickDecoded(extra, st, slug) ==
            UpdateViewDecoded(extra, st.(activeCategory := Some(slug), route := StoredHash(RouteHash(Category(slug)))))
  {
  }

  /** Pressing the selected chip again clears the selection and the fragment and
      keeps the search text; the list stays only if a search or favorites-only
      asks for it, and then lists every record of every category they let through. */
  lemma ChipDeselects(extra: char -> bool, st: State, slug: string)
    requires st.activeCategory == Some(slug)
    ensures var v := ChipClick(extra, st, slug);
      && v.state.activeCategory == None
      && ParseRoute(v.state.route) == Home
      && v.state.search == st.search
      && (v.mode.ListView? <==> st.search != [] || st.favoritesOnly)
      && (v.mode.ListView? ==> forall r :: r in v.mode.items <==>
            r in st.prompts && FavoriteTest(st, r) && SearchTest(Query(st.search), r))
  {
    var st1 := st.(activeCategory := None, route := "");
    DeselectWrites(extra, st, slug);
    HomeView(extra, st1);
    forall r
      ensures FavoriteTest(st1, r) <==> FavoriteTest(st, r)
    {
    }
  }

  lemma DeselectWrites(extra: char -> bool, st: State, slug: string)
    requires st.activeCategory == Some(slug)
    ensures ChipClick(extra, st, slug) == UpdateView(extra, st.(activeCategory := None, route := ""))
  {
    HomeRoundTrip();
  }

  /** With nothing selected, on the empty fragment, the view keeps the state and
      lists what favorites-only and the search let through. */
  lemma HomeView(extra: char -> bool, st: State)
    requires st.activeCategory == None && st.route == ""
    ensures var v := UpdateView(extra, st);
      && v.state == st
      && ParseRoute(st.route) == Home
      && (v.mode.ListView? <==> st.search != [] || st.favoritesOnly)
      && (v.mode.ListView? ==> forall r :: r in v.mode.items <==>
            r in st.prompts && FavoriteTest(st, r) && SearchTest(Query(st.search), r))
  {
    HomeRoundTrip();
    forall r
      ensures Passes(extra, st, r) <==> FavoriteTest(st, r) && SearchTest(Query(st.search), r)
    {
    }
  }

  /** A category whose name has no slug character gets the empty slug; its chip
      "selects" `""`, which JavaScript treats as no category: no fragment, and the
      list is not narrowed. */
  lemma EmptySlugChipFiltersNothing(extra: char -> bool, st: State)
    requires st.activeCategory != Some("")
    ensures var v := ChipClick(extra, st, "");
      && v.state.activeCategory == Some("")
      && !HasCategory(v.state)
      && ParseRoute(v.state.route) == Home
  {
  }

  /** The "All" chip's handler as written (app.js:65-68): it clears the selection
      but leaves the fragment alone. */
  function AllChipClick(extra: char -> bool, st: State): (v: View)
    ensures v.state == st.(activeCategory := v.state.activeCategory)
    ensures !ParseRoute(st.route).Category? ==> v.state.activeCategory == None
  {
    UpdateView(extra, st.(activeCategory := None))
  }

  /** On a category route the "All" chip does nothing: `updateView` reads the
      category back from the fragment it left in place. */
  lemma AllChipIgnoredOnCategoryRoute(extra: char -> bool, st: State)
    requires ParseRoute(st.route).Category? && Synced(st)
    ensures AllChipClick(extra, st) == UpdateView(extra, st)
    ensures AllChipClick(extra, st).state == st
    ensures HasCategory(AllChipClick(extra, st).state)
  {
  }

  /** The "All" chip as evidently intended: it clears the selection and the
      fragment, like deselecting a category chip. */
  function AllChipClickFixed(extra: char -> bool, st: State): (v: View)
    ensures v.state == st.(activeCategory := v.state.activeCategory, route := v.state.route)
  {
    UpdateView(extra, st.(activeCategory := None, route := StoredHash(RouteHash(Home))))
  }

  /** After the corrected "All" chip no category is selected and the list, when it
      shows, holds every record the search and favorites-only let through. */
  lemma AllChipFixedClears(extra: char -> bool, st: State)
    ensures var v := AllChipClickFixed(extra, st);
      && v.state.activeCategory == None
      && ParseRoute(v.state.route) == Home
      && (v.mode.ListView? <==> st.search != [] || st.favoritesOnly)
      && (v.mode.ListView? ==> forall r :: r in v.mode.items <==>
            r in st.prompts && FavoriteTest(st, r) && SearchTest(Query(st.search), r))
  {
  }

  /** The outcome of `openPrompt`: the state (only the fragment can change) and the
      record put in the drawer, if any. */
  datatype Opened = Opened(state: State, drawer: Option<Record>)

  /** `openPrompt` (app.js:198-203): an unknown id changes nothing; a known one
      writes the prompt fragment with the `encodeURIComponent`-encoded id and shows
      the first record with that id. */
  function OpenPrompt(st: State, id: string): (o: Opened)
    ensures o.state == st.(route := o.state.route)
    ensures o.drawer.None? <==> forall i :: 0 <= i < |st.prompts| ==> st.prompts[i].id != id
    ensures o.drawer.None? ==> o.state == st
    ensures o.drawer.Some? ==> o.drawer == FindRecord(st.prompts, id) && o.drawer.value.id == id
    ensures o.drawer.Some? ==> o.state.route == PromptPrefix + EncodeUriComponent(id)
  {
    var p := FindRecord(st.prompts, id);
    if p.None? then Opened(st, None)
    else
      PromptRoundTrip(id);
      Opened(st.(route := StoredHash(RouteHash(Prompt(id)))), p)
  }

  /** Opening a known record leaves a fragment that reads back as a prompt route
      carrying the encoded id, or as the home route when the id is empty. */
  lemma OpenPromptRoute(st: State, id: string)
    requires OpenPrompt(st, id).drawer.Some?
    ensures id != [] ==> ParseRoute(OpenPrompt(st, id).state.route) == Prompt(EncodeUriComponent(id))
    ensures id == [] ==> ParseRoute(OpenPrompt(st, id).state.route) == Home
  {
    PromptRoundTrip(id);
  }

  /** `closeDrawer` (app.js:205-213): on a prompt route, go back to the selected
      category's fragment, or to the empty fragment when none is selected; on any
      other route, leave the fragment alone. Hiding the drawer is not modelled. */
  function CloseDrawer(st: State): (r: State)
    ensures r == st.(route := r.route)
    ensures !ParseRoute(st.route).Prompt? ==> r == st
    ensures !ParseRoute(r.route).Prompt?
  {
    if ParseRoute(st.route).Prompt? then
      if HasCategory(st) then
        CategoryHashNotPrompt(st.activeCategory.value);
        st.(route := StoredHash(RouteHash(Category(st.activeCategory.value))))
      else st.(route := StoredHash(RouteHash(Home)))
    else st
  }

  /** Closing from a prompt route returns to the selected category, as the
      browser stores its slug, or home when none is selected. */
  lemma CloseDrawerReturns(st: State)
    requires ParseRoute(st.route).Prompt?
    requires HasCategory(st) ==> Storable(st.activeCategory.value) && DelimiterFree(st.activeCategory.value)
    ensures HasCategory(st) ==>
              ParseRoute(CloseDrawer(st).route) == Category(FragmentEncode(st.activeCategory.value))
    ensures !HasCategory(st) ==> ParseRoute(CloseDrawer(st).route) == Home
  {
    if HasCategory(st) {
      CategoryRoundTrip(st.activeCategory.value);
    }
  }

  /** Opening a record from a category list and closing the drawer again brings
      back that category's list: the fragment reads back as the category and the
      `hashchange` redraw shows the same list as before. The route is one
      `location.hash` can read, and the id is not empty (the empty id's fragment
      `#/prompt/` reads as home, so the drawer has nothing to close). */
  lemma OpenThenCloseOnCategory(extra: char -> bool, st: State, id: string)
    requires ParseRoute(st.route).Category? && Synced(st) && StoredHash(st.route) == st.route
    requires OpenPrompt(st, id).drawer.Some? && id != []
    ensures var closed := CloseDrawer(OpenPrompt(st, id).state);
      && ParseRoute(closed.route) == ParseRoute(st.route)
      && UpdateView(extra, closed) == UpdateView(extra, st).(state := closed)
  {
    var closed := CloseDrawer(OpenPrompt(st, id).state);
    CloseOnCategoryRoute(st, id);
    assert closed == st.(route := closed.route);
    SameRouteSameView(extra, st, closed.route);
  }

  lemma CloseOnCategoryRoute(st: State, id: string)
    requires ParseRoute(st.route).Category? && Synced(st) && StoredHash(st.route) == st.route
    requires OpenPrompt(st, id).drawer.Some? && id != []
    ensures ParseRoute(CloseDrawer(OpenPrompt(st, id).state).route) == ParseRoute(st.route)
  {
    var slug := ParseRoute(st.route).slug;
    ReadSlugSafe(st.route);
    OpenPromptRoute(st, id);
    var st2 := OpenPrompt(st, id).state;
    assert st2.activeCategory == Some(slug);
    CloseReturnsToSafe(st2, slug);
  }

  lemma CloseReturnsToSafe(st: State, slug: string)
    requires ParseRoute(st.route).Prompt? && st.activeCategory == Some(slug)
    requires slug != [] && DelimiterFree(slug) && FragmentSafe(slug)
    ensures ParseRoute(CloseDrawer(st).route) == Category(slug)
  {
    assert !IsTabOrNewline(slug[0]);
    CloseDrawerReturns(st);
  }

  /** A synced state on a category route shows the same view after its fragment
      is replaced by one that reads back as the same route. */
  lemma SameRouteSameView(extra: char -> bool, st: State, h: string)
    requires ParseRoute(st.route).Category? && Synced(st) && ParseRoute(h) == ParseRoute(st.route)
    ensures UpdateView(extra, st.(route := h)) == UpdateView(extra, st).(state := st.(route := h))
  {
    var st' := st.(route := h);
    assert UpdateView(extra, st).state == st;
    assert UpdateView(extra, st').state == st';
    assert Visible(extra, st') == Visible(extra, st);
  }

  /** From the home page with nothing selected, opening and closing restores the
      state exactly. */
  lemma OpenThenCloseAtHome(st: State, id: string)
    requires st.route == "" && !HasCategory(st)
    requires OpenPrompt(st, id).drawer.Some? && id != []
    ensures CloseDrawer(OpenPrompt(st, id).state) == st
  {
    OpenPromptRoute(st, id);
  }

  /** What a `hashchange` does (app.js:320-329): on a prompt route, show the record
      whose id equals the captured text, if there is one (otherwise nothing
      happens); on any other route, hide the drawer and update the view. */
  datatype Reaction = ShowRecord(record: Option<Record>) | Redraw(view: View)

  function OnHashChange(extra: char -> bool, st: State): (x: Reaction)
    ensures x.ShowRecord? <==> ParseRoute(st.route).Prompt?
    ensures x.ShowRecord? && x.record.Some? ==>
              x.record.value in st.prompts && x.record.value.id == ParseRoute(st.route).id
    ensures x.ShowRecord? ==>
              (x.record.None? <==> forall i :: 0 <= i < |st.prompts| ==> st.prompts[i].id != ParseRoute(st.route).id)
    ensures x.ShowRecord? && x.record.Some? ==>
              exists i :: 0 <= i < |st.prompts| && st.prompts[i] == x.record.value &&
                forall j :: 0 <= j < i ==> st.prompts[j].id != ParseRoute(st.route).id
    ensures x.Redraw? ==> x.view == UpdateView(extra, st)
  {
    var r := ParseRoute(st.route);
    if r.Prompt? then ShowRecord(FindRecord(st.prompts, r.id)) else Redraw(UpdateView(extra, st))
  }

  /** The captured id is looked up without decoding, so the `hashchange` after
      `openPrompt` finds the opened record when `encodeURIComponent` leaves its id
      unchanged: letters, digits and `-_.!~*'()` only. */
  lemma OpenThenHashChangePlainId(extra: char -> bool, st: State, id: string)
    requires OpenPrompt(st, id).drawer.Some?
    requires id != [] && forall i :: 0 <= i < |id| ==> ComponentKeeps(id[i])
    ensures OnHashChange(extra, OpenPrompt(st, id).state) == ShowRecord(FindRecord(st.prompts, id))
  {
    OpenPromptRoute(st, id);
  }

  lemma EncodeSpaceExample()
    ensures EncodeUriComponent("a b") == "a%20b"
  {
    assert Utf8(' ') == [32];
    assert PercentByte(32) == "%20";
    assert EncodeChar(ComponentKeeps, ' ') == "%20";
    var s := "a b";
    assert s[1..] == " b" && s[1..][1..] == "b" && s[1..][1..][1..] == [];
    assert PercentEncode(ComponentKeeps, "b") == "b";
    assert PercentEncode(ComponentKeeps, " b") == "%20" + "b";
  }

  /** As written, a record whose id `encodeURIComponent` changes cannot be reached
      through its own fragment: with a single record `"a b"`, opening it writes
      `#/prompt/a%20b`, and the `hashchange` for that fragment looks up `"a%20b"`
      and finds nothing. */
  lemma EncodedIdNotFound(extra: char -> bool)
    ensures var rec := Record("a b", "t", "d", "c", []);
      var st := Initial([rec], {}, "");
      var o := OpenPrompt(st, "a b");
      && o.drawer == Some(rec)
      && OnHashChange(extra, o.state) == ShowRecord(None)
  {
    var rec := Record("a b", "t", "d", "c", []);
    var st := Initial([rec], {}, "");
    EncodeSpaceExample();
    OpenPromptRoute(st, "a b");
    assert "a%20b" != rec.id;
  }

  /** The `hashchange` listener over the corrected `getRoute`: the captured id is
      URI-decoded before the lookup, and the redraw uses the corrected `updateView`. */
  function OnHashChangeDecoded(extra: char -> bool, st: State): (x: Reaction)
    ensures x.ShowRecord? <==> ParseRoute(st.route).Prompt?
    ensures x.ShowRecord? && x.record.Some? ==>
              x.record.value in st.prompts && x.record.value.id == ParseRouteDecoded(st.route).id
    ensures x.ShowRecord? ==>
              (x.record.None? <==> forall i :: 0 <= i < |st.prompts| ==> st.prompts[i].id != ParseRouteDecoded(st.route).id)
    ensures x.ShowRecord? && x.record.Some? ==>
              exists i :: 0 <= i < |st.prompts| && st.prompts[i] == x.record.value &&
                forall j :: 0 <= j < i ==> st.prompts[j].id != ParseRouteDecoded(st.route).id
    ensures x.Redraw? ==> x.view == UpdateViewDecoded(extra, st)
  {
    var r := ParseRouteDecoded(st.route);
    if r.Prompt? then ShowRecord(FindRecord(st.prompts, r.id)) else Redraw(UpdateViewDecoded(extra, st))
  }

  /** With decoding, the fragment `openPrompt` writes leads back to the record it
      opened, whatever characters the (non-empty) id holds. */
  lemma OpenThenHashChangeDecoded(extra: char -> bool, st: State, id: string)
    requires OpenPrompt(st, id).drawer.Some? && id != []
    ensures OnHashChangeDecoded(extra, OpenPrompt(st, id).state) == ShowRecord(OpenPrompt(st, id).drawer)
  {
    DecodedRoundTrip(Prompt(id));
  }

  /** The state part of `toggleFavorite` (app.js:185-190): flip one id's membership
      in the favorites and touch nothing else; the list is not redrawn. */
  function ToggleFavorite(st: State, id: string): (r: State)
    ensures r == st.(favorites := r.favorites)
    ensures id in r.favorites <==> id !in st.favorites
    ensures forall x :: x != id ==> (x in r.favorites <==> x in st.favorites)
  {
    st.(favorites := Toggle(st.favorites, id))
  }

  /** Toggling the same id twice restores the state. */
  lemma ToggleFavoriteTwice(st: State, id: string)
    ensures ToggleFavorite(ToggleFavorite(st, id), id) == st
  {
    ToggleInvolution(st.favorites, id);
  }

  /** The search field's `input` listener (app.js:302-305). */
  function SetSearch(extra: char -> bool, st: State, text: string): (v: View)
    ensures v.state.search == text
    ensures v.state == st.(search := text, activeCategory := v.state.activeCategory)
    ensures Synced(v.state)
    ensures !ParseRoute(st.route).Category? ==> v.state.activeCategory == st.activeCategory
    ensures v.mode.ListView? <==> text != [] || ParseRoute(st.route).Category? || st.favoritesOnly
    ensures v.mode.ListView? ==> v.mode.items == Visible(extra, v.state)
  {
    UpdateView(extra, st.(search := text))
  }

  /** A search of white space only still switches to the list, which then holds
      what it would hold with no search at all. */
  lemma BlankSearchShowsUnsearchedList(extra: char -> bool, st: State, text: string)
    requires text != [] && AllSpace(text)
    ensures var v := SetSearch(extra, st, text);
      v.mode == ListView(Visible(extra, v.state.(search := "")))
  {
    BlankSearchFiltersNothing(extra, UpdateView(extra, st.(search := text)).state);
  }

  /** The favorites-only button's `click` listener (app.js:307-311). */
  function ToggleFavoritesOnly(extra: char -> bool, st: State): (v: View)
    ensures v.state.favoritesOnly != st.favoritesOnly
    ensures v.state == st.(favoritesOnly := v.state.favoritesOnly, activeCategory := v.state.activeCategory)
    ensures Synced(v.state)
    ensures !ParseRoute(st.route).Category? ==> v.state.activeCategory == st.activeCategory
    ensures v.mode.ListView? <==> v.state.favoritesOnly || ParseRoute(st.route).Category? || st.search != []
    ensures v.mode.ListView? ==> v.mode.items == Visible(extra, v.state)
  {
    UpdateView(extra, st.(favoritesOnly := !st.favoritesOnly))
  }

  /** Switching favorites-only on lists favorites only, and none when there are none. */
  lemma FavoritesOnlyListsFavorites(extra: char -> bool, st: State)
    requires !st.favoritesOnly
    ensures var v := ToggleFavoritesOnly(extra, st);
      && (forall r :: r in v.mode.items ==> r.id in st.favorites)
      && (st.favorites == {} ==> v.mode == ListView([]))
  {
    var v := ToggleFavoritesOnly(extra, st);
    if st.favorites == {} {
      NoFavoritesNoRecords(extra, v.state);
    }
  }

  /** Start-up (app.js:332-335): the view for the fragment the page was opened
      with; the address is stored with the same fragment encoding as a write to
      `location.hash`. A category link opens the list of the category its slug
      reads back as. */
  lemma StartOnCategoryLink(extra: char -> bool, prompts: seq<Record>, favorites: set<string>, slug: string)
    requires Storable(slug) && DelimiterFree(slug)
    ensures var v := UpdateView(extra, Initial(prompts, favorites, StoredHash(CategoryPrefix + slug)));
      && v.state.activeCategory == Some(FragmentEncode(slug))
      && v.mode.ListView?
      && forall r :: r in v.mode.items <==> r in prompts && Slugify(extra, r.category) == FragmentEncode(slug)
  {
    CategoryRoundTrip(slug);
  }
}
