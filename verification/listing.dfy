/** The record list of `renderList` (app.js:128-143): three filters applied one
    after the other to the catalog, keeping catalog order. */
module Listing {
  import opened Text
  import opened Slug
  import opened Catalog
  import opened AppState

  /** `state.search.trim().toLowerCase()`. */
  function Query(search: string): (q: string)
    ensures q == [] <==> AllSpace(search)
  {
    Lower(Trim(search))
  }

  /** The texts a search looks at: title, description, category, then the tags. */
  function SearchFields(r: Record): seq<string> {
    [r.title, r.description, r.category] + r.tags
  }

  /** The search test of app.js:137-142: the lower-cased title, description,
      category or one of the tags contains the query. The query matches exactly
      when it occurs, at some position, in the lower-cased form of one of the
      searched texts. */
  predicate MatchesQuery(r: Record, q: string): (b: bool)
    ensures b <==> exists k :: 0 <= k < |SearchFields(r)| && exists i :: OccursAt(Lower(SearchFields(r)[k]), q, i)
  {
    FieldsContainsAt(r, q);
    || Contains(Lower(r.title), q)
    || Contains(Lower(r.description), q)
    || Contains(Lower(r.category), q)
    || exists i :: 0 <= i < |r.tags| && Contains(Lower(r.tags[i]), q)
  }

  /** The chain of `includes` tests over the fields agrees with "occurs in one of
      the searched texts". */
  lemma FieldsContainsAt(r: Record, q: string)
    ensures (|| Contains(Lower(r.title), q)
             || Contains(Lower(r.description), q)
             || Contains(Lower(r.category), q)
             || exists i :: 0 <= i < |r.tags| && Contains(Lower(r.tags[i]), q))
      <==> exists k :: 0 <= k < |SearchFields(r)| && exists i :: OccursAt(Lower(SearchFields(r)[k]), q, i)
  {
    var f := SearchFields(r);
    forall k | 0 <= k < |f|
      ensures Contains(Lower(f[k]), q) <==> exists i :: OccursAt(Lower(f[k]), q, i)
    {
      ContainsAt(Lower(f[k]), q);
    }
    assert f[0] == r.title && f[1] == r.description && f[2] == r.category;
    assert forall i :: 0 <= i < |r.tags| ==> f[i + 3] == r.tags[i];
    if exists k :: 0 <= k < |f| && exists i :: OccursAt(Lower(f[k]), q, i) {
      var k :| 0 <= k < |f| && exists i :: OccursAt(Lower(f[k]), q, i);
      if k >= 3 {
        assert f[k] == r.tags[k - 3];
      }
    }
  }

  predicate FavoriteTest(st: State, r: Record) {
    st.favoritesOnly ==> r.id in st.favorites
  }

  predicate CategoryTest(extra: char -> bool, st: State, r: Record) {
    HasCategory(st) ==> Slugify(extra, r.category) == st.activeCategory.value
  }

  predicate SearchTest(q: string, r: Record) {
    q != [] ==> MatchesQuery(r, q)
  }

  /** The stages a record must pass, each only when it is switched on. */
  predicate Passes(extra: char -> bool, st: State, r: Record) {
    FavoriteTest(st, r) && CategoryTest(extra, st, r) && SearchTest(Query(st.search), r)
  }

  /** Stage one: with favorites-only on, keep the favorite records. */
  function ByFavorite(st: State, s: seq<Record>): (r: seq<Record>)
    ensures forall x :: x in r <==> x in s && FavoriteTest(st, x)
    ensures r == Filter((x: Record) => FavoriteTest(st, x), s)
  {
    if st.favoritesOnly then
      FilterSame((x: Record) => x.id in st.favorites, (x: Record) => FavoriteTest(st, x), s);
      Filter((x: Record) => x.id in st.favorites, s)
    else s
  }

  /** Stage two: with a category selected, keep the records whose category slugifies to it. */
  function ByCategory(extra: char -> bool, st: State, s: seq<Record>): (r: seq<Record>)
    ensures forall x :: x in r <==> x in s && CategoryTest(extra, st, x)
    ensures r == Filter((x: Record) => CategoryTest(extra, st, x), s)
  {
    if HasCategory(st) then
      var slug := st.activeCategory.value;
      FilterSame((x: Record) => Slugify(extra, x.category) == slug, (x: Record) => CategoryTest(extra, st, x), s);
      Filter((x: Record) => Slugify(extra, x.category) == slug, s)
    else s
  }

  /** Stage three: with a non-blank query, keep the records matching it. */
  function BySearch(q: string, s: seq<Record>): (r: seq<Record>)
    ensures r == Filter((x: Record) => SearchTest(q, x), s)
  {
    if q != [] then
      FilterSame((x: Record) => MatchesQuery(x, q), (x: Record) => SearchTest(q, x), s);
      Filter((x: Record) => MatchesQuery(x, q), s)
    else s
  }

  /** The list as `renderList` builds it: favorites first, then the category, then
      the search, each stage narrowing the previous one. */
  function Visible(extra: char -> bool, st: State): (items: seq<Record>)
    ensures forall r :: r in items <==> r in st.prompts && Passes(extra, st, r)
  {
    BySearch(Query(st.search), ByCategory(extra, st, ByFavorite(st, st.prompts)))
  }

  /** Filters by tests that agree on every element give the same result. */
  lemma {:induction false} FilterSame<T(!new)>(p: T -> bool, q: T -> bool, s: seq<T>)
    requires forall x :: p(x) == q(x)
    ensures Filter(p, s) == Filter(q, s)
  {
    if s != [] {
      FilterSame(p, q, s[1..]);
    }
  }

  /** The three stages amount to one filter by `Passes`. */
  lemma VisibleIsOneFilter(extra: char -> bool, st: State)
    ensures Visible(extra, st) == Filter((r: Record) => Passes(extra, st, r), st.prompts)
  {
    var fav := (r: Record) => FavoriteTest(st, r);
    var cat := (r: Record) => CategoryTest(extra, st, r);
    var srch := (r: Record) => SearchTest(Query(st.search), r);
    var favCat := (r: Record) => FavoriteTest(st, r) && CategoryTest(extra, st, r);
    var all := (r: Record) => Passes(extra, st, r);
    FilterFilter(fav, cat, favCat, st.prompts);
    FilterFilter(favCat, srch, all, st.prompts);
  }

  /** The list keeps the catalog's order: it is a subsequence of the records. */
  lemma VisibleInCatalogOrder(extra: char -> bool, st: State)
    ensures IsSubseq(Visible(extra, st), st.prompts)
  {
    VisibleIsOneFilter(extra, st);
    FilterIsSubseq((r: Record) => Passes(extra, st, r), st.prompts);
  }

  /** Adding a search text only narrows the list: with any search the list is a
      subsequence of the list without one. */
  lemma SearchNarrows(extra: char -> bool, st: State, text: string)
    ensures IsSubseq(Visible(extra, st.(search := text)), Visible(extra, st.(search := "")))
  {
    var withText := st.(search := text);
    var without := st.(search := "");
    assert Query("") == [];
    var base := ByCategory(extra, st, ByFavorite(st, st.prompts));
    assert ByCategory(extra, withText, ByFavorite(withText, st.prompts)) == base;
    assert ByCategory(extra, without, ByFavorite(without, st.prompts)) == base;
    assert BySearch(Query(""), base) == base;
    FilterIsSubseq((x: Record) => SearchTest(Query(text), x), base);
  }

  /** A search of white space only filters nothing. */
  lemma BlankSearchFiltersNothing(extra: char -> bool, st: State)
    requires AllSpace(st.search)
    ensures Visible(extra, st) == Visible(extra, st.(search := ""))
  {
    assert Query("") == [];
  }

  /** With favorites-only on and no favorites the list is empty. */
  lemma NoFavoritesNoRecords(extra: char -> bool, st: State)
    requires st.favoritesOnly && st.favorites == {}
    ensures Visible(extra, st) == []
  {
    assert ByFavorite(st, st.prompts) == [];
  }

  /** Lower-casing the search text does not change the query. */
  lemma QueryLower(search: string)
    ensures Query(Lower(search)) == Query(search)
  {
    TrimLower(search);
    LowerIdempotent(Trim(search));
  }

  /** The search is case-insensitive: lower-casing the search text leaves the list unchanged. */
  lemma SearchIgnoresCase(extra: char -> bool, st: State)
    ensures Visible(extra, st.(search := Lower(st.search))) == Visible(extra, st)
  {
    QueryLower(st.search);
    var lowered := st.(search := Lower(st.search));
    var base := ByCategory(extra, st, ByFavorite(st, st.prompts));
    assert ByCategory(extra, lowered, ByFavorite(lowered, st.prompts)) == base;
  }

  /** The query for `email` is `email` itself. */
  lemma QueryEmail()
    ensures Query("email") == "email"
  {
    var s := "email";
    assert !IsSpace(s[0]) && !IsSpace(s[|s| - 1]);
    assert TrimStart(s) == s;
    assert TrimEnd(s) == s;
    assert forall i :: 0 <= i < |s| ==> !IsUpper(s[i]);
  }

  /** `Email-рассылка`, lower-cased, starts with `email`. */
  lemma EmailInTag()
    ensures Contains(Lower("Email-рассылка"), "email")
  {
    var t := Lower("Email-рассылка");
    assert t[0] == 'e' && t[1] == 'm' && t[2] == 'a' && t[3] == 'i' && t[4] == 'l';
    assert t[..5] == "email";
  }

  /** A search for `email` finds a record through its tag `Email-рассылка`: the
      match ignores case and may hit a tag alone. */
  lemma TagMatchExample(extra: char -> bool)
    ensures var r := Record("r1", "Письмо", "Текст", "Маркетинг", ["Email-рассылка"]);
      var st := Initial([r], {}, "").(search := "email");
      Visible(extra, st) == [r]
  {
    var r := Record("r1", "Письмо", "Текст", "Маркетинг", ["Email-рассылка"]);
    var st := Initial([r], {}, "").(search := "email");
    QueryEmail();
    EmailInTag();
    assert r.tags[0] == "Email-рассылка";
    assert MatchesQuery(r, "email");
    assert ByCategory(extra, st, ByFavorite(st, st.prompts)) == [r];
  }
}
