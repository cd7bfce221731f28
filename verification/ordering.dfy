/** The ordering of the derived categories by display name (app.js:39). The
    locale collation is a parameter: any total preorder on names. */
module Ordering {
  import opened Slug
  import opened Catalog

  /** `le` compares names like a collation: every two names are comparable and
      the comparison is transitive. */
  ghost predicate TotalPreorder(le: (string, string) -> bool) {
    && (forall a, b :: le(a, b) || le(b, a))
    && (forall a, b, c :: le(a, b) && le(b, c) ==> le(a, c))
  }

  predicate SortedByName(le: (string, string) -> bool, cats: seq<CategoryInfo>) {
    forall i, j :: 0 <= i < j < |cats| ==> le(cats[i].name, cats[j].name)
  }

  /** Insert `c` before the first entry it does not follow. */
  function Insert(le: (string, string) -> bool, c: CategoryInfo, cats: seq<CategoryInfo>): (r: seq<CategoryInfo>)
    requires TotalPreorder(le)
    requires SortedByName(le, cats)
    ensures multiset(r) == multiset(cats) + multiset{c}
    ensures SortedByName(le, r)
  {
    if cats == [] then [c]
    else if le(c.name, cats[0].name) then
      PrependSorted(le, c, cats);
      [c] + cats
    else
      var rest := Insert(le, c, cats[1..]);
      InsertedAfterHead(le, c, cats, rest);
      PrependSorted(le, cats[0], rest);
      assert cats == [cats[0]] + cats[1..];
      [cats[0]] + rest
  }

  /** An entry that precedes every entry of a sorted sequence can be put in front of it. */
  lemma PrependSorted(le: (string, string) -> bool, x: CategoryInfo, s: seq<CategoryInfo>)
    requires TotalPreorder(le) && SortedByName(le, s)
    requires s != [] ==> le(x.name, s[0].name)
    ensures SortedByName(le, [x] + s)
  {
    var r := [x] + s;
    forall i, j | 0 <= i < j < |r| ensures le(r[i].name, r[j].name) {
      if i == 0 && j > 1 {
        assert r[1] == s[0] && r[j] == s[j - 1];
      }
    }
  }

  /** The head of a sorted sequence precedes everything of its tail with `c` inserted,
      when `c` does not precede the head. */
  lemma InsertedAfterHead(le: (string, string) -> bool, c: CategoryInfo, cats: seq<CategoryInfo>, rest: seq<CategoryInfo>)
    requires TotalPreorder(le) && SortedByName(le, cats)
    requires cats != [] && !le(c.name, cats[0].name)
    requires multiset(rest) == multiset(cats[1..]) + multiset{c}
    ensures rest != [] ==> le(cats[0].name, rest[0].name)
  {
    if rest != [] {
      assert rest[0] in multiset(rest);
      if rest[0] != c {
        assert rest[0] in multiset(cats[1..]);
        var k :| 0 <= k < |cats[1..]| && cats[1..][k] == rest[0];
        assert cats[k + 1] == rest[0];
      }
    }
  }

  /** `Array.prototype.sort` with the name comparison: the same entries, in
      non-decreasing name order. */
  function SortByName(le: (string, string) -> bool, cats: seq<CategoryInfo>): (r: seq<CategoryInfo>)
    requires TotalPreorder(le)
    ensures multiset(r) == multiset(cats)
    ensures SortedByName(le, r)
  {
    if cats == [] then []
    else
      assert cats == [cats[0]] + cats[1..];
      Insert(le, cats[0], SortByName(le, cats[1..]))
  }

  /** Sorting keeps exactly the entries it was given. */
  lemma SortKeepsEntries(le: (string, string) -> bool, cats: seq<CategoryInfo>)
    requires TotalPreorder(le)
    ensures forall c :: c in SortByName(le, cats) <==> c in cats
    ensures |SortByName(le, cats)| == |cats|
  {
    var r := SortByName(le, cats);
    assert forall c :: c in r <==> c in multiset(r);
    assert forall c :: c in cats <==> c in multiset(cats);
    assert |r| == |multiset(r)| == |multiset(cats)| == |cats|;
  }

  /** `loadData`'s category list (app.js:32-39): the derived entries sorted by
      name. Every entry keeps its slug, name and count, every category name of the
      records has an entry, and the list is in name order. */
  method LoadCategories(extra: char -> bool, le: (string, string) -> bool, prompts: seq<Record>)
    returns (cats: seq<CategoryInfo>)
    requires TotalPreorder(le)
    ensures SortedByName(le, cats)
    ensures forall c :: c in cats ==>
              && c.slug == Slugify(extra, c.key)
              && c.name == c.key
              && c.count == CountIn(prompts, c.key)
              && c.count >= 1
    ensures forall k :: k in CategoryNames(prompts) <==> exists c :: c in cats && c.key == k
  {
    var derived := DeriveCategories(extra, prompts);
    cats := SortByName(le, derived);
    SortKeepsEntries(le, derived);
    DerivedEntries(extra, prompts);
  }

  /** The derived entries, stated by membership rather than by position. */
  lemma DerivedEntries(extra: char -> bool, prompts: seq<Record>)
    ensures var derived := DeriveCategories(extra, prompts);
      && (forall c :: c in derived ==>
            && c.slug == Slugify(extra, c.key)
            && c.name == c.key
            && c.count == CountIn(prompts, c.key)
            && c.count >= 1)
      && (forall k :: k in CategoryNames(prompts) <==> exists c :: c in derived && c.key == k)
  {
    EntriesByMembership(extra, prompts);
    NamesHaveEntries(extra, prompts);
    EntriesHaveNames(extra, prompts);
  }

  lemma EntriesByMembership(extra: char -> bool, prompts: seq<Record>)
    ensures var derived := DeriveCategories(extra, prompts);
      forall c :: c in derived ==>
        && c.slug == Slugify(extra, c.key)
        && c.name == c.key
        && c.count == CountIn(prompts, c.key)
        && c.count >= 1
  {
    var derived := DeriveCategories(extra, prompts);
    forall c | c in derived
      ensures && c.slug == Slugify(extra, c.key)
              && c.name == c.key
              && c.count == CountIn(prompts, c.key)
              && c.count >= 1
    {
      EntryOfMember(extra, prompts, c);
    }
  }

  lemma EntryOfMember(extra: char -> bool, prompts: seq<Record>, c: CategoryInfo)
    requires c in DeriveCategories(extra, prompts)
    ensures && c.slug == Slugify(extra, c.key)
            && c.name == c.key
            && c.count == CountIn(prompts, c.key)
            && c.count >= 1
  {
    var derived := DeriveCategories(extra, prompts);
    var i :| 0 <= i < |derived| && derived[i] == c;
  }

  lemma NamesHaveEntries(extra: char -> bool, prompts: seq<Record>)
    ensures var derived := DeriveCategories(extra, prompts);
      forall k :: k in CategoryNames(prompts) ==> exists c :: c in derived && c.key == k
  {
    var derived := DeriveCategories(extra, prompts);
    forall k | k in CategoryNames(prompts) ensures exists c :: c in derived && c.key == k {
      assert k in Keys(derived);
      var i :| 0 <= i < |derived| && derived[i].key == k;
      assert derived[i] in derived;
    }
  }

  lemma KeyOfMember(cats: seq<CategoryInfo>, c: CategoryInfo)
    requires c in cats
    ensures c.key in Keys(cats)
  {
    var i :| 0 <= i < |cats| && cats[i] == c;
    assert cats[i].key in Keys(cats);
  }

  lemma EntriesHaveNames(extra: char -> bool, prompts: seq<Record>)
    ensures var derived := DeriveCategories(extra, prompts);
      forall k :: (exists c :: c in derived && c.key == k) ==> k in CategoryNames(prompts)
  {
    var derived := DeriveCategories(extra, prompts);
    forall k | exists c :: c in derived && c.key == k ensures k in CategoryNames(prompts) {
      var c :| c in derived && c.key == k;
      KeyOfMember(derived, c);
    }
  }
}
