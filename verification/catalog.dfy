/** The prompt records loaded from the catalog and the categories derived from
    them at start-up (`loadData`, app.js:27-40). */
module Catalog {
  import opened Text
  import opened Slug

  /** One prompt record. Missing `tags` are the empty sequence. */
  datatype Record = Record(id: string, title: string, description: string, category: string, tags: seq<string>)

  /** One derived category: its raw name as key and display name, its slug, and how
      many records carry it. */
  datatype CategoryInfo = CategoryInfo(key: string, slug: string, name: string, count: nat)

  /** `prompts.find(x => x.id === id)`: the first record with that id, if any. */
  function FindRecord(prompts: seq<Record>, id: string): (r: Option<Record>)
    ensures r.Some? ==> r.value in prompts && r.value.id == id
    ensures r.None? <==> forall i :: 0 <= i < |prompts| ==> prompts[i].id != id
    ensures r.Some? ==> exists i :: 0 <= i < |prompts| && prompts[i] == r.value &&
                                    forall j :: 0 <= j < i ==> prompts[j].id != id
  {
    if prompts == [] then None
    else if prompts[0].id == id then Some(prompts[0])
    else
      var r := FindRecord(prompts[1..], id);
      assert r.Some? ==> exists i :: 0 < i < |prompts| && prompts[i] == r.value &&
                                     forall j :: 0 <= j < i ==> prompts[j].id != id by {
        if r.Some? {
          var k :| 0 <= k < |prompts| - 1 && prompts[1..][k] == r.value &&
                   forall j :: 0 <= j < k ==> prompts[1..][j].id != id;
          FirstAfterHead(prompts, id, k);
        }
      }
      r
  }

  /** A first match in the tail, after a head that does not match, is a first
      match of the whole sequence one position later. */
  lemma FirstAfterHead(prompts: seq<Record>, id: string, k: nat)
    requires prompts != [] && prompts[0].id != id && k < |prompts| - 1
    requires forall j :: 0 <= j < k ==> prompts[1..][j].id != id
    ensures prompts[k + 1] == prompts[1..][k]
    ensures forall j :: 0 <= j < k + 1 ==> prompts[j].id != id
  {
    assert forall j :: 0 < j < k + 1 ==> prompts[j] == prompts[1..][j - 1];
  }

  /** The number of records whose category is `key`. */
  function CountIn(prompts: seq<Record>, key: string): nat
  {
    if prompts == [] then 0
    else CountIn(prompts[..|prompts| - 1], key) + (if prompts[|prompts| - 1].category == key then 1 else 0)
  }

  function SumCounts(cats: seq<CategoryInfo>): nat
  {
    if cats == [] then 0 else SumCounts(cats[..|cats| - 1]) + cats[|cats| - 1].count
  }

  lemma {:induction false} SumCountsAppend(cats: seq<CategoryInfo>, c: CategoryInfo)
    ensures SumCounts(cats + [c]) == SumCounts(cats) + c.count
  {
    assert (cats + [c])[..|cats|] == cats;
  }

  lemma {:induction false} SumCountsBump(cats: seq<CategoryInfo>, j: nat)
    requires j < |cats|
    ensures SumCounts(Bump(cats, j)) == SumCounts(cats) + 1
    decreases |cats|
  {
    var bumped := cats[j := cats[j].(count := cats[j].count + 1)];
    var n := |cats| - 1;
    if j == n {
      assert bumped[..n] == cats[..n];
    } else {
      SumCountsBump(cats[..n], j);
      assert bumped[..n] == cats[..n][j := cats[j].(count := cats[j].count + 1)];
    }
  }

  /** The keys of the derived categories. */
  function Keys(cats: seq<CategoryInfo>): set<string> {
    set i | 0 <= i < |cats| :: cats[i].key
  }

  /** The distinct category names the records carry. */
  function CategoryNames(prompts: seq<Record>): set<string> {
    set i | 0 <= i < |prompts| :: prompts[i].category
  }

  /** Position of the entry with key `key`, or `|cats|` when there is none
      (`catMap.get(key)`). */
  function IndexOfKey(cats: seq<CategoryInfo>, key: string): (j: nat)
    ensures j <= |cats|
    ensures j < |cats| ==> cats[j].key == key
    ensures j == |cats| ==> key !in Keys(cats)
  {
    if cats == [] then 0
    else if cats[|cats| - 1].key == key then |cats| - 1
    else
      var j := IndexOfKey(cats[..|cats| - 1], key);
      assert Keys(cats) == Keys(cats[..|cats| - 1]) + {cats[|cats| - 1].key};
      if j == |cats| - 1 then |cats| else j
  }

  /** One entry per distinct category name of `ps`. */
  predicate KeysMatch(cats: seq<CategoryInfo>, ps: seq<Record>) {
    && Keys(cats) == CategoryNames(ps)
    && (forall i, j :: 0 <= i < j < |cats| ==> cats[i].key != cats[j].key)
  }

  /** Every entry carries its slug, its name and its record count. */
  predicate EntriesMatch(extra: char -> bool, cats: seq<CategoryInfo>, ps: seq<Record>) {
    forall i :: 0 <= i < |cats| ==>
      && cats[i].slug == Slugify(extra, cats[i].key)
      && cats[i].name == cats[i].key
      && cats[i].count == CountIn(ps, cats[i].key)
      && cats[i].count >= 1
  }

  /** `cats` is a faithful tally of `ps`: one entry per distinct category, each
      with its slug, its name and the number of records carrying it, the counts
      adding up to the number of records. */
  predicate Summarises(extra: char -> bool, cats: seq<CategoryInfo>, ps: seq<Record>) {
    KeysMatch(cats, ps) && EntriesMatch(extra, cats, ps) && SumCounts(cats) == |ps|
  }

  /** One iteration of the loop at app.js:33-37: bump the entry for `key`, or append
      a fresh entry with count 1. */
  function Tally(extra: char -> bool, cats: seq<CategoryInfo>, key: string): seq<CategoryInfo> {
    var j := IndexOfKey(cats, key);
    if j < |cats| then Bump(cats, j)
    else cats + [Fresh(extra, key)]
  }

  function Bump(cats: seq<CategoryInfo>, j: nat): seq<CategoryInfo>
    requires j < |cats|
  {
    cats[j := cats[j].(count := cats[j].count + 1)]
  }

  function Fresh(extra: char -> bool, key: string): CategoryInfo {
    CategoryInfo(key, Slugify(extra, key), key, 1)
  }

  lemma CountInSnoc(ps: seq<Record>, p: Record, key: string)
    ensures CountIn(ps + [p], key) == CountIn(ps, key) + (if p.category == key then 1 else 0)
  {
    assert (ps + [p])[..|ps|] == ps;
  }

  lemma CategoryNamesSnoc(ps: seq<Record>, p: Record)
    ensures CategoryNames(ps + [p]) == CategoryNames(ps) + {p.category}
  {
    var ps' := ps + [p];
    assert ps'[|ps|] == p;
    assert forall i :: 0 <= i < |ps| ==> ps'[i] == ps[i];
  }

  /** Tallying one more record keeps the tally faithful. */
  lemma TallyStep(extra: char -> bool, cats: seq<CategoryInfo>, ps: seq<Record>, p: Record)
    requires Summarises(extra, cats, ps)
    ensures Summarises(extra, Tally(extra, cats, p.category), ps + [p])
  {
    var j := IndexOfKey(cats, p.category);
    if j < |cats| {
      BumpKeys(cats, ps, p, j);
      BumpEntries(extra, cats, ps, p, j);
      SumCountsBump(cats, j);
    } else {
      AppendKeys(cats, ps, p, Fresh(extra, p.category));
      AppendEntries(extra, cats, ps, p);
      SumCountsAppend(cats, Fresh(extra, p.category));
    }
  }

  lemma BumpKeys(cats: seq<CategoryInfo>, ps: seq<Record>, p: Record, j: nat)
    requires KeysMatch(cats, ps)
    requires j < |cats| && cats[j].key == p.category
    ensures KeysMatch(Bump(cats, j), ps + [p])
  {
    CategoryNamesSnoc(ps, p);
    var cats' := Bump(cats, j);
    assert forall i :: 0 <= i < |cats| ==> cats'[i].key == cats[i].key;
    assert Keys(cats') == Keys(cats);
  }

  lemma BumpEntries(extra: char -> bool, cats: seq<CategoryInfo>, ps: seq<Record>, p: Record, j: nat)
    requires EntriesMatch(extra, cats, ps)
    requires forall i, k :: 0 <= i < k < |cats| ==> cats[i].key != cats[k].key
    requires j < |cats| && cats[j].key == p.category
    ensures EntriesMatch(extra, Bump(cats, j), ps + [p])
  {
    var cats' := Bump(cats, j);
    forall i | 0 <= i < |cats'|
      ensures && cats'[i].slug == Slugify(extra, cats'[i].key)
              && cats'[i].name == cats'[i].key
              && cats'[i].count == CountIn(ps + [p], cats'[i].key)
              && cats'[i].count >= 1
    {
      CountInSnoc(ps, p, cats[i].key);
      if i == j {
        assert cats'[i] == cats[j].(count := cats[j].count + 1);
      } else {
        assert cats'[i] == cats[i];
        assert cats[i].key != p.category;
      }
    }
  }

  lemma KeysSnoc(cats: seq<CategoryInfo>, c: CategoryInfo)
    ensures Keys(cats + [c]) == Keys(cats) + {c.key}
  {
    var cats' := cats + [c];
    assert cats'[|cats|] == c;
    assert forall i :: 0 <= i < |cats| ==> cats'[i] == cats[i];
  }

  lemma AppendKeys(cats: seq<CategoryInfo>, ps: seq<Record>, p: Record, c: CategoryInfo)
    requires KeysMatch(cats, ps)
    requires c.key == p.category && p.category !in Keys(cats)
    ensures KeysMatch(cats + [c], ps + [p])
  {
    CategoryNamesSnoc(ps, p);
    KeysSnoc(cats, c);
    var cats' := cats + [c];
    assert forall i :: 0 <= i < |cats| ==> cats'[i] == cats[i] && cats[i].key in Keys(cats);
  }

  lemma AppendEntries(extra: char -> bool, cats: seq<CategoryInfo>, ps: seq<Record>, p: Record)
    requires EntriesMatch(extra, cats, ps)
    requires p.category !in CategoryNames(ps)
    requires forall i :: 0 <= i < |cats| ==> cats[i].key != p.category
    ensures EntriesMatch(extra, cats + [Fresh(extra, p.category)], ps + [p])
  {
    var c := Fresh(extra, p.category);
    var cats' := cats + [c];
    CountInAbsent(ps, p.category);
    forall i | 0 <= i < |cats'|
      ensures && cats'[i].slug == Slugify(extra, cats'[i].key)
              && cats'[i].name == cats'[i].key
              && cats'[i].count == CountIn(ps + [p], cats'[i].key)
              && cats'[i].count >= 1
    {
      if i < |cats| {
        assert cats'[i] == cats[i];
        CountInSnoc(ps, p, cats[i].key);
      } else {
        assert cats'[i] == c;
        CountInSnoc(ps, p, p.category);
      }
    }
  }

  /** A category no record carries has count 0. */
  lemma {:induction false} CountInAbsent(ps: seq<Record>, key: string)
    requires key !in CategoryNames(ps)
    ensures CountIn(ps, key) == 0
  {
    if ps != [] {
      var init := ps[..|ps| - 1];
      assert CategoryNames(init) <= CategoryNames(ps) by {
        assert forall i :: 0 <= i < |init| ==> init[i] == ps[i];
      }
      CountInAbsent(init, key);
    }
  }

  /** `TallyStep` for the last record of a non-empty sequence. */
  lemma TallyLast(extra: char -> bool, cats: seq<CategoryInfo>, ps: seq<Record>)
    requires ps != []
    requires Summarises(extra, cats, ps[..|ps| - 1])
    ensures Summarises(extra, Tally(extra, cats, ps[|ps| - 1].category), ps)
  {
    var init, last := ps[..|ps| - 1], ps[|ps| - 1];
    TallyStep(extra, cats, init, last);
    assert ps == init + [last];
  }

  /** The loop at app.js:33-37 run over `prompts`, one `Tally` per record. */
  function TallyAll(extra: char -> bool, prompts: seq<Record>): (cats: seq<CategoryInfo>)
    ensures Summarises(extra, cats, prompts)
    decreases |prompts|
  {
    if prompts == [] then []
    else
      var seen := prompts[..|prompts| - 1];
      var p := prompts[|prompts| - 1];
      var before := TallyAll(extra, seen);
      TallyLast(extra, before, prompts);
      Tally(extra, before, p.category)
  }

  /** The category derivation of `loadData` (app.js:32-38): one entry per distinct
      `category` value, keyed by that value, named after it, with its slug, counting
      the records that carry it. The counts add up to the number of records. */
  function DeriveCategories(extra: char -> bool, prompts: seq<Record>): (cats: seq<CategoryInfo>)
    ensures Keys(cats) == CategoryNames(prompts)
    ensures forall i, j :: 0 <= i < j < |cats| ==> cats[i].key != cats[j].key
    ensures forall i :: 0 <= i < |cats| ==>
              && cats[i].slug == Slugify(extra, cats[i].key)
              && cats[i].name == cats[i].key
              && cats[i].count == CountIn(prompts, cats[i].key)
              && cats[i].count >= 1
    ensures SumCounts(cats) == |prompts|
  {
    TallyAll(extra, prompts)
  }
}
