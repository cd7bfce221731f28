/** The location fragment and the tagged route read from it (`getRoute`), the
    fragments the browser writes (`routeTo`, `openPrompt`, `closeDrawer`), and what
    `location.hash` reads back after such a write. */
module Routes {
  import opened Text
  import opened Uri
  import opened Location

  datatype Route = Home | Category(slug: string) | Prompt(id: string)

  const CategoryPrefix: string := "#/category/"
  const PromptPrefix: string := "#/prompt/"

  /** The characters that end a captured route segment: the class `[^\n#?]`. */
  predicate IsDelimiter(c: char) {
    c == '\n' || c == '#' || c == '?'
  }

  predicate DelimiterFree(s: string) {
    forall i :: 0 <= i < |s| ==> !IsDelimiter(s[i])
  }

  /** `v` is what `^<prefix>([^\n#?]+)` captures in `h`: a non-empty,
      delimiter-free block right after `prefix`, followed by the end of `h`
      or by a delimiter. */
  predicate Captures(prefix: string, h: string, v: string) {
    && v != []
    && DelimiterFree(v)
    && prefix + v <= h
    && (|h| == |prefix| + |v| || IsDelimiter(h[|prefix| + |v|]))
  }

  /** The longest delimiter-free prefix of `s`. */
  function Segment(s: string): (r: string)
    ensures r <= s && DelimiterFree(r)
    ensures |r| == |s| || IsDelimiter(s[|r|])
  {
    if s == [] || IsDelimiter(s[0]) then [] else [s[0]] + Segment(s[1..])
  }

  /** Anchored match of `^<prefix>([^\n#?]+)` against `h`, yielding the captured group. */
  function MatchRoute(prefix: string, h: string): (r: Option<string>)
    ensures r.Some? <==> prefix <= h && |h| > |prefix| && !IsDelimiter(h[|prefix|])
    ensures r.Some? ==> Captures(prefix, h, r.value)
  {
    if prefix <= h then
      var seg := Segment(h[|prefix|..]);
      assert prefix + seg <= h by {
        assert h == prefix + h[|prefix|..];
      }
      if seg == [] then None else Some(seg)
    else None
  }

  /** `getRoute` (app.js:54-61): the prompt pattern is tried first, then the category
      pattern, and anything else is the home route. The captured id is not URI-decoded. */
  function ParseRoute(h: string): (r: Route)
    ensures r.Prompt? <==> PromptPrefix <= h && |h| > |PromptPrefix| && !IsDelimiter(h[|PromptPrefix|])
    ensures r.Category? <==> CategoryPrefix <= h && |h| > |CategoryPrefix| && !IsDelimiter(h[|CategoryPrefix|])
    ensures r.Prompt? ==> Captures(PromptPrefix, h, r.id)
    ensures r.Category? ==> Captures(CategoryPrefix, h, r.slug)
  {
    var mCat := MatchRoute(CategoryPrefix, h);
    var mPr := MatchRoute(PromptPrefix, h);
    PatternsExclusive(h);
    if mPr.Some? then Prompt(mPr.value)
    else if mCat.Some? then Category(mCat.value)
    else Home
  }

  /** The two patterns never both match: their prefixes already differ at the third character. */
  lemma PatternsExclusive(h: string)
    ensures !(MatchRoute(PromptPrefix, h).Some? && MatchRoute(CategoryPrefix, h).Some?)
  {
    if PromptPrefix <= h {
      assert h[2] == PromptPrefix[2] == 'p';
    }
  }

  /** The captured block is determined by the fragment: at most one `v` satisfies `Captures`. */
  lemma {:induction false} CapturesUnique(prefix: string, h: string, v: string, w: string)
    requires Captures(prefix, h, v) && Captures(prefix, h, w)
    ensures v == w
  {
    assert |v| == |w|;
    assert forall i :: 0 <= i < |v| ==> v[i] == h[|prefix| + i] == w[i];
  }

  lemma CategoryPrefixSafe()
    ensures |CategoryPrefix| >= 2 && CategoryPrefix[0] == '#' && FragmentSafe(CategoryPrefix[1..])
  {
  }

  lemma PromptPrefixSafe()
    ensures |PromptPrefix| >= 2 && PromptPrefix[0] == '#' && FragmentSafe(PromptPrefix[1..])
  {
  }

  /** Fragment encoding keeps a delimiter-free text delimiter-free. */
  lemma EncodedDelimiterFree(x: string)
    requires DelimiterFree(x)
    ensures DelimiterFree(FragmentEncode(x))
  {
    var f := FragmentEncode(x);
    assert forall i :: 0 <= i < |f| ==> f[i] in f;
    assert forall c :: c in x ==> !IsDelimiter(c) by {
      forall c | c in x ensures !IsDelimiter(c) {
        var i :| 0 <= i < |x| && x[i] == c;
      }
    }
  }

  /** A text that holds some character other than a tab or newline. */
  predicate Storable(x: string) {
    exists i :: 0 <= i < |x| && !IsTabOrNewline(x[i])
  }

  /** The fragment the browser writes for each route: `""` for home,
      `#/category/<slug>`, and `#/prompt/<encodeURIComponent(id)>`. */
  function RouteHash(r: Route): (h: string)
    ensures h == [] <==> r.Home?
    ensures r.Category? ==> CategoryPrefix <= h && h[|CategoryPrefix|..] == r.slug
    ensures r.Prompt? ==> PromptPrefix <= h && PercentDecode(h[|PromptPrefix|..]) == Some(r.id)
    ensures r.Prompt? ==> forall c :: c in h[|PromptPrefix|..] ==> ComponentKeeps(c) || IsEscapeChar(c)
  {
    match r
    case Home => ""
    case Category(slug) =>
      var h := CategoryPrefix + slug;
      assert h[|CategoryPrefix|..] == slug;
      h
    case Prompt(id) =>
      var h := PromptPrefix + EncodeUriComponent(id);
      assert h[|PromptPrefix|..] == EncodeUriComponent(id);
      DecodeEncodeUriComponent(id);
      h
  }

  /** `#/category/<f>` parses as the category `f` for every non-empty,
      delimiter-free `f`. */
  lemma {:induction false} ParseCategory(f: string)
    requires f != [] && DelimiterFree(f)
    ensures ParseRoute(CategoryPrefix + f) == Category(f)
  {
    var h := CategoryPrefix + f;
    assert CategoryPrefix <= h && h[|CategoryPrefix|] == f[0];
    CapturesUnique(CategoryPrefix, h, ParseRoute(h).slug, f);
  }

  /** `#/prompt/<e>` parses as the prompt `e` for every non-empty, delimiter-free `e`. */
  lemma {:induction false} ParsePrompt(e: string)
    requires e != [] && DelimiterFree(e)
    ensures ParseRoute(PromptPrefix + e) == Prompt(e)
  {
    var h := PromptPrefix + e;
    assert PromptPrefix <= h && h[|PromptPrefix|] == e[0];
    CapturesUnique(PromptPrefix, h, ParseRoute(h).id, e);
  }

  /** Reading back a written category fragment gives the category under its
      fragment-encoded slug, for every delimiter-free slug with a character other
      than a tab or newline. */
  lemma {:induction false} CategoryRoundTrip(slug: string)
    requires Storable(slug) && DelimiterFree(slug)
    ensures FragmentEncode(slug) != []
    ensures StoredHash(RouteHash(Category(slug))) == CategoryPrefix + FragmentEncode(slug)
    ensures ParseRoute(StoredHash(RouteHash(Category(slug)))) == Category(FragmentEncode(slug))
  {
    CategoryPrefixSafe();
    StoredUnderPrefix(CategoryPrefix, slug);
    EncodedDelimiterFree(slug);
    FragmentEncodeEmpty(slug);
    ParseCategory(FragmentEncode(slug));
  }

  /** A slug the fragment encoding leaves alone reads back as itself. */
  lemma CategoryRoundTripSafe(slug: string)
    requires slug != [] && DelimiterFree(slug) && FragmentSafe(slug)
    ensures ParseRoute(StoredHash(RouteHash(Category(slug)))) == Category(slug)
  {
    assert !IsTabOrNewline(slug[0]);
    CategoryRoundTrip(slug);
  }

  /** A `?` or `#` in a slug ends the capture: the slug reads back cut short
      before it. */
  lemma CategoryCutAtDelimiter(a: string, d: char, b: string)
    requires a != [] && DelimiterFree(a) && FragmentSafe(a)
    requires d == '?' || d == '#'
    ensures ParseRoute(StoredHash(RouteHash(Category(a + [d] + b)))) == Category(a)
  {
    StoredCut(a, d, b);
    ParseCut(StoredHash(CategoryPrefix + (a + [d] + b)), a);
  }

  /** Below the category prefix, a safe text and a kept character are stored as
      they are. */
  lemma StoredCut(a: string, d: char, b: string)
    requires FragmentSafe(a) && FragmentKeeps(d)
    ensures CategoryPrefix + (a + [d]) <= StoredHash(CategoryPrefix + (a + [d] + b))
  {
    var p := a + [d];
    assert FragmentSafe(p) by {
      forall i | 0 <= i < |p| ensures FragmentKeeps(p[i]) {
        if i < |a| { assert p[i] == a[i]; }
      }
    }
    assert a + [d] + b == p + b;
    CategoryPrefixSafe();
    StoredUnderPrefix(CategoryPrefix, p + b);
    EncodeAfterSafe(p, b);
    PrefixOfConcat(CategoryPrefix, p, FragmentEncode(b));
  }

  /** A category fragment whose capture meets a delimiter right after `a`
      captures `a`. */
  lemma ParseCut(h: string, a: string)
    requires a != [] && DelimiterFree(a)
    requires exists d :: IsDelimiter(d) && CategoryPrefix + (a + [d]) <= h
    ensures ParseRoute(h) == Category(a)
  {
    var d :| IsDelimiter(d) && CategoryPrefix + (a + [d]) <= h;
    assert h[|CategoryPrefix|] == a[0] && h[|CategoryPrefix| + |a|] == d;
    assert CategoryPrefix + a <= h;
    CapturesUnique(CategoryPrefix, h, ParseRoute(h).slug, a);
  }

  /** The empty slug writes `#/category/`, which reads back as the home route. */
  lemma EmptySlugReadsHome()
    ensures ParseRoute(StoredHash(RouteHash(Category("")))) == Home
  {
    CategoryPrefixSafe();
    StoredUnderPrefix(CategoryPrefix, "");
    assert CategoryPrefix + "" == CategoryPrefix;
    BarePrefixIsHome();
  }

  /** The category prefix alone captures nothing, so it is the home route. */
  lemma BarePrefixIsHome()
    ensures ParseRoute(CategoryPrefix) == Home
  {
    assert CategoryPrefix[2] != PromptPrefix[2];
  }

  lemma PrefixOfConcat(p: string, q: string, r: string)
    ensures p + q <= p + (q + r)
  {
    assert p + (q + r) == (p + q) + r;
  }

  /** What `encodeURIComponent` writes is left alone by the fragment encoding and
      holds no route delimiter. */
  lemma ComponentSafe(id: string)
    ensures FragmentSafe(EncodeUriComponent(id)) && DelimiterFree(EncodeUriComponent(id))
  {
    var e := EncodeUriComponent(id);
    forall i | 0 <= i < |e|
      ensures FragmentKeeps(e[i]) && !IsDelimiter(e[i])
    {
      assert e[i] in e;
      ComponentCharSafe(e[i]);
    }
  }

  lemma ComponentCharSafe(c: char)
    requires ComponentKeeps(c) || IsEscapeChar(c)
    ensures FragmentKeeps(c) && !IsDelimiter(c)
  {
  }

  /** Reading back a written prompt fragment gives the ENCODED id: the parser does
      not decode. The empty id writes `#/prompt/`, which reads as the home route. */
  lemma {:induction false} PromptRoundTrip(id: string)
    ensures StoredHash(RouteHash(Prompt(id))) == RouteHash(Prompt(id))
    ensures id != [] ==> ParseRoute(StoredHash(RouteHash(Prompt(id)))) == Prompt(EncodeUriComponent(id))
    ensures id == [] ==> ParseRoute(StoredHash(RouteHash(Prompt(id)))) == Home
  {
    var e := EncodeUriComponent(id);
    ComponentSafe(id);
    PromptPrefixSafe();
    StoredUnderPrefix(PromptPrefix, e);
    if id != [] {
      ParsePrompt(e);
    } else {
      assert PromptPrefix + e == PromptPrefix;
    }
  }

  /** A written category fragment never reads back as a prompt route. */
  lemma CategoryHashNotPrompt(slug: string)
    ensures !ParseRoute(StoredHash(RouteHash(Category(slug)))).Prompt?
  {
    CategoryPrefixSafe();
    StoredUnderPrefix(CategoryPrefix, slug);
    UnderCategoryNotPrompt(FragmentEncode(slug));
  }

  lemma UnderCategoryNotPrompt(e: string)
    ensures !ParseRoute(CategoryPrefix + e).Prompt?
  {
    var h := CategoryPrefix + e;
    assert h[2] == CategoryPrefix[2] != PromptPrefix[2];
  }

  /** The slug captured from a value `location.hash` can read is text the fragment
      encoding leaves alone. */
  lemma ReadSlugSafe(h: string)
    requires StoredHash(h) == h && ParseRoute(h).Category?
    ensures FragmentSafe(ParseRoute(h).slug)
  {
    StoredHashFixed(h);
    SafeAfterPrefix(h, ParseRoute(h).slug);
  }

  lemma SafeAfterPrefix(h: string, slug: string)
    requires |h| >= 1 && FragmentSafe(h[1..]) && CategoryPrefix + slug <= h
    ensures FragmentSafe(slug)
  {
    var k := |CategoryPrefix|;
    forall i | 0 <= i < |slug|
      ensures FragmentKeeps(slug[i])
    {
      assert slug[i] == (CategoryPrefix + slug)[k + i] == h[k + i] == h[1..][k - 1 + i];
    }
  }

  /** The empty fragment is the home route. */
  lemma HomeRoundTrip()
    ensures StoredHash(RouteHash(Home)) == ""
    ensures ParseRoute(StoredHash(RouteHash(Home))) == Home
  {
  }

  /** A captured value that `decodeURIComponent` accepts is decoded; a malformed
      one is kept as it is. */
  function DecodeCapture(v: string): (d: string)
    ensures PercentDecode(v).Some? ==> d == PercentDecode(v).value
    ensures PercentDecode(v).None? ==> d == v
  {
    match PercentDecode(v)
    case Some(t) => t
    case None => v
  }

  /** `getRoute` as evidently intended: the same patterns, with the captured slug
      or id URI-decoded. */
  function ParseRouteDecoded(h: string): (r: Route)
    ensures r.Home? <==> ParseRoute(h).Home?
    ensures r.Category? ==> ParseRoute(h).Category? && r.slug == DecodeCapture(ParseRoute(h).slug)
    ensures r.Prompt? ==> ParseRoute(h).Prompt? && r.id == DecodeCapture(ParseRoute(h).id)
  {
    match ParseRoute(h)
    case Home => Home
    case Category(slug) => Category(DecodeCapture(slug))
    case Prompt(id) => Prompt(DecodeCapture(id))
  }

  /** With decoding, every written route reads back as itself: a category slug
      with no `%` and no tab or newline, and every non-empty prompt id. */
  lemma DecodedRoundTrip(r: Route)
    requires r.Category? ==> r.slug != [] && DelimiterFree(r.slug) &&
                             forall i :: 0 <= i < |r.slug| ==> r.slug[i] != '%' && !IsTabOrNewline(r.slug[i])
    requires r.Prompt? ==> r.id != []
    ensures ParseRouteDecoded(StoredHash(RouteHash(r))) == r
  {
    match r
    case Home =>
    case Category(slug) =>
      assert !IsTabOrNewline(slug[0]);
      CategoryRoundTrip(slug);
      DecodeFragment(slug);
    case Prompt(id) =>
      PromptRoundTrip(id);
      DecodeEncodeUriComponent(id);
  }
}
