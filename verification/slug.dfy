/** Category keys: the slug a category's display name is turned into
    (`slugify`, app.js), and the facts the rest of the browser relies on. */
module Slug {
  import opened Text

  predicate IsHyphen(c: char) {
    c == '-'
  }

  /** No two hyphens stand next to each other. */
  predicate NoDoubleHyphen(s: string) {
    forall i :: 0 <= i < |s| - 1 ==> !(s[i] == '-' && s[i + 1] == '-')
  }

  /** The global replacement `.replace(/P+/g, "-")`: every maximal run of characters
      satisfying `p` becomes one hyphen. `inRun` says whether the character just
      before `s` already belonged to a run (and was turned into a hyphen). */
  function SquashRuns(p: char -> bool, s: string, inRun: bool): string
    decreases |s|
  {
    if s == [] then []
    else if p(s[0]) then
      if inRun then SquashRuns(p, s[1..], true) else "-" + SquashRuns(p, s[1..], true)
    else [s[0]] + SquashRuns(p, s[1..], false)
  }

  /** What the squash keeps and adds: only hyphens are added and only run characters
      are removed; text without a run character is unchanged; a run outside a run
      leaves a hyphen; the result is empty only for empty text. */
  lemma {:induction false} SquashRunsFacts(p: char -> bool, s: string, inRun: bool)
    ensures var r := SquashRuns(p, s, inRun);
      && (forall c :: c in r ==> c == '-' || (c in s && !p(c)))
      && ((forall i :: 0 <= i < |s| ==> !p(s[i])) ==> r == s)
      && ((exists i :: 0 <= i < |s| && p(s[i])) && !inRun ==> '-' in r)
      && (!inRun ==> (r == [] <==> s == []))
      && ('-' in r ==> exists i :: 0 <= i < |s| && (p(s[i]) || s[i] == '-'))
    decreases |s|
  {
    if s != [] {
      var r := SquashRuns(p, s, inRun);
      var tail := s[1..];
      assert forall i :: 0 < i < |s| ==> s[i] == tail[i - 1];
      if p(s[0]) {
        SquashRunsFacts(p, tail, true);
        if !inRun {
          assert r[0] == '-';
        }
      } else {
        SquashRunsFacts(p, tail, false);
        assert s == [s[0]] + tail;
        assert r[0] == s[0];
      }
    }
  }

  predicate NotHyphen(c: char) {
    c != '-'
  }

  /** A character that is neither a hyphen nor white space. */
  predicate Solid(c: char) {
    c != '-' && !IsSpace(c)
  }

  /** Squashing runs keeps every character that is neither a hyphen nor in a run,
      in order: only hyphens are added and only run characters are removed. */
  lemma {:induction false} SquashRunsKeepsRest(p: char -> bool, rest: char -> bool, s: string, inRun: bool)
    requires forall c :: rest(c) == (c != '-' && !p(c))
    ensures Filter(NotHyphen, SquashRuns(p, s, inRun)) == Filter(rest, s)
    decreases |s|
  {
    if s != [] {
      if p(s[0]) {
        SquashRunsKeepsRest(p, rest, s[1..], true);
        if !inRun {
          var tail := SquashRuns(p, s[1..], true);
          assert ("-" + tail)[0] == '-' && ("-" + tail)[1..] == tail;
        }
      } else {
        SquashRunsKeepsRest(p, rest, s[1..], false);
        var tail := SquashRuns(p, s[1..], false);
        assert ([s[0]] + tail)[0] == s[0] && ([s[0]] + tail)[1..] == tail;
      }
    }
  }

  /** Squashing hyphen runs leaves no doubled hyphen, and after a run the output
      does not start with another hyphen. */
  lemma {:induction false} SquashHyphensNoDouble(s: string, inRun: bool)
    ensures NoDoubleHyphen(SquashRuns(IsHyphen, s, inRun))
    ensures inRun ==> SquashRuns(IsHyphen, s, inRun) == [] || SquashRuns(IsHyphen, s, inRun)[0] != '-'
    decreases |s|
  {
    if s != [] {
      var r := SquashRuns(IsHyphen, s, inRun);
      if IsHyphen(s[0]) {
        SquashHyphensNoDouble(s[1..], true);
        if !inRun {
          var rest := SquashRuns(IsHyphen, s[1..], true);
          assert r == "-" + rest;
          forall i | 0 <= i < |r| - 1
            ensures !(r[i] == '-' && r[i + 1] == '-')
          {
            if i > 0 {
              assert r[i] == rest[i - 1] && r[i + 1] == rest[i];
            }
          }
        }
      } else {
        SquashHyphensNoDouble(s[1..], false);
        var rest := SquashRuns(IsHyphen, s[1..], false);
        assert r == [s[0]] + rest;
        forall i | 0 <= i < |r| - 1
          ensures !(r[i] == '-' && r[i + 1] == '-')
        {
          if i > 0 {
            assert r[i] == rest[i - 1] && r[i + 1] == rest[i];
          }
        }
      }
    }
  }

  lemma NoDoubleHyphenTail(s: string)
    requires s != [] && NoDoubleHyphen(s)
    ensures NoDoubleHyphen(s[1..])
  {
    forall i | 0 <= i < |s[1..]| - 1
      ensures !(s[1..][i] == '-' && s[1..][i + 1] == '-')
    {
      assert s[1..][i] == s[i + 1] && s[1..][i + 1] == s[i + 2];
    }
  }

  /** A string without doubled hyphens is left alone by the hyphen squash. */
  lemma {:induction false} SquashHyphensIdentity(s: string, inRun: bool)
    requires NoDoubleHyphen(s)
    requires inRun ==> s == [] || s[0] != '-'
    ensures SquashRuns(IsHyphen, s, inRun) == s
    decreases |s|
  {
    if s != [] {
      NoDoubleHyphenTail(s);
      if IsHyphen(s[0]) {
        assert |s| > 1 ==> s[1] != '-';
        SquashHyphensIdentity(s[1..], true);
        assert s == "-" + s[1..];
      } else {
        SquashHyphensIdentity(s[1..], false);
        assert s == [s[0]] + s[1..];
      }
    }
  }

  /** One character outside a run is copied. */
  lemma SquashPlainStep(p: char -> bool, s: string)
    requires s != [] && !p(s[0])
    ensures SquashRuns(p, s, false) == [s[0]] + SquashRuns(p, s[1..], false)
  {
  }

  /** One run character inside a run is dropped. */
  lemma SquashRunStep(p: char -> bool, c: char, t: string)
    requires p(c)
    ensures SquashRuns(p, [c] + t, true) == SquashRuns(p, t, true)
  {
    var ct := [c] + t;
    assert ct[0] == c && ct[1..] == t;
  }

  /** The first run character becomes a hyphen. */
  lemma SquashRunStart(p: char -> bool, c: char, t: string)
    requires p(c)
    ensures SquashRuns(p, [c] + t, false) == "-" + SquashRuns(p, t, true)
  {
    var ct := [c] + t;
    assert ct[0] == c && ct[1..] == t;
  }

  /** Text with no run character passes through the squash unchanged. */
  lemma {:induction false} SquashRunsPlain(p: char -> bool, a: string, t: string)
    requires forall i :: 0 <= i < |a| ==> !p(a[i])
    ensures SquashRuns(p, a + t, false) == a + SquashRuns(p, t, false)
    decreases |a|
  {
    if a == [] {
      assert a + t == t;
    } else {
      var rest := a[1..];
      forall i | 0 <= i < |rest| ensures !p(rest[i]) {
        assert rest[i] == a[i + 1];
      }
      SquashRunsPlain(p, rest, t);
      PlainCons(p, a, t);
    }
  }

  /** The inductive step of `SquashRunsPlain`. */
  lemma PlainCons(p: char -> bool, a: string, t: string)
    requires a != [] && !p(a[0])
    requires SquashRuns(p, a[1..] + t, false) == a[1..] + SquashRuns(p, t, false)
    ensures SquashRuns(p, a + t, false) == a + SquashRuns(p, t, false)
  {
    var at := a + t;
    var x := SquashRuns(p, t, false);
    calc {
      SquashRuns(p, at, false);
    == { SquashPlainStep(p, at); }
      [at[0]] + SquashRuns(p, at[1..], false);
    == { assert at[0] == a[0] && at[1..] == a[1..] + t; }
      [a[0]] + (a[1..] + x);
    == { assert a == [a[0]] + a[1..]; }
      a + x;
    }
  }

  /** Inside a run, further run characters add nothing. */
  lemma {:induction false} SquashRunsInRun(p: char -> bool, w: string, t: string)
    requires forall i :: 0 <= i < |w| ==> p(w[i])
    ensures SquashRuns(p, w + t, true) == SquashRuns(p, t, true)
    decreases |w|
  {
    if w == [] {
      assert w + t == t;
    } else {
      var rest := w[1..];
      assert forall i :: 0 <= i < |rest| ==> p(rest[i]) by {
        forall i | 0 <= i < |rest| ensures p(rest[i]) {
          assert rest[i] == w[i + 1];
        }
      }
      assert w + t == [w[0]] + (rest + t) by {
        assert w == [w[0]] + rest;
      }
      SquashRunStep(p, w[0], rest + t);
      SquashRunsInRun(p, rest, t);
    }
  }

  /** After a run, text that does not continue it is squashed as from the start. */
  lemma RunEnd(p: char -> bool, b: string)
    requires b == [] || !p(b[0])
    ensures SquashRuns(p, b, true) == SquashRuns(p, b, false)
  {
  }

  /** A run followed by text that does not continue it becomes one hyphen. */
  lemma RunHead(p: char -> bool, w: string, b: string)
    requires w != [] && forall i :: 0 <= i < |w| ==> p(w[i])
    requires b == [] || !p(b[0])
    ensures SquashRuns(p, w + b, false) == "-" + SquashRuns(p, b, false)
  {
    var rest := w[1..];
    assert forall i :: 0 <= i < |rest| ==> p(rest[i]) by {
      forall i | 0 <= i < |rest| ensures p(rest[i]) {
        assert rest[i] == w[i + 1];
      }
    }
    assert w + b == [w[0]] + (rest + b) by {
      assert w == [w[0]] + rest;
    }
    SquashRunStart(p, w[0], rest + b);
    SquashRunsInRun(p, rest, b);
    RunEnd(p, b);
  }

  /** A maximal run, with no run character before it and none right after it,
      becomes exactly one hyphen in its place; the text before it is kept. */
  lemma SquashRunsRun(p: char -> bool, a: string, w: string, b: string)
    requires forall i :: 0 <= i < |a| ==> !p(a[i])
    requires w != [] && forall i :: 0 <= i < |w| ==> p(w[i])
    requires b == [] || !p(b[0])
    ensures SquashRuns(p, a + w + b, false) == a + "-" + SquashRuns(p, b, false)
  {
    var wb := w + b;
    var y := SquashRuns(p, b, false);
    assert a + w + b == a + wb;
    SquashRunsPlain(p, a, wb);
    RunHead(p, w, b);
    assert a + ("-" + y) == a + "-" + y;
  }

  /** The characters `slugify` keeps: `a-z`, `0-9`, the hyphen, and the further
      range written in the source's character class, which is given here as `extra`. */
  predicate SlugChar(extra: char -> bool, c: char) {
    ('a' <= c <= 'z') || ('0' <= c <= '9') || c == '-' || extra(c)
  }

  /** `.replace(/\s+/g, "-")`. */
  function SpacesToHyphens(s: string): (r: string)
    ensures forall c :: c in r ==> c == '-' || (c in s && !IsSpace(c))
    ensures Filter(NotHyphen, r) == Filter(Solid, s)
    ensures (exists i :: 0 <= i < |s| && IsSpace(s[i])) ==> '-' in r
    ensures (forall i :: 0 <= i < |s| ==> !IsSpace(s[i])) ==> r == s
  {
    SquashRunsFacts(IsSpace, s, false);
    SquashRunsKeepsRest(IsSpace, Solid, s, false);
    SquashRuns(IsSpace, s, false)
  }

  /** Each maximal white-space run becomes one hyphen where it stood: with no white
      space in `a` and none right after the run `w`, the result is `a`, a hyphen,
      and the result for the rest. */
  lemma SpacesToHyphensRun(a: string, w: string, b: string)
    requires forall i :: 0 <= i < |a| ==> !IsSpace(a[i])
    requires w != [] && AllSpace(w)
    requires b == [] || !IsSpace(b[0])
    ensures SpacesToHyphens(a + w + b) == a + "-" + SpacesToHyphens(b)
  {
    SquashRunsRun(IsSpace, a, w, b);
  }

  /** `.replace(/[^...]/g, "")`: keep exactly the characters of the slug alphabet. */
  function KeepSlugChars(extra: char -> bool, s: string): (r: string)
    ensures forall c :: c in r <==> c in s && SlugChar(extra, c)
    ensures forall c :: multiset(r)[c] == if SlugChar(extra, c) then multiset(s)[c] else 0
    ensures IsSubseq(r, s)
    ensures (forall i :: 0 <= i < |s| ==> SlugChar(extra, s[i])) ==> r == s
  {
    FilterIsSubseq(c => SlugChar(extra, c), s);
    Filter(c => SlugChar(extra, c), s)
  }

  /** `.replace(/-+/g, "-")`. */
  function CollapseHyphens(s: string): (r: string)
    ensures forall c :: c in r ==> c == '-' || c in s
    ensures NoDoubleHyphen(r)
    ensures NoDoubleHyphen(s) ==> r == s
    ensures Filter(NotHyphen, r) == Filter(NotHyphen, s)
    ensures '-' in r <==> '-' in s
    ensures r == [] <==> s == []
  {
    SquashRunsFacts(IsHyphen, s, false);
    SquashHyphensNoDouble(s, false);
    SquashRunsKeepsRest(IsHyphen, NotHyphen, s, false);
    if NoDoubleHyphen(s) then SquashHyphensIdentity(s, false); SquashRuns(IsHyphen, s, false)
    else SquashRuns(IsHyphen, s, false)
  }

  /** Each maximal hyphen run becomes one hyphen where it stood: with no hyphen in
      `a` and none right after the run `w`, the result is `a`, a hyphen, and the
      result for the rest. */
  lemma CollapseHyphensRun(a: string, w: string, b: string)
    requires forall i :: 0 <= i < |a| ==> a[i] != '-'
    requires w != [] && forall i :: 0 <= i < |w| ==> w[i] == '-'
    requires b == [] || b[0] != '-'
    ensures CollapseHyphens(a + w + b) == a + "-" + CollapseHyphens(b)
  {
    SquashRunsRun(IsHyphen, a, w, b);
  }

  /** `slugify` (app.js:42-48): lower-case, turn white-space runs into a hyphen,
      drop characters outside the slug alphabet, collapse hyphen runs. */
  function Slugify(extra: char -> bool, s: string): (r: string)
    ensures forall c :: c in r ==> SlugChar(extra, c) && !IsUpper(c) && !IsSpace(c)
    ensures NoDoubleHyphen(r)
  {
    var low := Lower(s);
    var spaced := SpacesToHyphens(low);
    var kept := KeepSlugChars(extra, spaced);
    assert forall c :: c in spaced ==> !IsUpper(c) && !IsSpace(c) by {
      forall c | c in spaced
        ensures !IsUpper(c) && !IsSpace(c)
      {
        if c != '-' {
          var i :| 0 <= i < |low| && low[i] == c;
        }
      }
    }
    CollapseHyphens(kept)
  }

  /** A slug is its own slug: deriving a key from a key changes nothing. */
  lemma {:induction false} SlugifyIdempotent(extra: char -> bool, s: string)
    ensures Slugify(extra, Slugify(extra, s)) == Slugify(extra, s)
  {
    var t := Slugify(extra, s);
    assert forall i :: 0 <= i < |t| ==> t[i] in t;
    assert Lower(t) == t;
    assert SpacesToHyphens(t) == t;
    assert KeepSlugChars(extra, t) == t;
  }

  /** The slug is empty exactly when the name has no white space and no character
      whose lower-case form is in the slug alphabet. */
  lemma {:induction false} SlugifyEmptyIff(extra: char -> bool, s: string)
    ensures Slugify(extra, s) == [] <==>
            forall i :: 0 <= i < |s| ==> !IsSpace(s[i]) && !SlugChar(extra, LowerChar(s[i]))
  {
    if exists i :: 0 <= i < |s| && IsSpace(s[i]) {
      var i :| 0 <= i < |s| && IsSpace(s[i]);
      SpaceGivesSlug(extra, s, i);
    } else if exists i :: 0 <= i < |s| && SlugChar(extra, LowerChar(s[i])) {
      var i :| 0 <= i < |s| && SlugChar(extra, LowerChar(s[i]));
      KeptGivesSlug(extra, s, i);
    } else {
      NothingKept(extra, s);
    }
  }

  lemma SpaceGivesSlug(extra: char -> bool, s: string, i: nat)
    requires i < |s| && IsSpace(s[i])
    ensures Slugify(extra, s) != []
  {
    var low := Lower(s);
    var spaced := SpacesToHyphens(low);
    assert IsSpace(low[i]);
    assert '-' in spaced;
    KeptHyphen(extra, spaced);
  }

  lemma KeptGivesSlug(extra: char -> bool, s: string, i: nat)
    requires forall j :: 0 <= j < |s| ==> !IsSpace(s[j])
    requires i < |s| && SlugChar(extra, LowerChar(s[i]))
    ensures Slugify(extra, s) != []
  {
    var low := Lower(s);
    assert SpacesToHyphens(low) == low;
    assert low[i] in KeepSlugChars(extra, low);
  }

  lemma NothingKept(extra: char -> bool, s: string)
    requires forall i :: 0 <= i < |s| ==> !IsSpace(s[i]) && !SlugChar(extra, LowerChar(s[i]))
    ensures Slugify(extra, s) == []
  {
    var low := Lower(s);
    assert SpacesToHyphens(low) == low;
    assert KeepSlugChars(extra, low) == [];
  }

  lemma KeptHyphen(extra: char -> bool, s: string)
    requires '-' in s
    ensures KeepSlugChars(extra, s) != []
  {
    assert '-' in KeepSlugChars(extra, s);
  }
}
