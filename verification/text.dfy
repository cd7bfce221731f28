/** Sequence and string helpers shared by every part of the catalog browser:
    an optional value, order-preserving filtering, and the few JavaScript
    string primitives the browser relies on (`\s`, `toLowerCase`, `trim`,
    `includes`). */
module Text {

  /** A value that may be absent; `None` plays the role of JavaScript's `null`. */
  datatype Option<T> = None | Some(value: T)

  /** `a` is obtained from `b` by deleting elements, keeping the order of the rest. */
  ghost predicate IsSubseq<T>(a: seq<T>, b: seq<T>)
    decreases |b|
  {
    a == [] || (b != [] && ((a[0] == b[0] && IsSubseq(a[1..], b[1..])) || IsSubseq(a, b[1..])))
  }

  /** A sequence is empty exactly when nothing is in it. */
  lemma NothingIn<T>(s: seq<T>)
    ensures s == [] <==> forall x :: x !in s
  {
    if s != [] {
      assert s[0] in s;
    }
  }

  /** `Array.prototype.filter`: the elements of `s` satisfying `p`, in their original order. */
  function Filter<T(!new)>(p: T -> bool, s: seq<T>): (r: seq<T>)
    ensures |r| <= |s|
    ensures forall x :: x in r <==> x in s && p(x)
    ensures forall x :: multiset(r)[x] == if p(x) then multiset(s)[x] else 0
    ensures (forall i :: 0 <= i < |s| ==> p(s[i])) ==> r == s
    ensures (forall i :: 0 <= i < |s| ==> !p(s[i])) ==> r == []
  {
    if s == [] then []
    else
      var tail := Filter(p, s[1..]);
      FilterStep(p, s, tail);
      if p(s[0]) then [s[0]] + tail else tail
  }

  /** One step of `Filter`: from what the tail's filter satisfies, what the whole
      filter satisfies. */
  lemma FilterStep<T(!new)>(p: T -> bool, s: seq<T>, tail: seq<T>)
    requires s != []
    requires |tail| <= |s[1..]|
    requires forall x :: x in tail <==> x in s[1..] && p(x)
    requires forall x :: multiset(tail)[x] == if p(x) then multiset(s[1..])[x] else 0
    requires (forall i :: 0 <= i < |s[1..]| ==> p(s[1..][i])) ==> tail == s[1..]
    requires (forall i :: 0 <= i < |s[1..]| ==> !p(s[1..][i])) ==> tail == []
    ensures var r := if p(s[0]) then [s[0]] + tail else tail;
      && |r| <= |s|
      && (forall x :: x in r <==> x in s && p(x))
      && (forall x :: multiset(r)[x] == if p(x) then multiset(s)[x] else 0)
      && ((forall i :: 0 <= i < |s| ==> p(s[i])) ==> r == s)
      && ((forall i :: 0 <= i < |s| ==> !p(s[i])) ==> r == [])
  {
    assert s == [s[0]] + s[1..];
    assert multiset(s) == multiset{s[0]} + multiset(s[1..]);
    assert multiset([s[0]] + tail) == multiset{s[0]} + multiset(tail);
  }

  /** Filtering distributes over concatenation. */
  lemma {:induction false} FilterAppend<T(!new)>(p: T -> bool, a: seq<T>, b: seq<T>)
    ensures Filter(p, a + b) == Filter(p, a) + Filter(p, b)
  {
    if a == [] {
      assert a + b == b;
    } else {
      var ab := a + b;
      assert ab[0] == a[0] && ab[1..] == a[1..] + b;
      FilterAppend(p, a[1..], b);
      if p(a[0]) {
        assert Filter(p, ab) == [a[0]] + Filter(p, a[1..] + b);
      } else {
        assert Filter(p, ab) == Filter(p, a[1..] + b);
      }
    }
  }

  /** Filtering keeps the survivors in their original relative order. */
  lemma {:induction false} FilterIsSubseq<T(!new)>(p: T -> bool, s: seq<T>)
    ensures IsSubseq(Filter(p, s), s)
  {
    if s != [] {
      FilterIsSubseq(p, s[1..]);
      if p(s[0]) {
        assert Filter(p, s)[1..] == Filter(p, s[1..]);
      }
    }
  }

  /** Two successive filters are one filter by the conjunction of their tests. */
  lemma {:induction false} FilterFilter<T(!new)>(p: T -> bool, q: T -> bool, both: T -> bool, s: seq<T>)
    requires forall x :: both(x) == (p(x) && q(x))
    ensures Filter(q, Filter(p, s)) == Filter(both, s)
  {
    if s != [] {
      FilterFilter(p, q, both, s[1..]);
      if p(s[0]) {
        assert Filter(p, s) == [s[0]] + Filter(p, s[1..]);
        assert Filter(p, s)[1..] == Filter(p, s[1..]);
      }
    }
  }

  /** The characters matched by JavaScript's `\s` and removed by `String.prototype.trim`:
      the WhiteSpace and LineTerminator code points of ECMAScript. */
  predicate IsSpace(c: char) {
    || c == '\t' || c == '\n' || c == '\U{B}' || c == '\U{C}' || c == '\r' || c == ' '
    || c == '\U{A0}' || c == '\U{1680}' || ('\U{2000}' <= c <= '\U{200A}')
    || c == '\U{2028}' || c == '\U{2029}' || c == '\U{202F}' || c == '\U{205F}'
    || c == '\U{3000}' || c == '\U{FEFF}'
  }

  /** The capitals `LowerChar` maps to small letters. */
  predicate IsUpper(c: char) {
    ('A' <= c <= 'Z') || ('\U{400}' <= c <= '\U{42F}')
  }

  /** `toLowerCase` on one character, for the Basic Latin capitals and the basic
      Cyrillic capitals (U+0400..U+042F); every other character is left unchanged. */
  function LowerChar(c: char): (r: char)
    ensures !IsUpper(r)
    ensures !IsUpper(c) ==> r == c
    ensures IsSpace(r) <==> IsSpace(c)
  {
    if 'A' <= c <= 'Z' then (c as int + 32) as char
    else if '\U{410}' <= c <= '\U{42F}' then (c as int + 32) as char
    else if '\U{400}' <= c <= '\U{40F}' then (c as int + 80) as char
    else c
  }

  /** Lower-casing a character twice is lower-casing it once. */
  lemma LowerCharIdempotent(c: char)
    ensures LowerChar(LowerChar(c)) == LowerChar(c)
  {
  }

  /** `String.prototype.toLowerCase`, character by character. */
  function Lower(s: string): (r: string)
    ensures |r| == |s|
    ensures forall i :: 0 <= i < |r| ==> !IsUpper(r[i])
    ensures forall i :: 0 <= i < |s| ==> (IsSpace(r[i]) <==> IsSpace(s[i]))
    ensures forall i :: 0 <= i < |s| ==> r[i] == LowerChar(s[i])
    ensures (forall i :: 0 <= i < |s| ==> !IsUpper(s[i])) ==> r == s
  {
    seq(|s|, i requires 0 <= i < |s| => LowerChar(s[i]))
  }

  predicate AllSpace(s: string) {
    forall i :: 0 <= i < |s| ==> IsSpace(s[i])
  }

  /** The number of white-space characters `s` starts with. */
  function LeadingSpace(s: string): (n: nat)
    ensures n <= |s|
    ensures forall i :: 0 <= i < n ==> IsSpace(s[i])
    ensures n < |s| ==> !IsSpace(s[n])
  {
    if s != [] && IsSpace(s[0]) then
      var n := LeadingSpace(s[1..]);
      assert forall i :: 0 < i <= n ==> s[i] == s[1..][i - 1];
      n + 1
    else 0
  }

  /** Where the white space `s` ends with begins. */
  function TrailingSpace(s: string): (n: nat)
    ensures n <= |s|
    ensures forall i :: n <= i < |s| ==> IsSpace(s[i])
    ensures n > 0 ==> !IsSpace(s[n - 1])
  {
    if s != [] && IsSpace(s[|s| - 1]) then
      var n := TrailingSpace(s[..|s| - 1]);
      assert forall i :: n <= i < |s| - 1 ==> s[i] == s[..|s| - 1][i];
      n
    else |s|
  }

  /** Drops the leading white space: what is removed is all white space. */
  function TrimStart(s: string): (r: string)
    ensures r == [] || !IsSpace(r[0])
    ensures r == [] <==> AllSpace(s)
    ensures |r| <= |s| && r == s[|s| - |r|..]
    ensures AllSpace(s[..|s| - |r|])
  {
    var n := LeadingSpace(s);
    assert forall i :: 0 <= i < n ==> s[..n][i] == s[i];
    s[n..]
  }

  /** Drops the trailing white space: what is removed is all white space. */
  function TrimEnd(s: string): (r: string)
    ensures r == [] || !IsSpace(r[|r| - 1])
    ensures r == [] <==> AllSpace(s)
    ensures |r| <= |s| && r == s[..|r|]
    ensures AllSpace(s[|r|..])
  {
    var n := TrailingSpace(s);
    assert forall i :: n <= i < |s| ==> s[n..][i - n] == s[i];
    s[..n]
  }

  /** `String.prototype.trim`: a contiguous slice of `s` with no white space at either end,
      empty exactly when `s` is all white space, and what is cut off on each side is
      white space. */
  function Trim(s: string): (r: string)
    ensures r == [] || (!IsSpace(r[0]) && !IsSpace(r[|r| - 1]))
    ensures r == [] <==> AllSpace(s)
    ensures exists i :: OccursAt(s, r, i) && AllSpace(s[..i]) && AllSpace(s[i + |r|..])
  {
    var t := TrimStart(s);
    var r := TrimEnd(t);
    TrimSlice(s, t, r);
    r
  }

  /** A prefix `r` of a suffix `t` of `s`, with white space cut off on both sides,
      occurs in `s` between the two cut-off parts. */
  lemma TrimSlice(s: string, t: string, r: string)
    requires |t| <= |s| && t == s[|s| - |t|..] && AllSpace(s[..|s| - |t|])
    requires |r| <= |t| && r == t[..|r|] && AllSpace(t[|r|..])
    requires t == [] || !IsSpace(t[0])
    requires r == [] || !IsSpace(r[|r| - 1])
    ensures r == [] || (!IsSpace(r[0]) && !IsSpace(r[|r| - 1]))
    ensures exists i :: OccursAt(s, r, i) && AllSpace(s[..i]) && AllSpace(s[i + |r|..])
    ensures r == [] <==> AllSpace(s)
  {
    if r != [] {
      assert r[0] == t[0];
    }
    var i := |s| - |t|;
    assert r == s[i..i + |r|];
    assert s[i + |r|..] == t[|r|..];
    assert OccursAt(s, r, i);
    if r == [] {
      assert s[..i] == s;
    } else {
      assert s[i] == r[0];
    }
  }

  /** Lower-casing a string twice is lower-casing it once. */
  lemma LowerIdempotent(s: string)
    ensures Lower(Lower(s)) == Lower(s)
  {
  }

  lemma LowerSlice(s: string, i: nat, j: nat)
    requires i <= j <= |s|
    ensures Lower(s[i..j]) == Lower(s)[i..j]
  {
  }

  /** Strings with white space at the same positions lose the same number of
      characters to trimming. */
  lemma {:induction false} LeadingSpaceSame(a: string, b: string)
    requires |a| == |b|
    requires forall i :: 0 <= i < |a| ==> (IsSpace(a[i]) <==> IsSpace(b[i]))
    ensures LeadingSpace(a) == LeadingSpace(b)
    decreases |a|
  {
    if a != [] && IsSpace(a[0]) {
      LeadingSpaceSame(a[1..], b[1..]);
    }
  }

  lemma {:induction false} TrailingSpaceSame(a: string, b: string)
    requires |a| == |b|
    requires forall i :: 0 <= i < |a| ==> (IsSpace(a[i]) <==> IsSpace(b[i]))
    ensures TrailingSpace(a) == TrailingSpace(b)
    decreases |a|
  {
    if a != [] && IsSpace(a[|a| - 1]) {
      TrailingSpaceSame(a[..|a| - 1], b[..|b| - 1]);
    }
  }

  /** Trimming commutes with lower-casing, which keeps white space where it is. */
  lemma TrimStartLower(s: string)
    ensures TrimStart(Lower(s)) == Lower(TrimStart(s))
  {
    LeadingSpaceSame(s, Lower(s));
    LowerSlice(s, LeadingSpace(s), |s|);
  }

  lemma TrimEndLower(s: string)
    ensures TrimEnd(Lower(s)) == Lower(TrimEnd(s))
  {
    TrailingSpaceSame(s, Lower(s));
    LowerSlice(s, 0, TrailingSpace(s));
  }

  lemma TrimLower(s: string)
    ensures Trim(Lower(s)) == Lower(Trim(s))
  {
    TrimStartLower(s);
    TrimEndLower(TrimStart(s));
  }

  /** `String.prototype.includes`: `needle` occurs somewhere in `hay` as a contiguous block. */
  predicate Contains(hay: string, needle: string): (b: bool)
    ensures needle <= hay ==> b
    ensures b ==> |needle| <= |hay|
    decreases |hay|
  {
    needle <= hay || (hay != [] && Contains(hay[1..], needle))
  }

  /** `needle` sits in `hay` starting at position `i`. */
  predicate OccursAt(hay: string, needle: string, i: int) {
    0 <= i <= |hay| - |needle| && hay[i..i + |needle|] == needle
  }

  /** `Contains` agrees with the positional reading of "occurs in". */
  lemma {:induction false} ContainsAt(hay: string, needle: string)
    ensures Contains(hay, needle) <==> exists i :: OccursAt(hay, needle, i)
  {
    if needle <= hay {
      assert OccursAt(hay, needle, 0);
    } else if hay == [] {
    } else {
      ContainsAt(hay[1..], needle);
      if exists i :: OccursAt(hay, needle, i) {
        var i :| OccursAt(hay, needle, i);
        OccursShift(hay, needle, i);
      }
      if Contains(hay[1..], needle) {
        var j :| OccursAt(hay[1..], needle, j);
        OccursUnshift(hay, needle, j);
      }
    }
  }

  lemma OccursShift(hay: string, needle: string, i: int)
    requires hay != [] && !(needle <= hay) && OccursAt(hay, needle, i)
    ensures OccursAt(hay[1..], needle, i - 1)
  {
    assert i != 0;
    assert hay[1..][i - 1..i - 1 + |needle|] == hay[i..i + |needle|];
  }

  lemma OccursUnshift(hay: string, needle: string, j: int)
    requires hay != [] && OccursAt(hay[1..], needle, j)
    ensures OccursAt(hay, needle, j + 1)
  {
    assert hay[1..][j..j + |needle|] == hay[j + 1..j + 1 + |needle|];
  }
}
