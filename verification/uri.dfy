/** Percent-encoding as the browser does it: a character outside a kept set is
    written as the `%XX` escapes of its UTF-8 bytes (RFC 3629, section 3), with
    upper-case hex digits. Two kept sets matter to the catalog browser:
    `encodeURIComponent`'s (section 19.2.6.5 of ECMA-262) and the URL Standard's
    fragment percent-encode set, which the `location.hash` setter applies.
    `decodeURIComponent` reverses both. */
module Uri {
  import opened Text

  predicate IsHexDigit(c: char) {
    ('0' <= c <= '9') || ('A' <= c <= 'F') || ('a' <= c <= 'f')
  }

  function HexValue(c: char): (v: nat)
    requires IsHexDigit(c)
    ensures v < 16
  {
    if '0' <= c <= '9' then c as int - '0' as int
    else if 'A' <= c <= 'F' then c as int - 'A' as int + 10
    else c as int - 'a' as int + 10
  }

  /** The upper-case hex digit for `d`. */
  function HexDigit(d: nat): (c: char)
    requires d < 16
    ensures IsHexDigit(c) && HexValue(c) == d
    ensures '0' <= c <= '9' || 'A' <= c <= 'F'
  {
    if d < 10 then ('0' as int + d) as char else ('A' as int + d - 10) as char
  }

  /** `%XX` for one byte. */
  function PercentByte(b: nat): (r: string)
    requires b < 256
    ensures |r| == 3 && r[0] == '%' && IsHexDigit(r[1]) && IsHexDigit(r[2])
    ensures 16 * HexValue(r[1]) + HexValue(r[2]) == b
  {
    ['%', HexDigit(b / 16), HexDigit(b % 16)]
  }

  predicate AllBytes(bs: seq<nat>) {
    forall i :: 0 <= i < |bs| ==> bs[i] < 256
  }

  /** The UTF-8 encoding of one character. */
  function Utf8(c: char): (bs: seq<nat>)
    ensures 1 <= |bs| <= 4 && AllBytes(bs)
  {
    var n := c as int;
    if n < 0x80 then [n]
    else if n < 0x800 then [0xC0 + n / 64, 0x80 + n % 64]
    else if n < 0x10000 then [0xE0 + n / 4096, 0x80 + n / 64 % 64, 0x80 + n % 64]
    else [0xF0 + n / 262144, 0x80 + n / 4096 % 64, 0x80 + n / 64 % 64, 0x80 + n % 64]
  }

  /** The characters an escape sequence is written with. */
  predicate IsEscapeChar(c: char) {
    c == '%' || IsHexDigit(c)
  }

  /** The `%XX` escapes of a byte sequence. */
  function EscapeBytes(bs: seq<nat>): (r: string)
    requires AllBytes(bs)
    ensures |r| == 3 * |bs|
    ensures forall c :: c in r ==> IsEscapeChar(c)
  {
    if bs == [] then [] else PercentByte(bs[0]) + EscapeBytes(bs[1..])
  }

  /** One character: kept as it is, or escaped byte by byte. */
  function EncodeChar(keep: char -> bool, c: char): (r: string)
    ensures keep(c) ==> r == [c]
    ensures !keep(c) ==> r != [] && r[0] == '%' && forall d :: d in r ==> IsEscapeChar(d)
  {
    if keep(c) then [c] else EscapeBytes(Utf8(c))
  }

  /** Percent-encodes every character of `s` that `keep` rejects. */
  function PercentEncode(keep: char -> bool, s: string): (r: string)
    ensures (forall i :: 0 <= i < |s| ==> keep(s[i])) ==> r == s
    ensures forall c :: c in r ==> (c in s && keep(c)) || IsEscapeChar(c)
    ensures (exists i :: 0 <= i < |s| && !keep(s[i])) ==> '%' in r
    ensures r == [] <==> s == []
  {
    if s == [] then []
    else
      var head := EncodeChar(keep, s[0]);
      var tail := PercentEncode(keep, s[1..]);
      assert forall i :: 0 < i < |s| ==> s[i] == s[1..][i - 1];
      assert !keep(s[0]) ==> head[0] == (head + tail)[0];
      head + tail
  }

  lemma {:induction false} PercentEncodeAppend(keep: char -> bool, a: string, b: string)
    ensures PercentEncode(keep, a + b) == PercentEncode(keep, a) + PercentEncode(keep, b)
  {
    if a == [] {
      assert a + b == b;
    } else {
      var ab := a + b;
      assert ab[0] == a[0] && ab[1..] == a[1..] + b;
      PercentEncodeAppend(keep, a[1..], b);
    }
  }

  /** The byte written as `%XX` at the start of `s`, if `s` starts with one. */
  function ByteAt(s: string): (r: Option<nat>)
    ensures r.Some? ==> r.value < 256 && |s| >= 3
  {
    if |s| >= 3 && s[0] == '%' && IsHexDigit(s[1]) && IsHexDigit(s[2])
    then Some(16 * HexValue(s[1]) + HexValue(s[2]))
    else None
  }

  /** Reads `k` escaped continuation bytes (`%80` to `%BF`), shifting their low six
      bits into `acc`; gives the code point and the rest of the text. */
  function Continuation(s: string, k: nat, acc: nat): (r: Option<(nat, string)>)
    ensures r.Some? ==> |r.value.1| <= |s| - 3 * k
    decreases k
  {
    if k == 0 then Some((acc, s))
    else match ByteAt(s)
      case None => None
      case Some(b) =>
        if 0x80 <= b < 0xC0 then Continuation(s[3..], k - 1, acc * 64 + (b - 0x80)) else None
  }

  /** Accepts a decoded code point that is not overlong (at least `least`), not a
      surrogate and within Unicode. */
  function Accept(x: Option<(nat, string)>, least: nat): (r: Option<(char, string)>)
    ensures r.Some? ==> x.Some? && r.value.1 == x.value.1 && r.value.0 as int == x.value.0
  {
    match x
    case None => None
    case Some((n, rest)) =>
      if least <= n && (n < 0xD800 || 0xE000 <= n < 0x110000) then Some((n as char, rest)) else None
  }

  /** Decodes the escaped UTF-8 sequence at the start of `s`; `None` where
      `decodeURIComponent` throws a `URIError`: a `%` without two hex digits, a byte
      that cannot start a sequence, a missing continuation byte, an overlong form,
      a surrogate, or a code point above U+10FFFF. */
  function DecodeEscape(s: string): (r: Option<(char, string)>)
    ensures r.Some? ==> |r.value.1| < |s|
  {
    match ByteAt(s)
    case None => None
    case Some(b) =>
      if b < 0x80 then Some((b as char, s[3..]))
      else if 0xC0 <= b < 0xE0 then Accept(Continuation(s[3..], 1, b - 0xC0), 0x80)
      else if 0xE0 <= b < 0xF0 then Accept(Continuation(s[3..], 2, b - 0xE0), 0x800)
      else if 0xF0 <= b < 0xF8 then Accept(Continuation(s[3..], 3, b - 0xF0), 0x10000)
      else None
  }

  function Prepend(c: char, r: Option<string>): Option<string> {
    match r
    case None => None
    case Some(t) => Some([c] + t)
  }

  /** `decodeURIComponent`: every escaped UTF-8 sequence becomes its character, and
      the other characters are copied; `None` for malformed input. */
  function PercentDecode(s: string): (r: Option<string>)
    ensures (forall i :: 0 <= i < |s| ==> s[i] != '%') ==> r == Some(s)
    decreases |s|
  {
    if s == [] then Some([])
    else if s[0] != '%' then
      assert s == [s[0]] + s[1..];
      Prepend(s[0], PercentDecode(s[1..]))
    else match DecodeEscape(s)
      case None => None
      case Some((c, rest)) => Prepend(c, PercentDecode(rest))
  }

  lemma ByteAtPercent(b: nat, t: string)
    requires b < 256
    ensures ByteAt(PercentByte(b) + t) == Some(b)
    ensures (PercentByte(b) + t)[3..] == t
  {
    var s := PercentByte(b) + t;
    assert s[0] == '%' && s[1] == PercentByte(b)[1] && s[2] == PercentByte(b)[2];
  }

  /** The code point folded from continuation bytes. */
  function Fold(acc: nat, bs: seq<nat>): nat
    requires AllContinuation(bs)
    decreases |bs|
  {
    if bs == [] then acc else Fold(acc * 64 + (bs[0] - 0x80), bs[1..])
  }

  predicate AllContinuation(bs: seq<nat>) {
    forall i :: 0 <= i < |bs| ==> 0x80 <= bs[i] < 0xC0
  }

  lemma {:induction false} ContinuationEscapes(bs: seq<nat>, t: string, acc: nat)
    requires AllContinuation(bs)
    ensures Continuation(EscapeBytes(bs) + t, |bs|, acc) == Some((Fold(acc, bs), t))
  {
    if bs == [] {
      assert EscapeBytes(bs) + t == t;
    } else {
      var rest := EscapeBytes(bs[1..]) + t;
      assert EscapeBytes(bs) + t == PercentByte(bs[0]) + rest;
      ByteAtPercent(bs[0], rest);
      var acc' := acc * 64 + (bs[0] - 0x80);
      ContinuationEscapes(bs[1..], t, acc');
      assert Continuation(EscapeBytes(bs) + t, |bs|, acc) == Continuation(rest, |bs| - 1, acc');
      assert Fold(acc, bs) == Fold(acc', bs[1..]);
    }
  }

  lemma DivSplit(n: nat)
    ensures n / 64 / 64 == n / 4096 && n / 4096 / 64 == n / 262144
  {
    var q := n / 64;
    var q2 := q / 64;
    assert n == 4096 * q2 + 64 * (q % 64) + n % 64;
    var q3 := q2 / 64;
    assert n == 262144 * q3 + 4096 * (q2 % 64) + 64 * (q % 64) + n % 64;
  }

  /** The escapes of a character's UTF-8 bytes decode back to that character. */
  lemma DecodeEscapeUtf8(c: char, t: string)
    ensures DecodeEscape(EscapeBytes(Utf8(c)) + t) == Some((c, t))
  {
    var n := c as int;
    if n < 0x80 {
      DecodeOne(c, Utf8(c), t);
    } else if n < 0x800 {
      DecodeEscapeTwo(c, Utf8(c), t);
    } else if n < 0x10000 {
      DecodeEscapeThree(c, Utf8(c), t);
    } else {
      DecodeEscapeFour(c, Utf8(c), t);
    }
  }

  lemma DecodeOne(c: char, bs: seq<nat>, t: string)
    requires c as int < 0x80 && bs == [c as int]
    ensures DecodeEscape(EscapeBytes(bs) + t) == Some((c, t))
  {
    EscapeHead(bs, t);
    assert EscapeBytes(bs[1..]) == [];
  }

  lemma DecodeEscapeTwo(c: char, bs: seq<nat>, t: string)
    requires var n := c as int; 0x80 <= n < 0x800 && bs == [0xC0 + n / 64, 0x80 + n % 64]
    ensures DecodeEscape(EscapeBytes(bs) + t) == Some((c, t))
  {
    EscapeHead(bs, t);
    DecodeTwo(c as int, bs, t);
    var s := EscapeBytes(bs) + t;
    assert 0xC0 <= bs[0] < 0xE0;
    assert DecodeEscape(s) == Accept(Continuation(s[3..], 1, bs[0] - 0xC0), 0x80);
  }

  lemma DecodeEscapeThree(c: char, bs: seq<nat>, t: string)
    requires var n := c as int;
      0x800 <= n < 0x10000 && bs == [0xE0 + n / 4096, 0x80 + n / 64 % 64, 0x80 + n % 64]
    ensures DecodeEscape(EscapeBytes(bs) + t) == Some((c, t))
  {
    EscapeHead(bs, t);
    DecodeThree(c as int, bs, t);
    var s := EscapeBytes(bs) + t;
    assert 0xE0 <= bs[0] < 0xF0;
    assert DecodeEscape(s) == Accept(Continuation(s[3..], 2, bs[0] - 0xE0), 0x800);
  }

  lemma DecodeEscapeFour(c: char, bs: seq<nat>, t: string)
    requires var n := c as int; 0x10000 <= n < 0x110000
    requires var n := c as int;
      bs == [0xF0 + n / 262144, 0x80 + n / 4096 % 64, 0x80 + n / 64 % 64, 0x80 + n % 64]
    ensures DecodeEscape(EscapeBytes(bs) + t) == Some((c, t))
  {
    EscapeHead(bs, t);
    DecodeFour(c as int, bs, t);
    var s := EscapeBytes(bs) + t;
    assert 0xF0 <= bs[0] < 0xF8;
    assert DecodeEscape(s) == Accept(Continuation(s[3..], 3, bs[0] - 0xF0), 0x10000);
  }

  /** The escapes of a byte sequence start with the escape of its first byte. */
  lemma EscapeHead(bs: seq<nat>, t: string)
    requires bs != [] && AllBytes(bs)
    ensures EscapeBytes(bs) + t == PercentByte(bs[0]) + (EscapeBytes(bs[1..]) + t)
    ensures ByteAt(EscapeBytes(bs) + t) == Some(bs[0])
    ensures (EscapeBytes(bs) + t)[3..] == EscapeBytes(bs[1..]) + t
  {
    assert EscapeBytes(bs) + t == PercentByte(bs[0]) + (EscapeBytes(bs[1..]) + t);
    ByteAtPercent(bs[0], EscapeBytes(bs[1..]) + t);
  }

  lemma DecodeTwo(n: nat, bs: seq<nat>, t: string)
    requires 0x80 <= n < 0x800 && bs == [0xC0 + n / 64, 0x80 + n % 64]
    ensures Continuation(EscapeBytes(bs[1..]) + t, 1, bs[0] - 0xC0) == Some((n, t))
  {
    ContinuationEscapes(bs[1..], t, bs[0] - 0xC0);
  }

  lemma DecodeThree(n: nat, bs: seq<nat>, t: string)
    requires 0x800 <= n < 0x10000 && bs == [0xE0 + n / 4096, 0x80 + n / 64 % 64, 0x80 + n % 64]
    ensures Continuation(EscapeBytes(bs[1..]) + t, 2, bs[0] - 0xE0) == Some((n, t))
  {
    FoldThree(n, bs);
    ContinuationEscapes(bs[1..], t, bs[0] - 0xE0);
  }

  lemma FoldThree(n: nat, bs: seq<nat>)
    requires 0x800 <= n < 0x10000 && bs == [0xE0 + n / 4096, 0x80 + n / 64 % 64, 0x80 + n % 64]
    ensures AllContinuation(bs[1..]) && Fold(bs[0] - 0xE0, bs[1..]) == n
  {
    DivSplit(n);
    var a1 := (bs[0] - 0xE0) * 64 + (bs[1] - 0x80);
    assert a1 == n / 64;
    assert Fold(bs[0] - 0xE0, bs[1..]) == Fold(a1, bs[2..]);
    assert Fold(a1, bs[2..]) == a1 * 64 + (bs[2] - 0x80) == n;
  }

  lemma DecodeFour(n: nat, bs: seq<nat>, t: string)
    requires 0x10000 <= n < 0x110000
    requires bs == [0xF0 + n / 262144, 0x80 + n / 4096 % 64, 0x80 + n / 64 % 64, 0x80 + n % 64]
    ensures Continuation(EscapeBytes(bs[1..]) + t, 3, bs[0] - 0xF0) == Some((n, t))
  {
    FoldFour(n, bs);
    ContinuationEscapes(bs[1..], t, bs[0] - 0xF0);
  }

  lemma FoldFour(n: nat, bs: seq<nat>)
    requires 0x10000 <= n < 0x110000
    requires bs == [0xF0 + n / 262144, 0x80 + n / 4096 % 64, 0x80 + n / 64 % 64, 0x80 + n % 64]
    ensures AllContinuation(bs[1..]) && Fold(bs[0] - 0xF0, bs[1..]) == n
  {
    DivSplit(n);
    var a1 := (bs[0] - 0xF0) * 64 + (bs[1] - 0x80);
    assert a1 == n / 4096;
    var a2 := a1 * 64 + (bs[2] - 0x80);
    assert a2 == n / 64;
    assert Fold(bs[0] - 0xF0, bs[1..]) == Fold(a1, bs[2..]);
    assert Fold(a1, bs[2..]) == Fold(a2, bs[3..]);
    assert Fold(a2, bs[3..]) == a2 * 64 + (bs[3] - 0x80) == n;
  }

  lemma DecodeEncodeChar(keep: char -> bool, c: char, t: string)
    requires keep(c) ==> c != '%'
    ensures PercentDecode(EncodeChar(keep, c) + t) == Prepend(c, PercentDecode(t))
  {
    var s := EncodeChar(keep, c) + t;
    if keep(c) {
      assert s[0] == c && s[1..] == t;
    } else {
      DecodeEscapeUtf8(c, t);
      assert s[0] == '%';
    }
  }

  /** Decoding undoes percent-encoding whenever the kept characters include no `%`. */
  lemma {:induction false} DecodeEncode(keep: char -> bool, s: string)
    requires forall i :: 0 <= i < |s| && keep(s[i]) ==> s[i] != '%'
    ensures PercentDecode(PercentEncode(keep, s)) == Some(s)
  {
    if s != [] {
      DecodeEncode(keep, s[1..]);
      DecodeEncodeChar(keep, s[0], PercentEncode(keep, s[1..]));
      assert s == [s[0]] + s[1..];
    }
  }

  /** The characters `encodeURIComponent` leaves alone: ASCII letters and digits
      and `-_.!~*'()`. */
  predicate ComponentKeeps(c: char) {
    || ('A' <= c <= 'Z') || ('a' <= c <= 'z') || ('0' <= c <= '9')
    || c == '-' || c == '_' || c == '.' || c == '!' || c == '~' || c == '*'
    || c == '\'' || c == '(' || c == ')'
  }

  /** `encodeURIComponent`. Dafny characters are Unicode scalar values, so the
      lone surrogates on which it throws cannot occur. */
  function EncodeUriComponent(s: string): (r: string)
    ensures r == [] <==> s == []
    ensures forall c :: c in r ==> ComponentKeeps(c) || IsEscapeChar(c)
    ensures (forall i :: 0 <= i < |s| ==> ComponentKeeps(s[i])) ==> r == s
  {
    PercentEncode(ComponentKeeps, s)
  }

  /** `decodeURIComponent` gives back every string `encodeURIComponent` encoded. */
  lemma DecodeEncodeUriComponent(s: string)
    ensures PercentDecode(EncodeUriComponent(s)) == Some(s)
  {
    DecodeEncode(ComponentKeeps, s);
  }

  /** `encodeURIComponent` works character by character: a kept character stays as
      it is wherever it stands, and any other character becomes the `%XX` escapes
      of its UTF-8 bytes, whatever surrounds it. */
  lemma EncodeUriComponentChar(a: string, c: char, b: string)
    ensures ComponentKeeps(c) ==>
      EncodeUriComponent(a + [c] + b) == EncodeUriComponent(a) + [c] + EncodeUriComponent(b)
    ensures !ComponentKeeps(c) ==>
      EncodeUriComponent(a + [c] + b) == EncodeUriComponent(a) + EscapeBytes(Utf8(c)) + EncodeUriComponent(b)
  {
    PercentEncodeAppend(ComponentKeeps, a + [c], b);
    PercentEncodeAppend(ComponentKeeps, a, [c]);
    EncodeOne(ComponentKeeps, c);
  }

  lemma EncodeOne(keep: char -> bool, c: char)
    ensures PercentEncode(keep, [c]) == EncodeChar(keep, c)
  {
    var s := [c];
    assert s[0] == c && s[1..] == [];
    assert PercentEncode(keep, s) == EncodeChar(keep, c) + PercentEncode(keep, []);
  }

  /** Encoding distributes over concatenation. */
  lemma EncodeUriComponentAppend(a: string, b: string)
    ensures EncodeUriComponent(a + b) == EncodeUriComponent(a) + EncodeUriComponent(b)
  {
    PercentEncodeAppend(ComponentKeeps, a, b);
  }

  /** The URL Standard's fragment percent-encode set: the C0 controls, space, `"`,
      `<`, `>`, `` ` `` and every code point above U+007E. */
  predicate InFragmentSet(c: char) {
    c < ' ' || c > '~' || c == ' ' || c == '"' || c == '<' || c == '>' || c == '`'
  }

  predicate FragmentKeeps(c: char) {
    !InFragmentSet(c)
  }

  /** Text the fragment encoding leaves as it is. */
  predicate FragmentSafe(s: string) {
    forall i :: 0 <= i < |s| ==> FragmentKeeps(s[i])
  }

  /** The ASCII tab and newlines the URL parser removes before parsing. */
  predicate IsTabOrNewline(c: char) {
    c == '\t' || c == '\n' || c == '\r'
  }

  predicate NotTabOrNewline(c: char) {
    !IsTabOrNewline(c)
  }

  /** The fragment the URL parser stores for the text `x`: ASCII tab and newlines
      removed, every character of the fragment set percent-encoded, `%` and all
      else kept. */
  function FragmentEncode(x: string): (r: string)
    ensures FragmentSafe(r)
    ensures FragmentSafe(x) ==> r == x
    ensures forall c :: c in r ==> (c in x && FragmentKeeps(c)) || IsEscapeChar(c)
  {
    var y := Filter(NotTabOrNewline, x);
    StrippedWitnesses(x);
    EncodedSafe(y);
    PercentEncode(FragmentKeeps, y)
  }

  /** A character of the fragment set, other than a tab or newline, leaves an escape. */
  lemma FragmentEncodeEscapes(x: string, i: nat)
    requires i < |x| && !FragmentKeeps(x[i]) && !IsTabOrNewline(x[i])
    ensures '%' in FragmentEncode(x)
  {
    StrippedWitnesses(x);
  }

  /** The stored fragment is empty exactly when the text is all tabs and newlines. */
  lemma FragmentEncodeEmpty(x: string)
    ensures FragmentEncode(x) == [] <==> forall i :: 0 <= i < |x| ==> IsTabOrNewline(x[i])
  {
    StrippedWitnesses(x);
  }

  /** The fragment encoding only writes characters outside the fragment set. */
  lemma EncodedSafe(y: string)
    ensures FragmentSafe(PercentEncode(FragmentKeeps, y))
  {
    var r := PercentEncode(FragmentKeeps, y);
    assert forall i :: 0 <= i < |r| ==> r[i] in r;
  }

  /** Removing tab and newlines keeps every other character of `x`. */
  lemma StrippedWitnesses(x: string)
    ensures var y := Filter(NotTabOrNewline, x);
      && (forall i :: 0 <= i < |y| ==> y[i] in x && NotTabOrNewline(y[i]))
      && ((exists i :: 0 <= i < |x| && !FragmentKeeps(x[i]) && !IsTabOrNewline(x[i])) ==>
            exists j :: 0 <= j < |y| && !FragmentKeeps(y[j]))
      && ((exists i :: 0 <= i < |x| && !IsTabOrNewline(x[i])) ==> y != [])
      && ((forall i :: 0 <= i < |x| ==> IsTabOrNewline(x[i])) ==> y == [])
      && (FragmentSafe(x) ==> y == x)
  {
    StrippedMembers(x);
    StrippedNonEmpty(x);
    if exists i :: 0 <= i < |x| && !FragmentKeeps(x[i]) && !IsTabOrNewline(x[i]) {
      var i :| 0 <= i < |x| && !FragmentKeeps(x[i]) && !IsTabOrNewline(x[i]);
      StrippedEscape(x, i);
    }
  }

  lemma StrippedMembers(x: string)
    ensures var y := Filter(NotTabOrNewline, x);
      && (forall i :: 0 <= i < |y| ==> y[i] in x && NotTabOrNewline(y[i]))
      && (FragmentSafe(x) ==> y == x)
  {
    var y := Filter(NotTabOrNewline, x);
    assert forall i :: 0 <= i < |y| ==> y[i] in y;
  }

  lemma StrippedEscape(x: string, i: nat)
    requires i < |x| && !FragmentKeeps(x[i]) && !IsTabOrNewline(x[i])
    ensures exists j :: 0 <= j < |Filter(NotTabOrNewline, x)| && !FragmentKeeps(Filter(NotTabOrNewline, x)[j])
  {
    var y := Filter(NotTabOrNewline, x);
    assert x[i] in y;
    var j :| 0 <= j < |y| && y[j] == x[i];
  }

  lemma StrippedNonEmpty(x: string)
    ensures var y := Filter(NotTabOrNewline, x);
      && ((exists i :: 0 <= i < |x| && !IsTabOrNewline(x[i])) ==> y != [])
      && ((forall i :: 0 <= i < |x| ==> IsTabOrNewline(x[i])) ==> y == [])
  {
    var y := Filter(NotTabOrNewline, x);
    if exists i :: 0 <= i < |x| && !IsTabOrNewline(x[i]) {
      var i :| 0 <= i < |x| && !IsTabOrNewline(x[i]);
      assert x[i] in y;
    }
  }

  lemma FragmentEncodeAppend(a: string, b: string)
    ensures FragmentEncode(a + b) == FragmentEncode(a) + FragmentEncode(b)
  {
    FilterAppend(NotTabOrNewline, a, b);
    PercentEncodeAppend(FragmentKeeps, Filter(NotTabOrNewline, a), Filter(NotTabOrNewline, b));
  }

  /** `decodeURIComponent` gives back the stored text when it holds no `%` and no
      tab or newline. */
  lemma DecodeFragment(x: string)
    requires forall i :: 0 <= i < |x| ==> x[i] != '%' && !IsTabOrNewline(x[i])
    ensures PercentDecode(FragmentEncode(x)) == Some(x)
  {
    assert Filter(NotTabOrNewline, x) == x;
    DecodeEncode(FragmentKeeps, x);
  }
}
