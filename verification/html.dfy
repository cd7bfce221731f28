/** `escapeHtml` (app.js:279-286): the five `replaceAll` calls that make a string
    safe to splice into markup, together with a per-character reference
    definition and a decoder that undoes it. */
module Html {

  /** `s.replaceAll(c, rep)` for a one-character pattern. */
  function ReplaceAll(s: string, c: char, rep: string): (r: string)
    ensures c !in rep ==> c !in r
    ensures forall x :: x in r ==> x in rep || (x in s && x != c)
    ensures c !in s ==> r == s
  {
    if s == [] then []
    else (if s[0] == c then rep else [s[0]]) + ReplaceAll(s[1..], c, rep)
  }

  /** Replacing distributes over concatenation. */
  lemma {:induction false} ReplaceAllAppend(a: string, b: string, c: char, rep: string)
    ensures ReplaceAll(a + b, c, rep) == ReplaceAll(a, c, rep) + ReplaceAll(b, c, rep)
    decreases |a|
  {
    if a == [] {
      assert a + b == b;
    } else {
      var ab := a + b;
      var h := if a[0] == c then rep else [a[0]];
      assert ab[0] == a[0] && ab[1..] == a[1..] + b;
      ReplaceAllAppend(a[1..], b, c, rep);
      var ra, rb := ReplaceAll(a[1..], c, rep), ReplaceAll(b, c, rep);
      assert ReplaceAll(ab, c, rep) == h + ReplaceAll(ab[1..], c, rep) == h + (ra + rb);
      assert h + (ra + rb) == (h + ra) + rb;
    }
  }

  /** Which of the special characters each entity holds. */
  lemma EntityFacts()
    ensures '<' !in "&lt;" && '<' !in "&gt;" && '<' !in "&quot;" && '<' !in "&#039;"
    ensures '>' !in "&gt;" && '>' !in "&quot;" && '>' !in "&#039;"
    ensures '"' !in "&quot;" && '"' !in "&#039;" && '\'' !in "&#039;"
  {
  }

  /** A character absent from the text (or the one replaced) and from the
      replacement is absent from the result. */
  lemma Absent(s: string, c: char, rep: string, x: char)
    requires (x !in s || x == c) && x !in rep
    ensures x !in ReplaceAll(s, c, rep)
  {
  }

  /** The five characters the escape rewrites. */
  predicate IsSpecial(c: char) {
    c == '&' || c == '<' || c == '>' || c == '"' || c == '\''
  }

  /** The escape exactly as written: five global replacements, ampersand first. */
  function EscapeHtml(s: string): (r: string)
    ensures '<' !in r && '>' !in r && '"' !in r && '\'' !in r
  {
    var a := ReplaceAll(s, '&', "&amp;");
    var b := ReplaceAll(a, '<', "&lt;");
    var c := ReplaceAll(b, '>', "&gt;");
    var d := ReplaceAll(c, '"', "&quot;");
    var r := ReplaceAll(d, '\'', "&#039;");
    EntityFacts();
    Absent(a, '<', "&lt;", '<');
    Absent(b, '>', "&gt;", '<');
    Absent(b, '>', "&gt;", '>');
    Absent(c, '"', "&quot;", '<');
    Absent(c, '"', "&quot;", '>');
    Absent(c, '"', "&quot;", '"');
    Absent(d, '\'', "&#039;", '<');
    Absent(d, '\'', "&#039;", '>');
    Absent(d, '\'', "&#039;", '"');
    Absent(d, '\'', "&#039;", '\'');
    r
  }

  /** The entity each character turns into. */
  function EscapeChar(c: char): string {
    if c == '&' then "&amp;"
    else if c == '<' then "&lt;"
    else if c == '>' then "&gt;"
    else if c == '"' then "&quot;"
    else if c == '\'' then "&#039;"
    else [c]
  }

  /** Reference definition: every character replaced independently by its entity. */
  function EscapeEach(s: string): string {
    if s == [] then [] else EscapeChar(s[0]) + EscapeEach(s[1..])
  }

  /** The chain of replacements distributes over concatenation. */
  lemma EscapeHtmlAppend(a: string, b: string)
    ensures EscapeHtml(a + b) == EscapeHtml(a) + EscapeHtml(b)
  {
    ReplaceAllAppend(a, b, '&', "&amp;");
    var a1 := ReplaceAll(a, '&', "&amp;");
    var a2 := ReplaceAll(b, '&', "&amp;");
    ReplaceAllAppend(a1, a2, '<', "&lt;");
    var b1 := ReplaceAll(a1, '<', "&lt;");
    var b2 := ReplaceAll(a2, '<', "&lt;");
    ReplaceAllAppend(b1, b2, '>', "&gt;");
    var c1 := ReplaceAll(b1, '>', "&gt;");
    var c2 := ReplaceAll(b2, '>', "&gt;");
    ReplaceAllAppend(c1, c2, '"', "&quot;");
    var d1 := ReplaceAll(c1, '"', "&quot;");
    var d2 := ReplaceAll(c2, '"', "&quot;");
    ReplaceAllAppend(d1, d2, '\'', "&#039;");
  }

  lemma ReplaceAllOne(x: char, c: char, rep: string)
    ensures ReplaceAll([x], c, rep) == if x == c then rep else [x]
  {
    assert [x][1..] == [];
  }

  /** On one character the chain of replacements yields that character's entity:
      no entity produced by one step contains a character a later step rewrites. */
  lemma EscapeHtmlOne(x: char)
    ensures EscapeHtml([x]) == EscapeChar(x)
  {
    if x == '&' {
      EscapeAmpOne();
    } else if x == '<' {
      EscapeLtOne();
    } else if x == '>' {
      EscapeGtOne();
    } else if x == '"' {
      EscapeQuotOne();
    } else if x == '\'' {
      EscapeAposOne();
    } else {
      ReplaceAllOne(x, '&', "&amp;");
      ReplaceAllOne(x, '<', "&lt;");
      ReplaceAllOne(x, '>', "&gt;");
      ReplaceAllOne(x, '"', "&quot;");
      ReplaceAllOne(x, '\'', "&#039;");
    }
  }

  lemma EscapeAmpOne()
    ensures EscapeHtml("&") == "&amp;"
  {
    ReplaceAllOne('&', '&', "&amp;");
    var a := ReplaceAll("&", '&', "&amp;");
    assert a == "&amp;";
    assert '<' !in a && '>' !in a && '"' !in a && '\'' !in a;
  }

  lemma EscapeLtOne()
    ensures EscapeHtml("<") == "&lt;"
  {
    ReplaceAllOne('<', '&', "&amp;");
    ReplaceAllOne('<', '<', "&lt;");
    var b := ReplaceAll(ReplaceAll("<", '&', "&amp;"), '<', "&lt;");
    assert b == "&lt;";
    assert '>' !in b && '"' !in b && '\'' !in b;
  }

  lemma EscapeGtOne()
    ensures EscapeHtml(">") == "&gt;"
  {
    ReplaceAllOne('>', '&', "&amp;");
    ReplaceAllOne('>', '<', "&lt;");
    ReplaceAllOne('>', '>', "&gt;");
    var c := ReplaceAll(">", '>', "&gt;");
    assert c == "&gt;";
    assert '"' !in c && '\'' !in c;
  }

  lemma EscapeQuotOne()
    ensures EscapeHtml("\"") == "&quot;"
  {
    ReplaceAllOne('"', '&', "&amp;");
    ReplaceAllOne('"', '<', "&lt;");
    ReplaceAllOne('"', '>', "&gt;");
    ReplaceAllOne('"', '"', "&quot;");
    var d := ReplaceAll("\"", '"', "&quot;");
    assert d == "&quot;";
    assert '\'' !in d;
  }

  lemma EscapeAposOne()
    ensures EscapeHtml("'") == "&#039;"
  {
    ReplaceAllOne('\'', '&', "&amp;");
    ReplaceAllOne('\'', '<', "&lt;");
    ReplaceAllOne('\'', '>', "&gt;");
    ReplaceAllOne('\'', '"', "&quot;");
    ReplaceAllOne('\'', '\'', "&#039;");
  }

  /** Because the ampersand is replaced first and no later entity contains a character
      an earlier step rewrites, the chain of replacements is the per-character escape. */
  lemma {:induction false} EscapeHtmlIsPerCharacter(s: string)
    ensures EscapeHtml(s) == EscapeEach(s)
  {
    if s != [] {
      assert s == [s[0]] + s[1..];
      EscapeHtmlAppend([s[0]], s[1..]);
      EscapeHtmlOne(s[0]);
      EscapeHtmlIsPerCharacter(s[1..]);
    } else {
      assert EscapeHtml(s) == [];
    }
  }

  /** A string without any of the five characters is its own escape. */
  lemma {:induction false} EscapeHtmlIdentity(s: string)
    requires forall i :: 0 <= i < |s| ==> !IsSpecial(s[i])
    ensures EscapeHtml(s) == s
  {
    EscapeHtmlIsPerCharacter(s);
    EscapeEachIdentity(s);
  }

  lemma {:induction false} EscapeEachIdentity(s: string)
    requires forall i :: 0 <= i < |s| ==> !IsSpecial(s[i])
    ensures EscapeEach(s) == s
  {
    if s != [] {
      EscapeEachIdentity(s[1..]);
      assert s == [s[0]] + s[1..];
    }
  }

  /** `t` starts with one of the five entities. */
  predicate StartsEntity(t: string) {
    "&amp;" <= t || "&lt;" <= t || "&gt;" <= t || "&quot;" <= t || "&#039;" <= t
  }

  lemma {:induction false} EscapeEachAmpersands(s: string)
    ensures forall i :: 0 <= i < |EscapeEach(s)| && EscapeEach(s)[i] == '&' ==> StartsEntity(EscapeEach(s)[i..])
  {
    if s != [] {
      var e := EscapeChar(s[0]);
      var rest := EscapeEach(s[1..]);
      var r := EscapeEach(s);
      assert r == e + rest;
      EscapeEachAmpersands(s[1..]);
      forall i | 0 <= i < |r| && r[i] == '&'
        ensures StartsEntity(r[i..])
      {
        if i < |e| {
          EscapeCharAmpersand(s[0], i);
          EntityPrefix(e, r);
        } else {
          assert r[i..] == rest[i - |e|..];
        }
      }
    }
  }

  /** The only ampersand of an escaped character is its first character, which
      starts an entity. */
  lemma EscapeCharAmpersand(c: char, i: nat)
    requires i < |EscapeChar(c)| && EscapeChar(c)[i] == '&'
    ensures i == 0 && StartsEntity(EscapeChar(c))
  {
  }

  lemma EntityPrefix(e: string, r: string)
    requires StartsEntity(e) && e <= r
    ensures StartsEntity(r)
  {
  }

  /** Every ampersand in the escaped text begins one of the five entities, so the
      output never contains a bare `&`. */
  lemma EscapeHtmlAmpersands(s: string)
    ensures forall i :: 0 <= i < |EscapeHtml(s)| && EscapeHtml(s)[i] == '&' ==> StartsEntity(EscapeHtml(s)[i..])
  {
    EscapeHtmlIsPerCharacter(s);
    EscapeEachAmpersands(s);
  }

  /** Decoder for the five entities, used to state that the escape loses nothing. */
  function Unescape(t: string): string
    decreases |t|
  {
    if t == [] then []
    else if "&amp;" <= t then "&" + Unescape(t[5..])
    else if "&lt;" <= t then "<" + Unescape(t[4..])
    else if "&gt;" <= t then ">" + Unescape(t[4..])
    else if "&quot;" <= t then "\"" + Unescape(t[6..])
    else if "&#039;" <= t then "'" + Unescape(t[6..])
    else [t[0]] + Unescape(t[1..])
  }

  /** Decoding the escaped text gives back the original string. */
  lemma {:induction false} UnescapeEscapeHtml(s: string)
    ensures Unescape(EscapeHtml(s)) == s
  {
    EscapeHtmlIsPerCharacter(s);
    UnescapeEscapeEach(s);
  }

  lemma {:induction false} UnescapeEscapeEach(s: string)
    ensures Unescape(EscapeEach(s)) == s
  {
    if s != [] {
      var x := s[0];
      var e := EscapeChar(x);
      var rest := EscapeEach(s[1..]);
      var t := e + rest;
      assert EscapeEach(s) == t;
      UnescapeEscapeEach(s[1..]);
      assert e <= t;
      assert t[|e|..] == rest;
      if x == '&' {
      } else if x == '<' {
        assert t[1] == 'l';
      } else if x == '>' {
        assert t[1] == 'g';
      } else if x == '"' {
        assert t[1] == 'q';
      } else if x == '\'' {
        assert t[1] == '#';
      } else {
        assert t[0] == x;
      }
      assert s == [x] + s[1..];
    }
  }
}
