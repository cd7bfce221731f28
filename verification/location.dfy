/** The location fragment as the browser keeps it: what `location.hash` reads
    back after the page writes to it. */
module Location {
  import opened Text
  import opened Uri

  /** The text after one leading `#`, which the `hash` setter drops. */
  function AfterHash(written: string): string {
    if written != [] && written[0] == '#' then written[1..] else written
  }

  /** The `hash` getter: `""` for an empty fragment, otherwise `#` and the fragment. */
  function Hashed(f: string): string {
    if f == [] then [] else "#" + f
  }

  /** What `location.hash` reads after `location.hash = written` (the `hash` setter
      and getter of the HTML Standard over the URL Standard's fragment state): one
      leading `#` is dropped, the rest is stored through `FragmentEncode`, and an
      empty fragment reads as `""`, anything else as `#` and the fragment. */
  function StoredHash(written: string): (h: string)
    ensures h == [] || (|h| >= 2 && h[0] == '#' && FragmentSafe(h[1..]))
  {
    var f := FragmentEncode(AfterHash(written));
    assert f != [] ==> ("#" + f)[1..] == f;
    Hashed(f)
  }

  /** The values `location.hash` can read: exactly those a second store leaves alone. */
  lemma StoredHashFixed(h: string)
    ensures StoredHash(h) == h <==> h == [] || (|h| >= 2 && h[0] == '#' && FragmentSafe(h[1..]))
  {
    if |h| >= 2 && h[0] == '#' && FragmentSafe(h[1..]) {
      assert h == "#" + h[1..];
    }
  }

  /** Storing what was read back changes nothing. */
  lemma StoredHashIdempotent(written: string)
    ensures StoredHash(StoredHash(written)) == StoredHash(written)
  {
    StoredHashFixed(StoredHash(written));
  }

  /** Below a prefix the fragment encoding leaves alone, the stored hash is the
      prefix followed by the encoded rest. */
  lemma StoredUnderPrefix(prefix: string, x: string)
    requires |prefix| >= 2 && prefix[0] == '#' && FragmentSafe(prefix[1..])
    ensures StoredHash(prefix + x) == prefix + FragmentEncode(x)
  {
    AfterHashConcat(prefix, x);
    EncodeAfterSafe(prefix[1..], x);
    HashedTail(prefix, FragmentEncode(x));
  }

  lemma AfterHashConcat(prefix: string, x: string)
    requires |prefix| >= 1 && prefix[0] == '#'
    ensures AfterHash(prefix + x) == prefix[1..] + x
  {
    assert (prefix + x)[0] == '#';
  }

  lemma HashedTail(prefix: string, e: string)
    requires |prefix| >= 2 && prefix[0] == '#'
    ensures Hashed(prefix[1..] + e) == prefix + e
  {
    assert prefix == "#" + prefix[1..];
    assert "#" + (prefix[1..] + e) == ("#" + prefix[1..]) + e;
  }

  lemma EncodeAfterSafe(p: string, x: string)
    requires FragmentSafe(p)
    ensures FragmentEncode(p + x) == p + FragmentEncode(x)
  {
    FragmentEncodeAppend(p, x);
  }
}
