/**
  `toPublicPath`: a path made fit for a URL inside generated CSS and HTML, by
  turning every backslash into a forward slash.
 */
module PublicPath {

  /** One character of `path.replace(/\\/g, '/')`. */
  function PublicChar(c: char): char
  {
    if c == '\\' then '/' else c
  }

  /** Every backslash of `p` replaced by a forward slash, all other characters kept in place. */
  function ToPublicPath(p: seq<char>): (r: seq<char>)
    ensures |r| == |p|
    ensures forall i :: 0 <= i < |p| ==> r[i] == (if p[i] == '\\' then '/' else p[i])
  {
    if |p| == 0 then [] else [PublicChar(p[0])] + ToPublicPath(p[1..])
  }

  /** The public path never holds a backslash. */
  lemma ToPublicPathHasNoBackslash(p: seq<char>)
    ensures '\\' !in ToPublicPath(p)
  {
  }

  /** A path without backslashes is already public. */
  lemma ToPublicPathIdentity(p: seq<char>)
    requires '\\' !in p
    ensures ToPublicPath(p) == p
  {
    assert forall i :: 0 <= i < |p| ==> p[i] != '\\';
  }

  /** Normalising twice is normalising once. */
  lemma ToPublicPathIdempotent(p: seq<char>)
    ensures ToPublicPath(ToPublicPath(p)) == ToPublicPath(p)
  {
    ToPublicPathHasNoBackslash(p);
    ToPublicPathIdentity(ToPublicPath(p));
  }

  /** Normalisation works character by character, so it distributes over concatenation. */
  lemma ToPublicPathConcat(a: seq<char>, b: seq<char>)
    ensures ToPublicPath(a + b) == ToPublicPath(a) + ToPublicPath(b)
  {
  }

  /** A prefix without backslashes passes through unchanged in front of the rest. */
  lemma ToPublicPathAfterPlainPrefix(prefix: seq<char>, p: seq<char>)
    requires '\\' !in prefix
    ensures ToPublicPath(prefix + p) == prefix + ToPublicPath(p)
  {
    ToPublicPathConcat(prefix, p);
    ToPublicPathIdentity(prefix);
  }
}
