/**
  URL normalisation (`normalizeUrl`, backend/index.js): an input that does not start with
  `http://` or `https://`, compared without regard to ASCII case (the regular expression
  `/^https?:\/\//i`), gets `http://` put in front of it; any other input is kept as it is.
*/
module Urls {

  const HttpPrefix: string := "http://"
  const HttpsPrefix: string := "https://"

  /**
    ASCII lower case. A case-insensitive JavaScript regular expression without the `u` flag
    never lets a non-ASCII character match an ASCII letter, so this is the folding it uses
    for the letters of the two schemes.
  */
  function AsciiLower(c: char): char {
    if 'A' <= c <= 'Z' then (c as int - 'A' as int + 'a' as int) as char else c
  }

  /** `s` begins with the lower-case ASCII `prefix`, ignoring the case of ASCII letters in `s`. */
  predicate StartsWithIgnoringCase(s: string, prefix: string) {
    |prefix| <= |s| && forall i :: 0 <= i < |prefix| ==> AsciiLower(s[i]) == prefix[i]
  }

  /** `/^https?:\/\//i.test(u)` */
  predicate HasHttpScheme(u: string) {
    StartsWithIgnoringCase(u, HttpPrefix) || StartsWithIgnoringCase(u, HttpsPrefix)
  }

  /** Putting `http://` in front of any string yields a string with a scheme. */
  lemma PrefixedHasScheme(u: string)
    ensures HasHttpScheme(HttpPrefix + u)
  {
    assert (HttpPrefix + u)[..|HttpPrefix|] == HttpPrefix;
  }

  function NormalizeUrl(u: string): (r: string)
    ensures HasHttpScheme(r)
    ensures r == u <==> HasHttpScheme(u)
    ensures r == u || r == HttpPrefix + u
  {
    if !HasHttpScheme(u) then
      PrefixedHasScheme(u);
      HttpPrefix + u
    else
      u
  }

  /** Normalising twice is the same as normalising once. */
  lemma NormalizeIdempotent(u: string)
    ensures NormalizeUrl(NormalizeUrl(u)) == NormalizeUrl(u)
  {
  }

  /** The input always survives, unchanged, at the end of the normalised URL. */
  lemma NormalizeKeepsInput(u: string)
    ensures |NormalizeUrl(u)| >= |u|
    ensures NormalizeUrl(u)[|NormalizeUrl(u)| - |u|..] == u
  {
  }

  /** A bare host gets the default scheme (`example.com` is served as `http://example.com`). */
  lemma NormalizeBareHost()
    ensures NormalizeUrl("example.com") == "http://example.com"
  {
    assert AsciiLower("example.com"[0]) != HttpPrefix[0];
  }

  /** The scheme is recognised without regard to case and kept as written. */
  lemma NormalizeUpperCaseScheme()
    ensures NormalizeUrl("HTTPS://Example.com") == "HTTPS://Example.com"
  {
    assert StartsWithIgnoringCase("HTTPS://Example.com", HttpsPrefix);
  }

  /**
    Only `http://` and `https://` count as a scheme: another scheme, or one with a slash
    missing, is treated as a host and gets `http://` in front.
  */
  lemma NormalizeUnrecognisedSchemes()
    ensures NormalizeUrl("ftp://host") == "http://ftp://host"
    ensures NormalizeUrl("http:/host") == "http://http:/host"
  {
    assert AsciiLower("ftp://host"[0]) != HttpPrefix[0];
    assert AsciiLower("http:/host"[6]) != HttpPrefix[6];
    assert AsciiLower("http:/host"[4]) != HttpsPrefix[4];
  }
}
