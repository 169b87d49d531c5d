/** The seed URL built from the user's input in `main` (CertCrawler.py:66). */
module Seed {

  const Https: string := "https://"

  predicate StartsWith(s: string, prefix: string)
  {
    |prefix| <= |s| && s[..|prefix|] == prefix
  }

  /** `"https://" + domain if not domain.startswith("https://") else domain` */
  function Normalise(domain: string): (r: string)
    ensures StartsWith(r, Https)
    ensures StartsWith(domain, Https) ==> r == domain
    ensures |domain| <= |r| <= |domain| + |Https| && r[|r| - |domain|..] == domain
  {
    if StartsWith(domain, Https) then domain else Https + domain
  }

  /** Any input that does not already start with "https://" gets the prefix in front of
      it, the whole input kept. */
  lemma NormalisePrefixes(domain: string)
    requires !StartsWith(domain, Https)
    ensures Normalise(domain) == Https + domain
  {
  }

  /** Normalising twice is normalising once. */
  lemma NormaliseIdempotent(domain: string)
    ensures Normalise(Normalise(domain)) == Normalise(domain)
  {
  }

  /** An `http://` URL is not rewritten but prefixed. */
  lemma NormaliseHttp(rest: string)
    ensures Normalise("http://" + rest) == "https://http://" + rest
  {
    var s := "http://" + rest;
    assert s[4] == ':' && Https[4] == 's';
    assert !StartsWith(s, Https);
  }
}
