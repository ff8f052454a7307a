/** Construction of backend URLs from a configured base and a request path
    (src/config/api.js). The base is `VITE_API_URL` from the build
    environment, or the empty string in a co-hosted deployment; here it is a
    parameter. */
module ApiConfig {

  /** `path.startsWith('/')`. */
  predicate StartsWithSlash(path: string) {
    |path| > 0 && path[0] == '/'
  }

  /** The path as it is appended to the base: unchanged when it already
      begins with a slash, otherwise with exactly one slash put in front. */
  function CleanPath(path: string): (clean: string)
    ensures StartsWithSlash(clean)
    ensures |clean| == |path| + (if StartsWithSlash(path) then 0 else 1)
    ensures clean[|clean| - |path|..] == path
    ensures forall i :: 0 <= i < |clean| - |path| ==> clean[i] == '/'
  {
    if StartsWithSlash(path) then path else "/" + path
  }

  /** `apiUrl(path)`: the base followed by the cleaned path. */
  function ApiUrl(base: string, path: string): (url: string)
    ensures |url| == |base| + |path| + (if StartsWithSlash(path) then 0 else 1)
    ensures url[..|base|] == base
    ensures StartsWithSlash(url[|base|..])
    ensures url[|url| - |path|..] == path
  {
    base + CleanPath(path)
  }

  /** The request path recovered from a URL built on `base`: the inverse of
      `ApiUrl` on paths that already start with a slash. */
  function PathOf(base: string, url: string): (path: string)
    requires |base| <= |url| && url[..|base|] == base
    ensures base + path == url
  {
    url[|base|..]
  }

  /** A path that already begins with `/` is appended verbatim: no second
      slash is introduced. */
  lemma ApiUrlKeepsLeadingSlash(base: string, path: string)
    requires StartsWithSlash(path)
    ensures ApiUrl(base, path) == base + path
    ensures |ApiUrl(base, path)| == |base| + |path|
  {
  }

  /** A path without a leading `/` gets exactly one character inserted
      between base and path. */
  lemma ApiUrlInsertsOneSlash(base: string, path: string)
    requires !StartsWithSlash(path)
    ensures ApiUrl(base, path) == base + "/" + path
    ensures |ApiUrl(base, path)| == |base| + |path| + 1
  {
  }

  /** The empty path addresses the base's root. */
  lemma ApiUrlEmptyPath(base: string)
    ensures ApiUrl(base, "") == base + "/"
  {
  }

  /** Cleaning is idempotent: a cleaned path is already clean. */
  lemma CleanPathIdempotent(path: string)
    ensures CleanPath(CleanPath(path)) == CleanPath(path)
  {
  }

  /** Round trip: the path part of a built URL is the cleaned path, which is
      the original path whenever that path already began with `/`. */
  lemma PathOfApiUrl(base: string, path: string)
    ensures PathOf(base, ApiUrl(base, path)) == CleanPath(path)
    ensures StartsWithSlash(path) ==> PathOf(base, ApiUrl(base, path)) == path
  {
    var url := ApiUrl(base, path);
    assert url == base + CleanPath(path);
    assert url[|base|..] == CleanPath(path);
  }

  /** Two paths address the same URL on a fixed base exactly when they clean
      to the same path; in particular `p` and `"/" + p` coincide when `p`
      has no leading slash. */
  lemma ApiUrlSameIffSameCleanPath(base: string, p: string, q: string)
    ensures ApiUrl(base, p) == ApiUrl(base, q) <==> CleanPath(p) == CleanPath(q)
  {
    if ApiUrl(base, p) == ApiUrl(base, q) {
      PathOfApiUrl(base, p);
      PathOfApiUrl(base, q);
    }
  }
}
