/**
 * How the frontend builds the URL of a backend endpoint: the configured
 * base (`VITE_API_BASE_URL`, possibly unset) loses one trailing `/`, and an
 * empty base leaves the endpoint path relative to the page's own origin.
 */
module ApiBase {
  import opened Wrappers

  /** `s.replace(/\/$/, '')`: one `/` at the very end is removed, no more. */
  function StripTrailingSlash(s: string): (r: string)
    ensures |s| > 0 && s[|s| - 1] == '/' ==> r + "/" == s
    ensures !(|s| > 0 && s[|s| - 1] == '/') ==> r == s
  {
    if |s| > 0 && s[|s| - 1] == '/' then s[..|s| - 1] else s
  }

  /** `API_BASE`: an unset variable reads as the empty string. */
  function Base(env: Option<string>): (r: string)
    ensures r == "" <==> env.None? || env.value == "" || env.value == "/"
    ensures env.Some? ==> r == env.value || r + "/" == env.value
  {
    StripTrailingSlash(if env.Some? then env.value else "")
  }

  /** `api(path)`: the path alone under an empty base, else base followed by path. */
  function Api(base: string, path: string): (url: string)
    ensures base == "" ==> url == path
    ensures |url| == |base| + |path|
    ensures url[..|base|] == base && url[|base|..] == path
  {
    if base == "" then path else base + path
  }

  /** A base with or without one trailing `/` is the same base. */
  lemma OneSlashIgnored(t: string)
    requires |t| == 0 || t[|t| - 1] != '/'
    ensures Base(Some(t + "/")) == Base(Some(t)) == t
  {
  }

  /**
   * Stripping is idempotent exactly when the value does not end in `//`:
   * only one slash is removed, so a doubled one leaves a trailing `/`.
   */
  lemma StripIdempotentIff(s: string)
    ensures StripTrailingSlash(StripTrailingSlash(s)) == StripTrailingSlash(s)
      <==> !(|s| >= 2 && s[|s| - 1] == '/' && s[|s| - 2] == '/')
  {
  }

  /**
   * Every endpoint URL ends with the endpoint path, and it is the path alone
   * exactly when the variable is unset, empty or the single character `/`.
   */
  lemma EndpointUrl(env: Option<string>, path: string)
    ensures var url := Api(Base(env), path);
      && url[|url| - |path|..] == path
      && (url == path <==> env.None? || env.value == "" || env.value == "/")
  {
  }
}
