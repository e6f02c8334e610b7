/**
 * The analysis server's request path handling: the path after the
 * server's own address is the url to analyse.
 */
module Server {
  import opened Wrappers

  /** The text every rejection starts with; the offending path follows it. */
  const InvalidUrlPrefix: string := "Invalid URL format. Expected /http://... or /https://..., got: "

  /** A url the server will fetch: one with an http or https scheme. */
  predicate HasWebScheme(url: string) {
    "http://" <= url || "https://" <= url
  }

  /** The path with one leading slash removed, if it has one. */
  function StripSlash(path: string): (r: string)
    ensures path == r || path == "/" + r
    ensures |path| > 0 && path[0] == '/' ==> |r| == |path| - 1
    ensures !(|path| > 0 && path[0] == '/') ==> r == path
  {
    if |path| > 0 && path[0] == '/' then
      assert path == "/" + path[1..];
      path[1..]
    else path
  }

  /**
   * The url a request path names: the path without its one leading slash,
   * accepted only when it carries an http or https scheme; otherwise an
   * error that quotes the whole path.
   */
  function ExtractTargetUrl(path: string): (r: Result<string, string>)
    ensures r.Ok? <==> HasWebScheme(StripSlash(path))
    ensures r.Ok? ==> r.value == StripSlash(path) && HasWebScheme(r.value)
    ensures r.Err? ==> r.error == InvalidUrlPrefix + path
  {
    var target := StripSlash(path);
    if !("http://" <= target) && !("https://" <= target) then
      Err(InvalidUrlPrefix + path)
    else
      Ok(target)
  }

  /**
   * An accepted url is the path itself or the path minus its first
   * character, which was a slash; only one slash is ever removed, since the
   * url starts with its scheme.
   */
  lemma AcceptedIsSuffix(path: string)
    requires ExtractTargetUrl(path).Ok?
    ensures var url := ExtractTargetUrl(path).value;
            && url == path[|path| - |url|..]
            && (url == path || path == "/" + url)
            && url[0] != '/'
  {
    var url := ExtractTargetUrl(path).value;
    assert url[0] == 'h';
    if url != path {
      assert path == "/" + url;
      assert path[1..] == url;
    }
  }

  /** Extracting again from an accepted url gives the same url back. */
  lemma ExtractIdempotent(path: string)
    requires ExtractTargetUrl(path).Ok?
    ensures ExtractTargetUrl(ExtractTargetUrl(path).value) == ExtractTargetUrl(path)
  {
    var url := ExtractTargetUrl(path).value;
    assert url[0] == 'h';
  }

  /** A path is accepted exactly when the url it carries is. */
  lemma SlashIsOptional(url: string)
    requires |url| == 0 || url[0] != '/'
    ensures ExtractTargetUrl("/" + url) == (if HasWebScheme(url) then Ok(url) else Err(InvalidUrlPrefix + ("/" + url)))
    ensures ExtractTargetUrl(url) == (if HasWebScheme(url) then Ok(url) else Err(InvalidUrlPrefix + url))
  {
    assert ("/" + url)[1..] == url;
  }

  /** Any url written as a web scheme followed by more text is accepted, with or without the slash. */
  lemma SchemeAccepted(scheme: string, rest: string)
    requires scheme == "http://" || scheme == "https://"
    ensures ExtractTargetUrl("/" + (scheme + rest)) == Ok(scheme + rest)
    ensures ExtractTargetUrl(scheme + rest) == Ok(scheme + rest)
  {
    var url := scheme + rest;
    assert url[..|scheme|] == scheme;
    assert HasWebScheme(url);
    SlashIsOptional(url);
  }

  /** The server's accepted examples: an https url behind the slash. */
  lemma AcceptedHttpsExample()
    ensures ExtractTargetUrl("/https://example.com") == Ok("https://example.com")
    ensures ExtractTargetUrl("https://example.com") == Ok("https://example.com")
  {
    assert "https://" + "example.com" == "https://example.com";
    SchemeAccepted("https://", "example.com");
  }

  /** The server's accepted examples: an http url with a path. */
  lemma AcceptedHttpExample()
    ensures ExtractTargetUrl("/http://example.com/foo") == Ok("http://example.com/foo")
  {
    assert "http://" + "example.com/foo" == "http://example.com/foo";
    SchemeAccepted("http://", "example.com/foo");
  }

  /** The server's rejected examples. */
  lemma RejectedExamples()
    ensures ExtractTargetUrl("/ftp://example.com").Err?
    ensures ExtractTargetUrl("invalid-url").Err?
  {
    SlashIsOptional("ftp://example.com");
    SlashIsOptional("invalid-url");
    assert "ftp://example.com"[0] == 'f';
    assert "invalid-url"[0] == 'i';
  }
}
