/**
 * `validateProxyUrl` (bot.js:122-130). Whether the WHATWG URL parser accepts a
 * string (`new URL(url)` not throwing) is a parameter, `parses`.
 */
module Proxy {
  import opened Wrappers
  import opened Text

  /** A present, non-empty URL that the parser accepts and that starts with `http://` or `https://`. */
  function ValidateProxyUrl(url: Option<string>, parses: string -> bool): (ok: bool)
    ensures ok ==> url.Some? && parses(url.value)
    ensures ok ==>
      && |url.value| >= 7 && url.value[..4] == "http"
      && (url.value[4..7] == "://" || (|url.value| >= 8 && url.value[4..8] == "s://"))
  {
    if url.None? || url.value == [] then false
    else parses(url.value) && (StartsWith(url.value, "http://") || StartsWith(url.value, "https://"))
  }

  /** A missing or empty URL is refused whatever the parser would say. */
  lemma MissingUrlRejected(parses: string -> bool)
    ensures !ValidateProxyUrl(None, parses)
    ensures !ValidateProxyUrl(Some(""), parses)
  {
  }

  /** Conversely, every parsable URL with an `http` or `https` scheme, spelt in lower case, is accepted. */
  lemma HttpUrlAccepted(url: string, parses: string -> bool)
    requires parses(url)
    requires |url| >= 7 && url[..4] == "http"
    requires url[4..7] == "://" || (|url| >= 8 && url[4..8] == "s://")
    ensures ValidateProxyUrl(Some(url), parses)
  {
    if url[4..7] == "://" {
      assert url[..7] == url[..4] + url[4..7];
    } else {
      assert url[..8] == url[..4] + url[4..8];
    }
  }

  /** The scheme test is case-sensitive: `HTTP://host` is refused even where the parser accepts it. */
  lemma SchemeIsCaseSensitive(url: string, parses: string -> bool)
    requires |url| >= 4 && url[..4] != "http"
    ensures !ValidateProxyUrl(Some(url), parses)
  {
  }

  /**
   * A URL starting with whitespace fails the prefix test whatever the parser
   * says. A `PROXY_URL` read from the proxy file never starts with whitespace,
   * because every stored value is trimmed; the case only arises for a URL given
   * some other way.
   */
  lemma LeadingSpaceRejected(url: string, parses: string -> bool)
    requires |url| >= 1 && IsSpace(url[0])
    ensures !ValidateProxyUrl(Some(url), parses)
  {
  }
}
