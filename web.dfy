/**
 * The crawler's boundary with `java.net`: an abstract URI record, the reply
 * of the HTTP transport, the collaborators the crawler calls but does not
 * define (given as function values), and the HTML test on a fetched reply.
 */
module Web {
  import opened Wrappers
  import opened JavaText

  /** A `java.net.URI` seen through its components; `None` is a null
      component. Two URIs are the same here when their components are. */
  datatype Uri = Uri(
    scheme: Option<string>,
    authority: Option<string>,
    path: Option<string>,
    query: Option<string>,
    fragment: Option<string>)

  /** What `HttpClient.send` delivers: a response with its status, its first
      `Content-Type` header (if any) and its body decoded to a string, or one of
      the two checked exceptions the crawler catches. `Interrupted` also stands
      for an interrupted wait for an admission slot. */
  datatype Reply =
    | Response(status: int, contentType: Option<string>, body: string)
    | IoFailure
    | Interrupted

  /** One raw anchor as the link pattern captures it: group 1 (the href) and
      group 2 (the inner text). */
  datatype Anchor = Anchor(href: string, text: string)

  /** The library and network behaviour the crawler relies on, left
      uninterpreted:
      - `resolve(base, href)`: `base.resolve(href).normalize()`, `None` when it
        throws;
      - `compose(u)`: whether `new URI(scheme, authority, path, query, null)`
        accepts the components of `u` (it throws `URISyntaxException`
        otherwise);
      - `show(u)`: `u.toString()`;
      - `urlHost(u)`: `u.toURL().getHost()` for an absolute `u`, `None` when
        `toURL` throws `MalformedURLException`;
      - `send(url)`: the HTTP GET of `url`;
      - `extract(body)`: the successive matches of the anchor pattern in
        `body`, in order. */
  datatype Oracles = Oracles(
    resolve: (Uri, string) -> Option<Uri>,
    compose: Uri -> bool,
    show: Uri -> string,
    urlHost: Uri -> Option<string>,
    send: string -> Reply,
    extract: string -> seq<Anchor>)

  const HtmlType: string := "text/html"

  /** The content-type test at the end of `fetch`: the body is handed to the
      crawler exactly when the reply is a response whose `Content-Type` header
      (the empty string when absent) contains `text/html` in any letter case.
      Transport exceptions give no body. */
  function FetchBody(reply: Reply): (r: Option<string>)
    ensures r.Some? <==>
            reply.Response? &&
            exists i :: OccursIgnoringCaseAt(reply.contentType.GetOr(""), HtmlType, i)
    ensures r.Some? ==> r.value == reply.body
  {
    match reply
    case Response(_, contentType, body) =>
      var header := contentType.GetOr("");
      LowerOfLowerCase(HtmlType);
      ContainsIgnoringCase(header, HtmlType);
      if Contains(Lower(header), HtmlType) then Some(body) else None
    case IoFailure => None
    case Interrupted => None
  }

  /** `fetch(url)`: send, then classify. */
  function Fetch(lib: Oracles, url: string): Option<string>
  {
    FetchBody(lib.send(url))
  }

  /** The status code only decides what is logged: two responses that differ
      only in their status are classified alike. */
  lemma FetchIgnoresStatus(ct: Option<string>, body: string, s1: int, s2: int)
    ensures FetchBody(Response(s1, ct, body)) == FetchBody(Response(s2, ct, body))
  {
  }

  /** A missing header counts as the empty string, which contains no
      `text/html`: no body. */
  lemma {:induction false} MissingContentTypeGivesNoBody(status: int, body: string)
    ensures FetchBody(Response(status, None, body)) == None
  {
    assert !OccursIgnoringCaseAt("", HtmlType, 0);
  }

  /** A header such as `Text/HTML; charset=utf-8` hands over the body, whatever
      the status. */
  lemma {:induction false} MixedCaseHtmlGivesBody(status: int, body: string)
    ensures FetchBody(Response(status, Some("Text/HTML; charset=utf-8"), body)) == Some(body)
  {
    var h := "Text/HTML; charset=utf-8";
    assert h[0..9] == "Text/HTML";
    assert SameIgnoringCase('T', 't') && SameIgnoringCase('H', 'h') && SameIgnoringCase('M', 'm')
        && SameIgnoringCase('L', 'l');
    assert EqualsIgnoreCase(h[0..9], HtmlType);
    assert OccursIgnoringCaseAt(h, HtmlType, 0);
  }
}
