/**
 * The pure decisions the crawl loop makes about one raw anchor: building the
 * link with its label fallback, resolving it against the page, and the scheme
 * and same-host filters.
 */
module Links {
  import opened Wrappers
  import opened JavaText
  import opened Web

  /** A collected link: its label and its href (`label` is a reserved word in
      Dafny, hence `text`). Equal when both parts are equal, as for the
      Java record. */
  datatype Link = Link(text: string, href: string)

  /** What a Java method returning `boolean` did: returned a value, or threw
      an unchecked exception that nobody in the crawler catches. */
  datatype Outcome = Returned(b: bool) | Thrown

  /** `extractLink`: the href with each space escaped; the label with its
      whitespace stripped, or the escaped href when nothing is left of it. */
  function ExtractLink(a: Anchor): (l: Link)
    ensures l.href == EscapeSpaces(a.href) && ' ' !in l.href
    ensures '%' !in a.href ==> UnescapeSpaces(l.href) == a.href
    ensures !AllWhitespace(a.text) ==> l.text == Strip(a.text) && l.text != []
    ensures AllWhitespace(a.text) ==> l.text == l.href
    ensures l.text == [] ==> a.href == []
  {
    var href := EscapeSpaces(a.href);
    var text := Strip(a.text);
    assert '%' !in a.href ==> UnescapeSpaces(href) == a.href by {
      if '%' !in a.href { EscapeRoundTrip(a.href); }
    }
    assert href == [] ==> a.href == [];
    if text == [] then Link(href, href) else Link(text, href)
  }

  /** `normalize(page, href)`: resolve against the page, then rebuild the URI
      from its scheme, authority, path and query with a null fragment. `None`
      when resolving or rebuilding throws. */
  function Normalize(lib: Oracles, page: Uri, href: string): (r: Option<Uri>)
    ensures r.Some? ==> r.value.fragment.None?
    ensures r.Some? <==> lib.resolve(page, href).Some? &&
                         lib.compose(lib.resolve(page, href).value.(fragment := None))
    ensures r.Some? ==> r.value == lib.resolve(page, href).value.(fragment := None)
  {
    match lib.resolve(page, href)
    case None => None
    case Some(u) =>
      var n := Uri(u.scheme, u.authority, u.path, u.query, None);
      if lib.compose(n) then Some(n) else None
  }

  const AllowedSchemes: set<string> := {"http", "https"}

  /** `isHttpLink`: the lower-cased scheme is `http` or `https`, that is, the
      scheme equals one of them ignoring case. A null scheme makes
      `toLowerCase` throw. */
  function IsHttpLink(u: Uri): (v: Outcome)
    ensures v == Thrown <==> u.scheme.None?
    ensures v == Returned(true) <==>
            u.scheme.Some? &&
            (EqualsIgnoreCase(u.scheme.value, "http") || EqualsIgnoreCase(u.scheme.value, "https"))
  {
    match u.scheme
    case None => Thrown
    case Some(s) =>
      EqualsIgnoreCaseIffLower(s, "http");
      EqualsIgnoreCaseIffLower(s, "https");
      assert Lower("http") == "http" && Lower("https") == "https";
      Returned(Lower(s) in AllowedSchemes)
  }

  /** `isSameDomain(base, other)`: both URIs are turned into URLs, base first,
      and their hosts compared ignoring case. A URL that cannot be built
      (`MalformedURLException`) gives false; a URI that is not absolute makes
      `toURL` throw `IllegalArgumentException`, which is not caught. */
  function IsSameDomain(lib: Oracles, base: Uri, other: Uri): (v: Outcome)
    ensures v == Returned(true) <==>
            base.scheme.Some? && other.scheme.Some? &&
            lib.urlHost(base).Some? && lib.urlHost(other).Some? &&
            EqualsIgnoreCase(lib.urlHost(base).value, lib.urlHost(other).value)
    ensures v == Thrown <==>
            base.scheme.None? || (lib.urlHost(base).Some? && other.scheme.None?)
    ensures base.scheme.Some? && other.scheme.Some? ==> v.Returned?
  {
    if base.scheme.None? then Thrown
    else match lib.urlHost(base)
      case None => Returned(false)
      case Some(baseHost) =>
        if other.scheme.None? then Thrown
        else match lib.urlHost(other)
          case None => Returned(false)
          case Some(otherHost) => Returned(EqualsIgnoreCase(baseHost, otherHost))
  }

  /** Host comparison does not depend on letter case: if two URIs have hosts
      equal ignoring case, each is same-domain with the seed when the other
      is. */
  lemma SameDomainIgnoresHostCase(lib: Oracles, base: Uri, u: Uri, w: Uri)
    requires u.scheme.Some? && w.scheme.Some?
    requires lib.urlHost(u).Some? && lib.urlHost(w).Some?
    requires EqualsIgnoreCase(lib.urlHost(u).value, lib.urlHost(w).value)
    ensures IsSameDomain(lib, base, u) == IsSameDomain(lib, base, w)
  {
    if base.scheme.Some? && lib.urlHost(base).Some? {
      var b, x, y := lib.urlHost(base).value, lib.urlHost(u).value, lib.urlHost(w).value;
      EqualsIgnoreCaseEquivalence(b, x, y);
      EqualsIgnoreCaseEquivalence(b, y, x);
      EqualsIgnoreCaseEquivalence(x, y, b);
    }
  }

  /** A resolved URI the crawler keeps: fragment-free, http(s), same host as
      the seed. */
  predicate Qualifies(lib: Oracles, seed: Uri, n: Uri) {
    n.fragment.None? && IsHttpLink(n) == Returned(true) &&
    IsSameDomain(lib, seed, n) == Returned(true)
  }


  /** What the loop body does with one anchor: stop the task (an exception
      escaped), skip it, or keep the link built from it with the resolved
      target. */
  datatype Verdict = Crashed | Skipped | Kept(link: Link, target: Uri)

  /** One turn of the `while (matcher.find())` loop up to the point where the
      link is recorded: build the link, resolve it (skip on failure), test the
      scheme (skip unless http(s)), test the host against the seed (skip
      unless equal ignoring case). */
  function Examine(lib: Oracles, seed: Uri, page: Uri, a: Anchor): (v: Verdict)
    ensures v.Kept? <==>
            Normalize(lib, page, ExtractLink(a).href).Some? &&
            Qualifies(lib, seed, Normalize(lib, page, ExtractLink(a).href).value)
    ensures v.Kept? ==>
            v.target == Normalize(lib, page, ExtractLink(a).href).value &&
            v.link == Link(ExtractLink(a).text, lib.show(v.target))
    ensures v.Crashed? <==>
            Normalize(lib, page, ExtractLink(a).href).Some? &&
            var n := Normalize(lib, page, ExtractLink(a).href).value;
            n.scheme.None? || (IsHttpLink(n) == Returned(true) && IsSameDomain(lib, seed, n).Thrown?)
  {
    var link := ExtractLink(a);
    match Normalize(lib, page, link.href)
    case None => Skipped
    case Some(resolved) =>
      match IsHttpLink(resolved)
      case Thrown => Crashed
      case Returned(false) => Skipped
      case Returned(true) =>
        match IsSameDomain(lib, seed, resolved)
        case Thrown => Crashed
        case Returned(false) => Skipped
        case Returned(true) => Kept(Link(link.text, lib.show(resolved)), resolved)
  }

  /** `l` is the link the loop body keeps for anchor `a` of page `page`. */
  predicate KeptFrom(lib: Oracles, seed: Uri, page: Uri, a: Anchor, l: Link) {
    Examine(lib, seed, page, a).Kept? && Examine(lib, seed, page, a).link == l
  }

  /** A link the loop body can add to `result`: the one kept for some anchor
      of some page, so built by `extractLink`, normalized, and passed by both
      filters. */
  ghost predicate Admissible(lib: Oracles, seed: Uri, l: Link) {
    exists page: Uri, a: Anchor :: KeptFrom(lib, seed, page, a, l)
  }

  /** Every kept link is admissible. */
  lemma KeptIsAdmissible(lib: Oracles, seed: Uri, page: Uri, a: Anchor)
    requires Examine(lib, seed, page, a).Kept?
    ensures Admissible(lib, seed, Examine(lib, seed, page, a).link)
  {
    assert KeptFrom(lib, seed, page, a, Examine(lib, seed, page, a).link);
  }

  /** An admissible link carries the label `extractLink` built from its raw
      anchor, and its href is the string of the normalized URI of that anchor,
      which is fragment-free, http(s) and on the seed's host. */
  lemma AdmissibleMeansChecked(lib: Oracles, seed: Uri, l: Link)
    requires Admissible(lib, seed, l)
    ensures exists page: Uri, a: Anchor ::
              && Normalize(lib, page, ExtractLink(a).href).Some?
              && var n := Normalize(lib, page, ExtractLink(a).href).value;
              && Qualifies(lib, seed, n)
              && l == Link(ExtractLink(a).text, lib.show(n))
  {
    var page: Uri, a: Anchor :| KeptFrom(lib, seed, page, a, l);
    assert Normalize(lib, page, ExtractLink(a).href).Some?;
  }

  /** A link to another scheme (`mailto:`, `ftp:`, ...) is never kept. */
  lemma NonHttpNeverKept(lib: Oracles, seed: Uri, page: Uri, a: Anchor)
    requires Normalize(lib, page, ExtractLink(a).href).Some?
    requires var n := Normalize(lib, page, ExtractLink(a).href).value;
             n.scheme.Some? && !EqualsIgnoreCase(n.scheme.value, "http") &&
             !EqualsIgnoreCase(n.scheme.value, "https")
    ensures Examine(lib, seed, page, a) == Skipped
  {
  }
}
