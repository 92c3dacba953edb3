/**
 * The crawler object: the seed, the depth bound, the shared `visited` and
 * `result` sets it mutates, and the page counter. `Crawl` is the recursive
 * traversal with its loop over the anchors of a page; its effect on the state
 * is exactly that of `CrawlSpec.Visit`.
 *
 * The source starts every child crawl on a virtual thread and joins them all
 * at the end of the loop. Here each child runs to completion at the point it
 * is spawned (one fixed schedule). Under real interleaving which task wins a
 * claim, and so at what depth a URL is explored, is nondeterministic.
 */
module Crawling {
  import opened Web
  import opened Links
  import opened CrawlSpec

  /** `pagesVisited`: a static `AtomicInteger`, so one counter shared by every
      crawler of the process. */
  class Counter {
    var value: int

    constructor ()
      ensures value == 0
    {
      value := 0;
    }

    method IncrementAndGet() returns (r: int)
      modifies this
      ensures value == old(value) + 1 && r == value
    {
      value := value + 1;
      r := value;
    }
  }

  class Crawler {
    const baseUri: Uri
    const maxDepth: int
    const lib: Oracles
    const pagesVisited: Counter

    var visited: set<string>
    var result: set<Link>
    /** The hrefs in the order they were claimed. */
    ghost var claims: seq<string>
    /** Every call of `fetch`, with the depth of the crawl that made it. */
    ghost var fetches: seq<FetchCall>

    function Cfg(): Config {
      Config(baseUri, maxDepth, lib)
    }

    ghost function State(): CrawlState
      reads this, pagesVisited
    {
      CrawlState(visited, result, pagesVisited.value, claims, fetches)
    }

    /** A crawler starts with nothing visited and nothing collected; the seed
        is not claimed. */
    constructor (baseUri: Uri, maxDepth: int, lib: Oracles, pagesVisited: Counter)
      ensures this.baseUri == baseUri && this.maxDepth == maxDepth
      ensures this.lib == lib && this.pagesVisited == pagesVisited
      ensures State() == Initial(pagesVisited.value)
    {
      this.baseUri := baseUri;
      this.maxDepth := maxDepth;
      this.lib := lib;
      this.pagesVisited := pagesVisited;
      visited := {};
      result := {};
      claims := [];
      fetches := [];
    }

    /** `start`: crawl from the seed at depth 0 and wait for the whole tree of
        crawls. On a fresh crawler the counter then grew by the number of
        visited hrefs, each href was claimed once and is the href of a
        collected link, every collected link is admissible and was kept from
        an anchor of a fetched page, no page was fetched beyond the depth
        bound, and no href below the seed was crawled twice. */
    method Start()
      modifies this, pagesVisited
      ensures State() == Visit(Cfg(), baseUri, 0, old(State()))
      ensures old(State()) == Initial(old(pagesVisited.value)) ==>
                FreshOutcome(Cfg(), old(pagesVisited.value), State())
    {
      ghost var count := pagesVisited.value;
      Crawl(baseUri, 0);
      FreshCrawl(Cfg(), count);
    }

    /** `crawl(uri, depth)`: the state changes as `Visit` says, which only
        extends it. Past the depth bound it returns before calling `fetch`
        and changes nothing; when the fetch yields no body only that fetch
        happened. */
    method Crawl(uri: Uri, depth: int)
      modifies this, pagesVisited
      ensures State() == Visit(Cfg(), uri, depth, old(State()))
      ensures Extends(Cfg(), old(State()), State())
      ensures depth > maxDepth ==> State() == old(State())
      ensures depth <= maxDepth && Fetch(lib, lib.show(uri)).None? ==>
                State() == old(State()).(fetches := old(fetches) + [FetchCall(lib.show(uri), depth)])
      decreases maxDepth + 1 - depth, 2
    {
      ghost var before := State();
      VisitGrows(Cfg(), uri, depth, before);
      if depth > maxDepth {
        return;
      }
      var url := lib.show(uri);
      fetches := fetches + [FetchCall(url, depth)];
      var body := Fetch(lib, url);
      if body.None? {
        return;
      }
      var anchors := lib.extract(body.value);
      ghost var start := State();
      assert Visit(Cfg(), uri, depth, before) == Scan(Cfg(), uri, depth, anchors, start);
      for i := 0 to |anchors|
        invariant Scan(Cfg(), uri, depth, anchors[i..], State()) == Scan(Cfg(), uri, depth, anchors, start)
      {
        assert anchors[i..][1..] == anchors[i + 1..];
        var stop := HandleAnchor(uri, depth, anchors[i]);
        if stop {
          return;
        }
      }
    }

    /** One turn of the loop of `crawl` on page `page`: build and normalize the
        link, filter it, record it, and claim and crawl its target. It stops
        the task (`stop`) exactly when one of the filters threw, having
        changed nothing; otherwise the new state is `Step` of the old one for
        a kept link, and the old one for a skipped link. */
    method HandleAnchor(page: Uri, depth: int, a: Anchor) returns (stop: bool)
      requires depth <= maxDepth
      modifies this, pagesVisited
      ensures stop <==> Examine(lib, baseUri, page, a).Crashed?
      ensures State() == match Examine(lib, baseUri, page, a)
                         case Kept(link, target) => Step(Cfg(), depth, link, target, old(State()))
                         case _ => old(State())
      decreases maxDepth + 1 - depth, 1
    {
      ghost var v := Examine(lib, baseUri, page, a);
      var link := ExtractLink(a);
      var resolved := Normalize(lib, page, link.href);
      if resolved.None? {
        assert v == Skipped;
        return false;
      }
      var http := IsHttpLink(resolved.value);
      if http.Thrown? {
        assert v == Crashed;
        return true;
      }
      if !http.b {
        assert v == Skipped;
        return false;
      }
      var same := IsSameDomain(lib, baseUri, resolved.value);
      if same.Thrown? {
        assert v == Crashed;
        return true;
      }
      if !same.b {
        assert v == Skipped;
        return false;
      }
      var normalized := Link(link.text, lib.show(resolved.value));
      assert v == Kept(normalized, resolved.value);
      Follow(depth, normalized, resolved.value);
      return false;
    }

    /** The end of the loop body for a kept link: add it to `result`, then
        claim its href in `visited`; only the task whose claim succeeds counts
        the page and crawls the target one level deeper. */
    method Follow(depth: int, link: Link, target: Uri)
      requires depth <= maxDepth
      modifies this, pagesVisited
      ensures State() == Step(Cfg(), depth, link, target, old(State()))
      decreases maxDepth + 1 - depth, 0
    {
      ghost var recorded := State().(result := result + {link});
      result := result + {link};
      var added := link.href !in visited;
      visited := visited + {link.href};
      if added {
        claims := claims + [link.href];
        var count := pagesVisited.IncrementAndGet();
        assert State() == Claim(recorded, link.href);
        Crawl(target, depth + 1);
      }
    }
  }
}
