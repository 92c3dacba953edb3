# Crawler engine, modelled in Dafny

This project models the crawl engine of `org.bernhardson.Crawler`, a same-domain web
crawler. Starting from a seed URI, `crawl(uri, depth)`:

- stops past `maxDepth`;
- fetches the page and keeps its body only when the reply is HTML;
- walks the anchors of the page in order, and for each one:
  - builds a link (spaces in the href escaped, the label stripped, the escaped href as
    the fallback label);
  - resolves the href against the page and drops its fragment;
  - keeps the link only if its scheme is http(s) and its host equals the seed's host
    ignoring case;
  - adds the `(label, href)` pair to the shared `result` set;
  - claims the href in the shared `visited` set. Only the task whose claim succeeds
    counts the page in the static `pagesVisited` counter and crawls the target one
    level deeper.

Layout:

- `java_text.dfy` (module `JavaText`): the `java.lang.String` operations the decisions
  use. These are `strip` with `Character.isWhitespace`, `replace(" ", "%20")`,
  `toLowerCase`, `contains` and `equalsIgnoreCase`.
- `web.dfy` (module `Web`):
  - the abstract URI record (scheme, authority, path, query, fragment);
  - the transport's reply;
  - the raw anchor;
  - `Oracles`, the uninterpreted collaborators: URI resolution, URI rebuilding,
    `toString`, `toURL().getHost()`, the HTTP send and the anchor extraction;
  - the HTML classification that ends `fetch`.
- `links.dfy` (module `Links`): the pure per-anchor decisions `extractLink`, `normalize`,
  `isHttpLink` and `isSameDomain`, and `Examine`, their composition in loop order.
- `crawl_spec.dfy` (module `CrawlSpec`): the crawl as functions of the crawler state.
  `Visit` is `crawl`, `Scan` is its loop and `Step` is the end of one turn. The module
  also holds the lemmas about them. The state carries two logs the program does not keep:
  - the claimed hrefs, in claim order;
  - every `fetch` call, with its depth.
- `crawler.dfy` (module `Crawling`):
  - `Counter`, for the static `AtomicInteger`;
  - `Crawler`, with the `visited`/`result` set fields and the recursive `Crawl` method
    with its loop. `Crawl` is proved to change the state exactly as `CrawlSpec.Visit`
    says.
- `wrappers.dfy` (module `Wrappers`): `Option`.

Non-determinism: the program runs each child crawl on its own virtual thread. The model
fixes one schedule: depth first, each child run to completion when it is spawned. Under
real interleaving, which task wins a claim is nondeterministic, and so is the depth at
which a URL is explored. In every schedule the sets only grow and each href is claimed
once.

Exceptions: `isHttpLink` calls `toLowerCase` on a null scheme, and `toURL` is called on a
URI that is not absolute. Both throw an unchecked exception that nothing in `crawl`
catches. The model gives these calls the outcome `Thrown`. A `Thrown` outcome ends the
current task's loop and keeps everything done so far, as the dying thread does.

Labels: for an anchor whose stripped label is empty, the label is the escaped raw href
(`Crawler.java:150-153`), not the resolved absolute href. For such an anchor the stored
pair is therefore `(escaped raw href, resolved href)`. `Links.ExtractLink` and
`Links.Examine` state this.

## Model

| member | source | states |
|---|---|---|
| JavaText.IsWhitespace | src/main/java/org/bernhardson/Crawler.java:151 | `Character.isWhitespace`: no contract of its own; it is the whitespace set the contracts of `StripLeading`, `StripTrailing` and `Strip` are stated in |
| JavaText.StripLeading | src/main/java/org/bernhardson/Crawler.java:151 | the result is a suffix of the input, the dropped prefix is all whitespace, and the result does not start with whitespace |
| JavaText.StripTrailing | src/main/java/org/bernhardson/Crawler.java:151 | the result is a prefix of the input, the dropped suffix is all whitespace, and the result does not end with whitespace |
| JavaText.Strip | src/main/java/org/bernhardson/Crawler.java:151 | `strip` gives an infix with only whitespace around it and non-whitespace at both ends; it is empty exactly when the input is all whitespace |
| JavaText.StripPhases | src/main/java/org/bernhardson/Crawler.java:151 | dropping leading and then trailing whitespace leaves a stretch with only whitespace around it and non-whitespace at its ends, empty exactly when the whole label was whitespace |
| JavaText.StripIdempotent | src/main/java/org/bernhardson/Crawler.java:151 | stripping an already stripped label changes nothing |
| JavaText.EscapeSpaces | src/main/java/org/bernhardson/Crawler.java:150 | the escaped href contains no space, is no shorter, and is unchanged when there was no space; `EscapeAppend` and `EscapeOneChar` fix it completely |
| JavaText.EscapeAppend | src/main/java/org/bernhardson/Crawler.java:150 | `replace(" ", "%20")` works character by character: escaping a concatenation concatenates the escaped parts |
| JavaText.EscapeOneChar | src/main/java/org/bernhardson/Crawler.java:150 | a single space becomes `%20` and any other single character is kept, so with `EscapeAppend` every space becomes `%20` and the rest is kept in order |
| JavaText.EscapeRoundTrip | src/main/java/org/bernhardson/Crawler.java:150 | for an href without `%`, turning each `%20` back into a space restores the raw href, so the escaping loses nothing |
| JavaText.Lower | src/main/java/org/bernhardson/Crawler.java:202 | `toLowerCase`: no contract of its own; `LowerOfLowerCase`, `LowerSlice` and `SameIgnoringCaseIffLower` carry its properties |
| JavaText.SameIgnoringCaseIffLower | src/main/java/org/bernhardson/Crawler.java:168 | the per-character test of `equalsIgnoreCase` holds exactly when the lower-case forms are equal |
| JavaText.EqualsIgnoreCaseIffLower | src/main/java/org/bernhardson/Crawler.java:168 | two strings are equal ignoring case exactly when their lower-case forms are equal |
| JavaText.EqualsIgnoreCase | src/main/java/org/bernhardson/Crawler.java:168 | `equalsIgnoreCase`: no contract of its own; it is the independent definition (equal lengths, each pair of characters equal ignoring case) that `EqualsIgnoreCaseIffLower` and `EqualsIgnoreCaseEquivalence` are about |
| JavaText.EqualsIgnoreCaseEquivalence | src/main/java/org/bernhardson/Crawler.java:168 | `equalsIgnoreCase` is reflexive, symmetric and transitive |
| JavaText.Contains | src/main/java/org/bernhardson/Crawler.java:202 | `contains` is true exactly when the needle occurs at some position |
| JavaText.ContainsIgnoringCase | src/main/java/org/bernhardson/Crawler.java:202 | lower-casing then testing `contains` for a lower-case needle is the same as finding a stretch equal to it ignoring case |
| JavaText.OccursIgnoringCaseIffLower | src/main/java/org/bernhardson/Crawler.java:202 | at one position, a lower-case needle occurs in the lower-cased header exactly when the header's stretch there equals it ignoring case |
| JavaText.LowerOfLowerCase | src/main/java/org/bernhardson/Crawler.java:202 | a string with no upper-case letter is its own lower-case form, as `text/html` is |
| JavaText.LowerSlice | src/main/java/org/bernhardson/Crawler.java:202 | lower-casing commutes with taking a slice |
| Web.Fetch | src/main/java/org/bernhardson/Crawler.java:187-211 | `fetch`: no contract of its own; it is the classification `FetchBody` applied to the reply of `send`, so the contract of `FetchBody` describes it |
| Web.FetchBody | src/main/java/org/bernhardson/Crawler.java:201-210 | a body comes back exactly when the reply is a response whose Content-Type, with `""` for a missing header, contains `text/html` in any case; it is the response body; IO and interrupt failures give none |
| Web.FetchIgnoresStatus | src/main/java/org/bernhardson/Crawler.java:195-200 | the status code does not change the outcome: 3xx and 4xx/5xx are only logged |
| Web.MissingContentTypeGivesNoBody | src/main/java/org/bernhardson/Crawler.java:201-204 | with no Content-Type header no body is returned |
| Web.MixedCaseHtmlGivesBody | src/main/java/org/bernhardson/Crawler.java:201-203 | `Text/HTML; charset=utf-8` hands over the body |
| Links.ExtractLink | src/main/java/org/bernhardson/Crawler.java:149-156 | the href is the raw href with every space escaped (`EscapeSpaces`), has no space, and for a raw href without `%` unescapes back to it; the label is the stripped text when that is non-empty, otherwise the escaped href; an empty label comes only from an empty href |
| Links.Normalize | src/main/java/org/bernhardson/Crawler.java:135-147 | the result has no fragment; it exists exactly when resolving and rebuilding both succeed, and is the resolved URI with its fragment dropped |
| Links.IsHttpLink | src/main/java/org/bernhardson/Crawler.java:120-126 | throws exactly when the scheme is null; true exactly when the scheme equals `http` or `https` ignoring case |
| Links.IsSameDomain | src/main/java/org/bernhardson/Crawler.java:164-179 | true exactly when both URIs are absolute, both URLs build, and their hosts are equal ignoring case; throws exactly when the base is not absolute, or the base URL builds and the other is not absolute; never throws for two absolute URIs |
| Links.SameDomainIgnoresHostCase | src/main/java/org/bernhardson/Crawler.java:168 | two URIs whose hosts differ only in case get the same same-domain verdict against the seed |
| Links.Examine | src/main/java/org/bernhardson/Crawler.java:89-97 | a link is kept exactly when it normalizes and qualifies (no fragment, http(s), seed host); the kept pair is the built label with the resolved URI's string; the task stops exactly when the scheme is null, or the link is http(s) and the host test throws |
| Links.KeptIsAdmissible | src/main/java/org/bernhardson/Crawler.java:91-98 | every link the loop body keeps is admissible: it is the pair built by `extractLink` and `normalize` for some page and raw anchor, with both filters passed |
| Links.AdmissibleMeansChecked | src/main/java/org/bernhardson/Crawler.java:89-98 | an admissible link came from some page and raw anchor: its label is the one `extractLink` built, and its href is the string of that anchor's normalized URI, which is fragment-free, http(s) and on the seed's host |
| Links.NonHttpNeverKept | src/main/java/org/bernhardson/Crawler.java:120-126 | a link with a scheme other than http(s) is skipped |
| CrawlSpec.Visit | src/main/java/org/bernhardson/Crawler.java:78-118 | `crawl`: no contract of its own; `Crawling.Crawler.Crawl` is proved to change the state exactly as it says, and `VisitGrows`, `VisitAtMaxDepth`, `VisitFetchesPageFirst` and `FreshCrawl` carry its properties |
| CrawlSpec.Scan | src/main/java/org/bernhardson/Crawler.java:89-109 | the anchor loop: no contract of its own; `ScanGrows`, `ScanAtMaxDepthFetchesNothing`, `ScanRecordsEveryKeptLink` and `RepeatedAnchorIsIdempotent` carry its properties |
| CrawlSpec.Step | src/main/java/org/bernhardson/Crawler.java:96-108 | the end of one loop turn for a kept link: no contract of its own; `StepGrows`, `StepRecords`, `StepTwice` and `StepAtMaxDepth` carry its properties |
| CrawlSpec.Claim | src/main/java/org/bernhardson/Crawler.java:101-102 | a successful `visited.add` and `incrementAndGet`: no contract of its own; `StepGrows` proves it keeps the `Extends` invariant |
| CrawlSpec.VisitGrows | src/main/java/org/bernhardson/Crawler.java:78-118 | a crawl only grows `visited` and `result` and only appends to the logs; each newly claimed href was unvisited, is claimed once, and is the href of an admissible link in `result` (`ClaimsBacked`), so only filtered links are claimed and crawled; `visited` grows by exactly the new claims and the counter by their number; every new result is admissible, the link the loop body keeps for some page and anchor; every fetch is at a depth between `depth` and `maxDepth`, at `depth` only for the crawled page, and deeper only for hrefs claimed by this crawl; every fetch after the page's own is deeper, and no two deeper fetches ask for the same href, so each href is child-crawled at most once |
| CrawlSpec.ScanGrows | src/main/java/org/bernhardson/Crawler.java:89-109 | the loop over a page's anchors extends the state in the same way, claims only hrefs of admissible recorded links, and every fetch it causes is deeper than the page, is of an href claimed meanwhile, and asks for an href no other of them asks for |
| CrawlSpec.StepGrows | src/main/java/org/bernhardson/Crawler.java:96-108 | recording and claiming one kept link extends the state in the same way, and its claim, like every claim of the child, is the href of an admissible recorded link; the child's fetches are deeper than the page, of hrefs unvisited before the step, and never repeat one |
| CrawlSpec.ClaimsBackedTrans | src/main/java/org/bernhardson/Crawler.java:89-109 | two successive stretches of crawling that claim only hrefs of admissible recorded links together claim only such hrefs, since `result` only grows |
| CrawlSpec.VisitFinds | src/main/java/org/bernhardson/Crawler.java:78-118 | every link a crawl adds to `result` was kept by the loop body from an anchor of a page whose URL the crawl state shows as fetched |
| CrawlSpec.ScanFinds | src/main/java/org/bernhardson/Crawler.java:86-109 | the loop over the anchors of a fetched page adds to `result` only links kept from that page's anchors or found by the child crawls on pages they fetched |
| CrawlSpec.StepFinds | src/main/java/org/bernhardson/Crawler.java:96-108 | recording a link found on a fetched page, then claiming and crawling its target, adds only links found on fetched pages |
| CrawlSpec.ResultsFoundTrans | src/main/java/org/bernhardson/Crawler.java:89-109 | two successive stretches that each add only links found on fetched pages together add only such links, since the fetch log only grows |
| CrawlSpec.ChildFetches | src/main/java/org/bernhardson/Crawler.java:101-106 | given that the child crawl started by a successful claim fetches its own page first and once at its depth, and deeper only hrefs it claimed and none twice, the whole step fetches below the page only hrefs unvisited before the claim and none twice |
| CrawlSpec.FetchesDistinctTrans | src/main/java/org/bernhardson/Crawler.java:89-109 | two successive stretches of crawling, each fetching only hrefs it claimed and none twice, together fetch none twice |
| CrawlSpec.PageFetchFirst | src/main/java/org/bernhardson/Crawler.java:81-89 | a crawl that fetches its own page and then only deeper fetches that page first and once at its depth, and deeper nothing twice |
| CrawlSpec.ScanAtMaxDepthFetchesNothing | src/main/java/org/bernhardson/Crawler.java:81-106 | on a page at the depth bound the anchor loop fetches nothing more (that its links are still recorded and claimed is `StepAtMaxDepth`) |
| CrawlSpec.ScanAtMaxDepthRecordsOwnLinks | src/main/java/org/bernhardson/Crawler.java:89-106 | on a page at the depth bound the loop adds to `result` only links kept from that page's own anchors (`KeptLinks`) |
| CrawlSpec.VisitAtMaxDepthRecordsOwnLinks | src/main/java/org/bernhardson/Crawler.java:78-106 | a crawl at the depth bound adds to `result` only links kept from the anchors of the body fetched for its own page, and nothing when no body comes back |
| CrawlSpec.DepthZeroRecordsSeedLinksOnly | src/main/java/org/bernhardson/Crawler.java:52-106 | with `maxDepth` 0 a fresh crawl fetches only the seed, and every result is a link kept from an anchor of the seed page |
| CrawlSpec.VisitAtMaxDepth | src/main/java/org/bernhardson/Crawler.java:81-106 | a crawl at the depth bound makes exactly one fetch, its own page |
| CrawlSpec.StepAtMaxDepth | src/main/java/org/bernhardson/Crawler.java:98-106 | at the bound a kept link makes no fetch and adds exactly itself to `result`; a new href is recorded, claimed and counted, and the child stops before fetching |
| CrawlSpec.StepTwice | src/main/java/org/bernhardson/Crawler.java:98-101 | handling the same kept link twice is handling it once: re-adding the pair and re-claiming the href change nothing |
| CrawlSpec.RepeatedAnchorIsIdempotent | src/main/java/org/bernhardson/Crawler.java:89-108 | an anchor repeated right after itself leaves the crawl's outcome unchanged |
| CrawlSpec.StepRecords | src/main/java/org/bernhardson/Crawler.java:98-101 | after a kept link is handled, the pair is in `result` and its href is in `visited`, whether or not the claim was new |
| CrawlSpec.ScanKeepsResult | src/main/java/org/bernhardson/Crawler.java:98 | the loop never removes anything from `result` |
| CrawlSpec.ScanKeepsLogs | src/main/java/org/bernhardson/Crawler.java:89-109 | the loop only appends to the claim and fetch logs |
| CrawlSpec.VisitFetchesPageFirst | src/main/java/org/bernhardson/Crawler.java:81-82 | a crawl within the bound first fetches its own page, at its own depth |
| CrawlSpec.ScanRecordsEveryKeptLink | src/main/java/org/bernhardson/Crawler.java:89-98 | when no anchor throws, every link kept from the page is in `result`, whether or not its href was visited before |
| CrawlSpec.DistinctLabelsBothKept | src/main/java/org/bernhardson/Crawler.java:96-98 | on a page where no anchor throws, two anchors with the same resolved href and different labels give two distinct entries in `result` |
| CrawlSpec.DistinctElements | src/main/java/org/bernhardson/Crawler.java:101-102 | a claim log without repetitions has as many elements as entries, so one count per claimed href |
| CrawlSpec.FreshCrawl | src/main/java/org/bernhardson/Crawler.java:52-118 | a crawl from the seed with empty sets: the counter grows by the size of `visited`; `visited` is exactly the claimed hrefs; each is claimed once and is the href of an admissible link in `result`, so no href that failed the filters (a `mailto:` link, another host) is claimed or fetched; every result is admissible and was kept from an anchor of a page the crawl fetched; every fetch is at depth 0..`maxDepth`; within the bound the first fetch is the seed's, and every fetch at depth 0 is of the seed; every fetch after the seed's own is below it, of a visited href, and no href is fetched twice below the seed |
| CrawlSpec.VisitIntoFirstChild | src/main/java/org/bernhardson/Crawler.java:82-106 | when the first anchor of a fetched page is kept and its href is new, the crawl logs the fetch, records and claims the link, and runs the child crawl before the remaining anchors |
| CrawlSpec.FirstChildIsNext | src/main/java/org/bernhardson/Crawler.java:82-106 | in that situation, with a level left below the page, the next claim is that href and the next two fetches are the page at its depth and the target one level deeper |
| CrawlSpec.SeedLinkIsCrawledAgain | src/main/java/org/bernhardson/Crawler.java:52-106 | the seed is not claimed up front: when its first link leads back to it and `maxDepth >= 1`, the seed's href is claimed and the seed is fetched again at depth 1 |
| Crawling.Counter.constructor | src/main/java/org/bernhardson/Crawler.java:29 | the counter starts at zero |
| Crawling.Counter.IncrementAndGet | src/main/java/org/bernhardson/Crawler.java:102 | the counter grows by one and the new value is returned |
| Crawling.Crawler.constructor | src/main/java/org/bernhardson/Crawler.java:27-46 | a crawler keeps its seed, bound and counter, and starts with empty `visited` and `result` |
| Crawling.Crawler.Start | src/main/java/org/bernhardson/Crawler.java:52-57 | the whole crawl from the seed at depth 0 changes the state as `Visit`; on a fresh crawler the counter grows by the size of `visited`; hrefs are claimed once and only as hrefs of admissible recorded links; results are admissible and come from anchors of fetched pages; no fetch is beyond the bound; the first fetch, and every one at depth 0, is the seed's; no href below the seed is crawled twice (all of `FreshOutcome`) |
| Crawling.Crawler.Crawl | src/main/java/org/bernhardson/Crawler.java:78-118 | `crawl` changes the state exactly as `Visit`, which extends it; past the bound nothing changes and nothing is fetched; with no body only the fetch happened |
| Crawling.Crawler.HandleAnchor | src/main/java/org/bernhardson/Crawler.java:89-97 | one loop turn stops the task exactly when a filter throws; a skipped link changes nothing; a kept link changes the state as `Step` |
| Crawling.Crawler.Follow | src/main/java/org/bernhardson/Crawler.java:96-108 | the pair is added to `result`, then the href is claimed; only a successful claim counts the page and crawls the target at `depth + 1`, all as `Step` says |

## Left out

- HTTP transport (`HttpClient.send`, request building, the User-Agent header): network
  I/O. It is the oracle `send` from URL to a reply.
  - Because `send` is a function of the URL, two fetches of one URL get the same reply.
    Only the seed can be fetched twice in one crawl, and a real server may answer the
    second request differently.
  - A request that cannot be built (`URI.create` or the builder throwing
    `IllegalArgumentException`) ends the task right after the fetch. That has the same
    effect on the state as a reply with no body, so it is one of the `IoFailure`
    outcomes of `send`.
- The `Semaphore` admission cap, its `acquire` and its release in `finally`: concurrency.
  An interrupted `acquire` is the `Interrupted` reply.
- Virtual threads and `join`: concurrency. Each child crawl runs to completion when it
  is spawned.
  - In the program, a thread whose loop throws does not join the children it already
    started. So `start` can return before they finish. The model lets them finish.
- The regex `HREF_PATTERN` and `Matcher`: library regex. It is the oracle `extract`, from
  body to the sequence of `(href, text)` captures.
- `URI.resolve().normalize()`, the five-argument `URI` constructor, `URI.toString`, and
  `toURL().getHost()`: library semantics. They are the oracles `resolve`, `compose`,
  `show` and `urlHost`. Only these facts are kept:
  - the fragment is dropped;
  - each may fail and give null;
  - `toURL` throws on a URI that is not absolute.

  URIs are equal here when their components are equal.
- The sorting and printing of results in `start`, and all logging: output only. This
  includes the `debug` flag, the `count % 100` progress line and `Log.java`.
- `main`: argument parsing, `System.exit`, and `Integer.parseInt` of the depth.
- JavaText.Lower: lower-cases ASCII letters only. This is still exact for schemes, which
  are ASCII, and for the `text/html` test. The only non-ASCII characters Java lower-cases
  into ASCII letters are U+0130 (to `i`) and U+212A (to `k`), and neither letter occurs
  in `text/html`.
- JavaText.EqualsIgnoreCase: case-folds ASCII letters only. Non-ASCII host names that
  Java's `equalsIgnoreCase` treats as equal compare unequal here.
- Crawling.Crawler.Crawl: `depth + 1` is an unbounded integer. A 32-bit wrap needs
  `maxDepth = Integer.MAX_VALUE`, which is not modelled.
- Crawling.Counter.IncrementAndGet: does not model the 32-bit wrap-around of
  `AtomicInteger`.
- Pages are identified by their string. `CrawlSpec.FoundOn` and the fetch log record a
  page by `show(uri)`, and `show` is an oracle that could print two URIs alike. So
  "found on a fetched page" means found on some URI that prints as a fetched URL.
- `Link.java` is not part of this model. `Link` is taken to be a record `(label, href)`
  with component-wise equality.
