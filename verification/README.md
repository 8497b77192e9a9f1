# A verified model of the SmartCrawler frontier

SmartCrawler (`ConsoleApplication1.cpp`) is a breadth-first web crawler. It
starts from `https://localhost` with twelve worker threads. The workers share
a FIFO queue of `(url, depth)` pairs, a set of visited URLs, a set of visited
domains with a per-domain depth table, and a count of downloaded pages.

This project models the parts of the program that decide what gets crawled:

- `cpp_string.dfy` (module `CppString`) holds the `std::string` operations
  the program relies on:
  - `find`, `find_last_of`, ASCII `tolower` and `operator<`;
  - `string::npos` as `None`;
  - `size_t` addition modulo 2^64.
- `url.dfy` (module `Url`) models `normalize_url` and `get_base_path`.
  - `Normalize` is the meaning of `normalize_url` as one function, built from
    one function per step of the C++ code.
  - `NormalizeUrl` performs the same steps on a local string.
  - `CollapseDoubleSlashes` is the `while` loop that rewrites "//" to "/"
    after the scheme.
- `domain.dfy` (module `Domain`) models `extract_domain`. The
  case-insensitive ECMAScript regex is matched by hand, in the order a
  backtracking matcher tries its optional groups.
- `links.dfy` (module `Links`) models the filter and the sort/unique of
  `extract_links`. Its input is the page's `href` values in document order.
- `frontier.dfy` (module `Crawler`) holds the class `Frontier`, whose fields
  are the globals the workers share.
  - Its methods are the steps of a worker iteration: take the next entry and
    apply the domain and visited bookkeeping, record a downloaded page, and
    enqueue its links.
  - `Launch` is `main`'s seeding.
  - The download outcome is a parameter (`Page`).
- `scenarios.dfy` (module `Scenarios`) works through concrete inputs. It
  shows what `normalize_url` and `extract_domain` do in their notable cases.

Where the program's documented intent and its code disagree, the model follows
the code, and the lemmas below show the difference:

- **Normalisation is not idempotent.** Line 84 drops only one trailing '/'.
  - `NormalizeNotIdempotent`: "http://a.com//" normalises to "http://a.com/",
    which normalises to "http://a.com".
  - `NormalizeIdempotentUnlessSlash`: a second normalisation changes nothing
    when the first result does not end in '/'.
- **The domain budget can be overshot.** The cap is checked at enqueue time
  (line 293) against `visited_domains`. Domains only join that set when
  dequeued (lines 240-244).
  - `DomainCapOvershoot`: one page can push two unseen domains while one slot
    is left, and dequeuing both records `MAX_DOMAIN_HOPS + 1` domains.
- **A domain's recorded depth is not a fixed first-seen baseline.** Line 250
  raises it to any larger admitted depth (`DomainStep`).
- **The enqueue-time depth check is absolute and same-domain only.** Line 305
  compares `new_depth` with `MAX_DEPTH_PER_DOMAIN` alone, not with the
  domain's recorded depth, and only when the link stays on the page's domain
  (`PushDecision`).
- **URLs can be queued more than once.** `visited_urls` holds admitted URLs,
  not queued ones. A URL can therefore be queued several times, and later
  copies are dropped at dequeue (`TakeNext` returns `AlreadyVisited`).
- **"Starts with http" only looks at the first four characters.** Line 88
  treats any string starting with "http" as absolute.
  - `NormalizeHttpPrefixIsAbsolute`: "httpfoo" becomes "http://httpfoo".
  - `ResolveOtherSchemeIsRelative`: "ftp://x" is resolved against the base
    like a relative path.

## Model

| member | source | states |
|---|---|---|
| CppString.AddSizeT | ConsoleApplication1.cpp:107 | size_t addition: the result is below 2^64, equals the true sum when that fits, and is the sum minus 2^64 when two size_t values overflow |
| CppString.FindFrom | ConsoleApplication1.cpp:118-122 | `find` from a position returns the first occurrence at or after it, or npos (None) exactly when there is none |
| CppString.Find | ConsoleApplication1.cpp:118 | `find(pat)` is `FindFrom` from position 0 (its contract gives the first occurrence, or npos) |
| CppString.FindCharFrom | ConsoleApplication1.cpp:159 | `find(c, from)` returns the first position at or after `from` holding `c`, or npos exactly when there is none |
| CppString.FindChar | ConsoleApplication1.cpp:74-77 | `find(c)` is `FindCharFrom` from position 0 |
| CppString.FindLastCharBelow | ConsoleApplication1.cpp:106 | `find_last_of` returns the last position holding the character, or npos when there is none |
| CppString.LowerChar | ConsoleApplication1.cpp:80-82 | `tolower` maps 'A'-'Z' to 'a'-'z' and keeps every other character |
| CppString.Lower | ConsoleApplication1.cpp:80-82 | `transform` with `tolower` keeps the length and lowers each character in place |
| CppString.Less | ConsoleApplication1.cpp:210 | `std::string`'s operator<: lexicographic by character code, a proper prefix below the longer string; `LessIrreflexive`, `LessTransitive` and `LessTotal` make it a strict total order |
| CppString.LessTotal | ConsoleApplication1.cpp:210 | `std::string`'s operator< is total: of two different strings one is below the other |
| CppString.LessTransitive | ConsoleApplication1.cpp:210 | operator< is transitive, so `std::sort` is given a strict order |
| Url.Normalize | ConsoleApplication1.cpp:71-135 | normalize_url as the composition of its steps; `NormalizeUrl` is proved to compute it, and `NormalizeShape`, `NormalizeClean` and `NormalizeIdempotentUnlessSlash` state its properties |
| Url.Prepare | ConsoleApplication1.cpp:72-86 | lines 72-86: cut at '?', cut at '#', lower-case, drop one trailing '/'; `PrepareClean`, `PrepareFixed` and `PrepareDrop` state its effect |
| Url.DropTrailingSlash | ConsoleApplication1.cpp:84-86 | one trailing '/' is dropped when the string is longer than one character; `PrepareDrop` and `PrepareFixed` state the two cases |
| Url.ResolveIfRelative | ConsoleApplication1.cpp:88 | resolution happens only with a non-empty base and a string not starting with "http"; `NormalizeHttpPrefixIsAbsolute` and `ResolveOtherSchemeIsRelative` show the test |
| Url.Resolve | ConsoleApplication1.cpp:90-114 | the two resolution branches; `ResolveRooted`, `ResolveRelative` and `ResolveNoPathSlash` state each outcome |
| Url.DefaultScheme | ConsoleApplication1.cpp:118-120 | "http://" is put in front of a string without "://"; `HttpSchemeAdded` and `SchemeAndCollapseShape` state the effect |
| Url.CollapseSlashes | ConsoleApplication1.cpp:127-129 | every run of '/' shortened to one; `CollapseSlashesFacts`, `CollapseFixpoint` and `CollapseReplaceStep` state its properties |
| Url.CollapseAfterScheme | ConsoleApplication1.cpp:122-132 | the part after the first "://" is collapsed and the scheme kept; `SchemeAndCollapseShape` and `SchemeAndCollapseFixed` state the effect |
| Url.CutAt | ConsoleApplication1.cpp:74-78 | cutting at the first `c`: a prefix without `c`, followed in the input by `c` when shorter |
| Url.CutAtFirst | ConsoleApplication1.cpp:74-78 | when `c` first occurs at index i, the cut keeps exactly the first i characters |
| Url.PrepareClean | ConsoleApplication1.cpp:74-86 | after the cuts, lower-casing and slash drop, no '?', '#' or upper-case letter remains |
| Url.PrepareFixed | ConsoleApplication1.cpp:74-86 | a clean string not ending in '/' comes out of lines 74-86 unchanged |
| Url.PrepareDrop | ConsoleApplication1.cpp:84-86 | a clean string longer than one character that ends in '/' loses exactly that '/' |
| Url.PathStartThreshold | ConsoleApplication1.cpp:107 | a '/' at index j passes the test `j > find("://") + 2` exactly when j is at or past the path start: past "://", or, with no "://", from index 2 on, since npos + 2 wraps around to 1 |
| Url.ResolveRooted | ConsoleApplication1.cpp:90-101 | a rooted link follows the base's scheme and host; with no "://" in the base the link is left as it is |
| Url.ResolveRelative | ConsoleApplication1.cpp:104-110 | any other link replaces what follows the last '/' of the base's path |
| Url.ResolveNoPathSlash | ConsoleApplication1.cpp:111-113 | with no '/' in the base's path, the link is appended after a new '/' |
| Url.ContainsDoubleSlash | ConsoleApplication1.cpp:127 | the loop test `find("//") != npos` holds exactly when two adjacent '/' exist |
| Url.CollapseReplaceStep | ConsoleApplication1.cpp:128 | replacing the first "//" with "/" does not change what the string collapses to |
| Url.CollapseSlashesFacts | ConsoleApplication1.cpp:127-129 | the collapsed path has no "//", is no longer than the input, starts with the same character and holds only input characters |
| Url.CollapseFixpoint | ConsoleApplication1.cpp:127-129 | a path without "//" is left unchanged by the loop |
| Url.CollapseDoubleSlashes | ConsoleApplication1.cpp:127-129 | the loop terminates with the collapsed path, which holds no "//" |
| Url.NormalizeUrl | ConsoleApplication1.cpp:71-135 | the step-by-step normalisation computes `Normalize(url, base)` |
| Url.SchemeAndCollapseShape | ConsoleApplication1.cpp:118-132 | whatever the input, the result holds "://" and has no "//" after the first "://" |
| Url.NormalizeShape | ConsoleApplication1.cpp:71-135 | every normalised URL holds "://" and has no "//" after it |
| Url.NormalizeClean | ConsoleApplication1.cpp:71-135 | with a base free of '?', '#' and capitals, the normalised URL has none of them |
| Url.SchemeAndCollapseFixed | ConsoleApplication1.cpp:118-132 | a string with "://" and no "//" after it is left unchanged by lines 118-132 |
| Url.HttpSchemeFixed | ConsoleApplication1.cpp:118-132 | an "http://" URL without "//" in its rest is left unchanged by lines 118-132 |
| Url.HttpSchemeAdded | ConsoleApplication1.cpp:118-120 | a string without "://" and "//" only gets "http://" put in front |
| Url.NormalizeFixed | ConsoleApplication1.cpp:71-135 | a clean URL with "://", no "//" after it and no trailing '/' normalises to itself |
| Url.NormalizeIdempotentUnlessSlash | ConsoleApplication1.cpp:84-86 | normalising a normalised URL changes nothing unless it ends in '/' |
| Url.GetBasePath | ConsoleApplication1.cpp:155-163 | "" without "://"; otherwise the URL up to the first '/' after the host, with a '/' added when there is none |
| Domain.SchemeEnd | ConsoleApplication1.cpp:139 | the optional group `https?:\/\/`, taken at the start and ignoring case, ends after "https://" or "http://" and fails otherwise |
| Domain.HostStart | ConsoleApplication1.cpp:139 | under a choice of optional groups, the host starts after them, and never past the end of the URL |
| Domain.HostEnd | ConsoleApplication1.cpp:139 | the host group `[^\/:?#]+` runs to the first delimiter or the end |
| Domain.FirstMatch | ConsoleApplication1.cpp:139-141 | a match found is a capture followed by a delimiter or the end |
| Domain.ExtractDomain | ConsoleApplication1.cpp:138-152 | the domain has no delimiter and no upper-case letter |
| Domain.CapturesAtHostEnd | ConsoleApplication1.cpp:139 | group 1 from a given start can only end where the longest non-delimiter run ends, and only when that run is not empty |
| Domain.FirstMatchPicks | ConsoleApplication1.cpp:141 | the search takes the first viable combination of the optional groups, in backtracking order |
| Domain.FirstMatchNone | ConsoleApplication1.cpp:141 | with no viable combination the search fails |
| Domain.ExtractDomainFirstChoice | ConsoleApplication1.cpp:138-149 | the domain is group 1 of the first viable combination, lower-cased |
| Domain.ExtractDomainEmpty | ConsoleApplication1.cpp:138-152 | the domain is "" exactly when the URL is empty or starts with '/', ':', '?' or '#' |
| Links.Kept | ConsoleApplication1.cpp:181-183 | an href is kept when it is not empty and does not start with '#' |
| Links.Excluded | ConsoleApplication1.cpp:188-193 | a normalised link is excluded when it contains "mailto:", "javascript:", "tel:", ".pdf", ".jpg" or ".png" |
| Links.Collected | ConsoleApplication1.cpp:176-197 | the vector before sorting: one normalised link per kept, non-excluded href, in document order; `CollectedMembers` states its elements |
| Links.InsertUnique | ConsoleApplication1.cpp:210-212 | inserting into an ascending sequence keeps it strictly ascending and adds exactly the new element |
| Links.SortUnique | ConsoleApplication1.cpp:210-212 | sort then unique then erase leaves a strictly ascending sequence |
| Links.SortUniqueMembers | ConsoleApplication1.cpp:210-212 | sort/unique keeps exactly the elements of its input |
| Links.AscendingUnique | ConsoleApplication1.cpp:210-212 | two strictly ascending sequences with the same elements are equal, so the result is independent of the sorting algorithm |
| Links.CollectedMembers | ConsoleApplication1.cpp:176-197 | the collected links are exactly the normalised non-empty, non-fragment hrefs that are not excluded |
| Links.ExtractLinks | ConsoleApplication1.cpp:165-215 | the returned links are strictly ascending, hence free of duplicates |
| Links.ExtractLinksMembers | ConsoleApplication1.cpp:176-212 | a link is returned exactly when some kept href normalises to it and it names no excluded scheme or file type |
| Links.ExtractLinksOrderFree | ConsoleApplication1.cpp:210-212 | the result depends only on the set of hrefs, not on their order or repetition |
| Crawler.DomainStep | ConsoleApplication1.cpp:238-251 | skip exactly when a known domain's depth exceeds its recorded depth plus 3; otherwise the domain is recorded, unseen at `depth`, known raised to `depth` if larger, others unchanged |
| Crawler.PushDecision | ConsoleApplication1.cpp:278-316 | a link is pushed exactly when it has a domain, a new domain finds a free hop, a same-domain link stays within depth 3 and the URL is unvisited; new domains reset to depth 0, known ones take depth + 1 |
| Crawler.Pushed | ConsoleApplication1.cpp:277-317 | the pushed entries are unvisited links of the page with a domain, at depth 0 for new domains, depth + 1 for known ones, at most 3 on the same domain |
| Crawler.PushedMembership | ConsoleApplication1.cpp:277-317 | an entry is pushed exactly when the decision for one of the links pushes it |
| Crawler.DomainCapOvershoot | ConsoleApplication1.cpp:291-296 | with one hop left, two unseen domains from one page are both pushed, and dequeuing both records 11 domains |
| Crawler.StartNormalized | ConsoleApplication1.cpp:350 | `normalize_url` leaves the start URL unchanged |
| Crawler.StartDomain | ConsoleApplication1.cpp:338 | the start URL's domain is "localhost" |
| Crawler.Frontier.constructor | ConsoleApplication1.cpp:27-32 | the shared globals start empty, with a zero page count |
| Crawler.Frontier.Seed | ConsoleApplication1.cpp:338-350 | fails exactly when the start URL has no domain; otherwise records the domain at depth 0 and queues the normalised URL at depth 0 |
| Crawler.Frontier.AddStart | ConsoleApplication1.cpp:344-350 | the domain joins the visited domains at depth 0 and the URL is queued at depth 0; nothing else changes |
| Crawler.Frontier.TakeNext | ConsoleApplication1.cpp:223-263 | pops the front entry; drops it without a domain, on a depth skip, or when already visited; otherwise admits it to the visited URLs; the domain table follows `DomainStep` |
| Crawler.Frontier.EnqueueLinks | ConsoleApplication1.cpp:277-317 | the queue grows by exactly the pushed entries, in order, and nothing else changes |
| Crawler.Frontier.RecordPage | ConsoleApplication1.cpp:265-320 | an empty page changes nothing; a page has its extracted links enqueued and is counted once |
| Crawler.Frontier.EnqueueAndCount | ConsoleApplication1.cpp:277-320 | the page's links are enqueued and the page count grows by one |
| Crawler.Frontier.WorkerIteration | ConsoleApplication1.cpp:218-326 | one loop iteration counts a page only when it admits an entry whose page is non-empty, and the count stays at most MAX_PAGES |
| Crawler.Launch | ConsoleApplication1.cpp:332-350 | `main` leaves the queue holding the start URL at depth 0 and its domain recorded at depth 0, with nothing visited or counted |
| Crawler.FrontierCounts | ConsoleApplication1.cpp:257-263 | every visited URL was admitted once, and the page count is at most the number of visited URLs |
| Scenarios.NormalizeQueryFragment | ConsoleApplication1.cpp:74-82 | "http://A.com/Page?x=1#frag" normalises to "http://a.com/page" |
| Scenarios.NormalizeTrailingSlash | ConsoleApplication1.cpp:84-86 | "http://a.com/p/" normalises to "http://a.com/p" |
| Scenarios.NormalizeNotIdempotent | ConsoleApplication1.cpp:84-86 | "http://a.com//" normalises to "http://a.com/", and that normalises to "http://a.com" |
| Scenarios.NormalizeRootedLink | ConsoleApplication1.cpp:90-101 | "/foo" against "http://a.com/bar/baz" gives "http://a.com/foo" |
| Scenarios.NormalizeRelativeLink | ConsoleApplication1.cpp:104-110 | "foo" against "http://a.com/bar/baz" gives "http://a.com/bar/foo" |
| Scenarios.NormalizeHttpPrefixIsAbsolute | ConsoleApplication1.cpp:88 | "httpfoo" is not resolved and becomes "http://httpfoo" |
| Scenarios.ResolveOtherSchemeIsRelative | ConsoleApplication1.cpp:88 | "ftp://x" against "http://a.com/b" is resolved to "http://a.com/ftp://x" |
| Scenarios.ExtractDomainWww | ConsoleApplication1.cpp:139-147 | "HTTP://WWW.Example.com/x" has domain "example.com" |
| Scenarios.ExtractDomainPort | ConsoleApplication1.cpp:139 | "http://a.com:8080/" has domain "a.com" |
| Scenarios.ExtractDomainEmptyHost | ConsoleApplication1.cpp:139 | for "http:///x" every combination that takes the scheme fails, and the domain is "http" |

## Left out

- `download_page` and `WriteCallback` (lines 39-69): libcurl network I/O. A download's outcome is the parameter `Page`, and a failed download is `EmptyBody`.
- The Gumbo parse of `extract_links` (lines 167-208): the HTML parser is foreign code. The model takes the `href` values of the `<a>` elements in document order. An `<a>` that is dropped by the filter also stops the walk into its children (lines 181-194). A flat list of hrefs cannot express that nesting.
- Threads, mutexes, the atomic counter and the 100 ms polling (lines 26, 32, 218-227, 352-359): the model is sequential.
  - One worker iteration is one atomic step.
  - With twelve threads, `pages_downloaded` can pass MAX_PAGES, because the loop test (line 218) and the increment (line 320) are separate. The sequential model cannot reproduce that.
- A worker that finds the queue empty sleeps and polls forever (lines 225-227), so the program does not stop once the queue drains. `TakeNext` reports `QueueEmpty` and changes nothing. No terminating crawl loop is modelled.
- The output file `sites.txt`, the console log lines and `setlocale` (lines 31, 268-271, 321-324, 333, 336, 361): file and console I/O.
- Crawler.Frontier.WorkerIteration: does not model the `break` at line 326 separately, because the loop test at line 218 has the same effect in a sequential run.
- CppString.Lower: lower-cases ASCII letters only, because the effect of the "ru" locale on `tolower` of non-ASCII bytes is locale data outside the program. Characters are compared by code point.
- Crawler.DomainStep: depths are unbounded naturals, because the `int` overflow of `current_depth + 1` needs over two billion hops and cannot be reached.
- `std::regex` itself: `extract_domain`'s pattern is matched by a hand-written matcher of that one pattern (`Domain.FirstMatch`). The matcher follows the ECMAScript backtracking order.
- `std::sort`, `std::unique` and `erase` (lines 210-212) are library calls without loops in the program. They are modelled by their value (`Links.SortUnique`), and `Links.AscendingUnique` shows that any sort yields it.
- `NUM_THREADS` (line 37): it only sets the number of threads.
