/**
 * The crawl frontier of worker_thread and main (ConsoleApplication1.cpp
 * lines 217-350), run one step at a time.  The C++ program keeps the frontier
 * in globals shared by twelve threads: the FIFO url_queue of (url, depth)
 * pairs, the sets visited_urls and visited_domains, the map
 * domain_max_depth and the counter pages_downloaded.  Here they are the
 * fields of one `Frontier`.  A worker iteration dequeues an entry and decides
 * whether to admit it (`TakeNext`), downloads it (the outcome is a parameter,
 * `Page`), and for a non-empty page enqueues the page's links and counts the
 * page (`RecordPage`, `EnqueueLinks`).
 */
module Crawler {
  import opened CppString
  import opened Url
  import opened Domain
  import opened Links

  const MAX_PAGES: nat := 10000000
  const MAX_DEPTH_PER_DOMAIN: nat := 3
  const MAX_DOMAIN_HOPS: nat := 10
  /** The URL main starts from. */
  const START_URL: string := "https://localhost"

  /** An element of url_queue: a URL and its depth. */
  datatype Entry = Entry(url: string, depth: nat)

  /** What the download of an admitted URL gave: an empty body (a failed
      download), or a body whose <a> elements carry these hrefs in document
      order. */
  datatype Page = EmptyBody | Body(hrefs: seq<string>)

  /** How the dequeue step of a worker iteration ended. */
  datatype Taken =
    | QueueEmpty
    | NoDomain(entry: Entry)
    | DepthExceeded(entry: Entry, domain: string)
    | AlreadyVisited(entry: Entry, domain: string)
    | Admitted(entry: Entry, domain: string)

  /** The outcome of the domain bookkeeping for one dequeued entry. */
  datatype DomainVerdict = Skip | Proceed(table: map<string, nat>)

  /** Lines 242-251: the domain bookkeeping for an entry of `domain` at
      `depth`, on the table domain_max_depth, whose keys are the visited
      domains.  An unseen domain is recorded at `depth`; a known one is
      skipped when `depth` lies more than MAX_DEPTH_PER_DOMAIN above its
      recorded depth, and otherwise has its recorded depth raised to
      `depth`. */
  function DomainStep(table: map<string, nat>, domain: string, depth: nat): (v: DomainVerdict)
    ensures v.Skip? <==> domain in table && depth > table[domain] + MAX_DEPTH_PER_DOMAIN
    ensures v.Proceed? ==> v.table.Keys == table.Keys + {domain}
    ensures v.Proceed? ==> forall d :: d in table && d != domain ==> v.table[d] == table[d]
    ensures v.Proceed? ==> forall d :: d in table ==> table[d] <= v.table[d]
    ensures v.Proceed? && domain !in table ==> v.table[domain] == depth
    ensures v.Proceed? && domain in table ==>
      v.table[domain] >= depth && (v.table[domain] == depth || v.table[domain] == table[domain])
  {
    if domain !in table then Proceed(table[domain := depth])
    else if depth > table[domain] + MAX_DEPTH_PER_DOMAIN then Skip
    else if depth > table[domain] then Proceed(table[domain := depth])
    else Proceed(table)
  }

  /** Lines 278-315: whether a link found on a page of `domain` at `depth`
      is pushed, and at which depth.  `domains` and `urls` are
      visited_domains and visited_urls at that moment. */
  function PushDecision(link: string, domain: string, depth: nat, domains: set<string>, urls: set<string>): (r: Option<Entry>)
    ensures r.Some? ==> r.value.url == link && link !in urls
    ensures r.Some? ==> ExtractDomain(link) != ""
    ensures r.Some? && ExtractDomain(link) !in domains ==> r.value.depth == 0 && |domains| < MAX_DOMAIN_HOPS
    ensures r.Some? && ExtractDomain(link) in domains ==> r.value.depth == depth + 1
    ensures r.Some? && ExtractDomain(link) == domain && domain in domains ==> r.value.depth <= MAX_DEPTH_PER_DOMAIN
    ensures r.None? <==>
      || ExtractDomain(link) == ""
      || (ExtractDomain(link) !in domains && |domains| >= MAX_DOMAIN_HOPS)
      || (ExtractDomain(link) == domain && domain in domains && depth + 1 > MAX_DEPTH_PER_DOMAIN)
      || link in urls
  {
    var linkDomain := ExtractDomain(link);
    if linkDomain == "" then None
    else
      var isNew := linkDomain !in domains;
      if isNew && |domains| >= MAX_DOMAIN_HOPS then None
      else
        var newDepth := if isNew then 0 else depth + 1;
        if newDepth > MAX_DEPTH_PER_DOMAIN && linkDomain == domain then None
        else if link in urls then None
        else Some(Entry(link, newDepth))
  }

  /** The entries pushed, in order, for the links of a page. */
  function Pushed(links: seq<string>, domain: string, depth: nat, domains: set<string>, urls: set<string>): (pushed: seq<Entry>)
    ensures |pushed| <= |links|
    ensures forall e :: e in pushed ==> e.url in links && e.url !in urls && ExtractDomain(e.url) != ""
    ensures forall e :: e in pushed && ExtractDomain(e.url) !in domains ==> e.depth == 0
    ensures forall e :: e in pushed && ExtractDomain(e.url) in domains ==> e.depth == depth + 1
    ensures forall e :: e in pushed && ExtractDomain(e.url) == domain && domain in domains ==>
      e.depth <= MAX_DEPTH_PER_DOMAIN
  {
    if links == [] then []
    else
      var init := links[..|links| - 1];
      var last := links[|links| - 1];
      var rest := Pushed(init, domain, depth, domains, urls);
      assert forall e :: e in rest ==> e.url in links by {
        forall e | e in rest
          ensures e.url in links
        {
          var k :| 0 <= k < |init| && init[k] == e.url;
          assert links[k] == e.url;
        }
      }
      match PushDecision(last, domain, depth, domains, urls)
      case None => rest
      case Some(e) => rest + [e]
  }

  /** An entry is pushed exactly when the decision for one of the links
      pushes it. */
  lemma {:induction false} PushedMembership(links: seq<string>, domain: string, depth: nat, domains: set<string>, urls: set<string>)
    ensures forall e :: e in Pushed(links, domain, depth, domains, urls) <==>
      exists link :: link in links && PushDecision(link, domain, depth, domains, urls) == Some(e)
  {
    if links != [] {
      var init := links[..|links| - 1];
      var last := links[|links| - 1];
      PushedMembership(init, domain, depth, domains, urls);
      assert links == init + [last];
      forall e
        ensures (exists link :: link in links && PushDecision(link, domain, depth, domains, urls) == Some(e)) ==>
          e in Pushed(links, domain, depth, domains, urls)
      {
        if exists link :: link in links && PushDecision(link, domain, depth, domains, urls) == Some(e) {
          var link :| link in links && PushDecision(link, domain, depth, domains, urls) == Some(e);
          if link != last {
            assert link in init;
          }
        }
      }
    }
  }

  /** The cap on domain hops is checked against visited_domains when a link
      is enqueued, but unseen domains are only added to visited_domains
      when their entries are dequeued.  So with one slot left, a single page
      can push two unseen domains at depth 0, and dequeuing both records
      MAX_DOMAIN_HOPS + 1 domains. */
  lemma DomainCapOvershoot(table: map<string, nat>, domain: string, depth: nat, urls: set<string>, link1: string, link2: string)
    requires |table.Keys| == MAX_DOMAIN_HOPS - 1 && domain in table
    requires link1 !in urls && link2 !in urls
    requires ExtractDomain(link1) != "" && ExtractDomain(link1) !in table
    requires ExtractDomain(link2) != "" && ExtractDomain(link2) !in table
    requires ExtractDomain(link1) != ExtractDomain(link2)
    ensures Pushed([link1, link2], domain, depth, table.Keys, urls) == [Entry(link1, 0), Entry(link2, 0)]
    ensures DomainStep(table, ExtractDomain(link1), 0).Proceed?
    ensures var t1 := DomainStep(table, ExtractDomain(link1), 0).table;
            DomainStep(t1, ExtractDomain(link2), 0).Proceed? &&
            |DomainStep(t1, ExtractDomain(link2), 0).table.Keys| == MAX_DOMAIN_HOPS + 1
  {
    var domains := table.Keys;
    assert PushDecision(link1, domain, depth, domains, urls) == Some(Entry(link1, 0));
    assert PushDecision(link2, domain, depth, domains, urls) == Some(Entry(link2, 0));
    assert [link1, link2][..1] == [link1];
    assert [link1][..0] == [];
    var t1 := DomainStep(table, ExtractDomain(link1), 0).table;
    assert t1.Keys == domains + {ExtractDomain(link1)};
  }

  /** The start URL's scheme ends at index 5. */
  lemma StartScheme()
    ensures Find(START_URL, "://") == Some(5)
  {
    assert Find("https://", "://") == Some(5);
    assert START_URL[..8] == "https://"[..8];
    FindSamePrefix("https://", START_URL, "://", 5);
  }

  lemma StartClean()
    ensures Clean(START_URL)
  {
    forall i | 0 <= i < |START_URL|
      ensures START_URL[i] != '?' && START_URL[i] != '#' && !IsUpperAscii(START_URL[i])
    {
    }
  }

  /** normalize_url leaves the start URL as it is. */
  lemma StartNormalized()
    ensures Normalize(START_URL, "") == START_URL
  {
    StartClean();
    PrepareFixed(START_URL);
    StartScheme();
    SchemeAndCollapseFixed(START_URL);
  }

  lemma StartHostStart()
    ensures HostStart(START_URL, Choices[0]) == None
    ensures HostStart(START_URL, Choices[1]) == Some(8)
  {
    assert SchemeEnd(START_URL) == Some(8);
  }

  /** The start URL's domain is "localhost": the scheme is taken, "www."
      is not there, and the host runs to the end. */
  lemma StartDomain()
    ensures ExtractDomain(START_URL) == "localhost"
  {
    StartHostStart();
    assert Captures(START_URL, 8, 17);
    ExtractDomainFirstChoice(START_URL, 1, 8, 17);
    assert START_URL[8..17] == "localhost";
  }

  /** A sequence without repetitions has as many distinct elements as it
      has elements. */
  lemma {:induction false} DistinctCount(s: seq<string>)
    requires forall i, j :: 0 <= i < j < |s| ==> s[i] != s[j]
    ensures |set x | x in s| == |s|
  {
    if s != [] {
      var init := s[..|s| - 1];
      DistinctCount(init);
      assert (set x | x in s) == (set x | x in init) + {s[|s| - 1]};
      assert forall k :: 0 <= k < |init| ==> init[k] != s[|s| - 1];
    }
  }

  /** The frontier state shared by the worker threads. */
  class Frontier {
    var queue: seq<Entry>
    var visitedUrls: set<string>
    var visitedDomains: set<string>
    var domainMaxDepth: map<string, nat>
    var pagesDownloaded: nat
    /** The URLs admitted for download, in the order of admission. */
    ghost var admitted: seq<string>
    /** The admitted URLs whose download gave a non-empty page. */
    ghost var downloaded: set<string>

    /** The domain table has an entry for each visited domain and no other;
        every visited URL was admitted exactly once; every counted page is
        a distinct visited URL. */
    ghost predicate Valid()
      reads this
    {
      && domainMaxDepth.Keys == visitedDomains
      && (forall i, j :: 0 <= i < j < |admitted| ==> admitted[i] != admitted[j])
      && visitedUrls == (set u | u in admitted)
      && downloaded <= visitedUrls
      && pagesDownloaded == |downloaded|
    }

    /** The globals before main runs: all empty. */
    constructor ()
      ensures Valid()
      ensures queue == [] && visitedUrls == {} && visitedDomains == {} && domainMaxDepth == map[]
      ensures pagesDownloaded == 0
    {
      queue := [];
      visitedUrls := {};
      visitedDomains := {};
      domainMaxDepth := map[];
      pagesDownloaded := 0;
      admitted := [];
      downloaded := {};
    }

    /** Lines 338-350: main refuses a start URL without a domain; otherwise
        it records the domain at depth 0 and queues the normalised URL at
        depth 0. */
    method Seed(startUrl: string) returns (ok: bool)
      requires Valid()
      modifies this
      ensures Valid()
      ensures ok <==> ExtractDomain(startUrl) != ""
      ensures !ok ==> unchanged(this)
      ensures ok ==> visitedDomains == old(visitedDomains) + {ExtractDomain(startUrl)}
      ensures ok ==> domainMaxDepth == old(domainMaxDepth)[ExtractDomain(startUrl) := 0]
      ensures ok ==> queue == old(queue) + [Entry(Normalize(startUrl, ""), 0)]
      ensures visitedUrls == old(visitedUrls) && pagesDownloaded == old(pagesDownloaded)
      ensures admitted == old(admitted) && downloaded == old(downloaded)
    {
      var startDomain := ExtractDomain(startUrl);
      if startDomain == "" {
        return false;
      }
      var url := NormalizeUrl(startUrl, "");
      AddStart(startDomain, url);
      return true;
    }

    /** Lines 344-350: record `domain` at depth 0 and queue `url` at depth
        0. */
    method AddStart(domain: string, url: string)
      requires Valid()
      modifies this
      ensures Valid()
      ensures visitedDomains == old(visitedDomains) + {domain}
      ensures domainMaxDepth == old(domainMaxDepth)[domain := 0]
      ensures queue == old(queue) + [Entry(url, 0)]
      ensures visitedUrls == old(visitedUrls) && pagesDownloaded == old(pagesDownloaded)
      ensures admitted == old(admitted) && downloaded == old(downloaded)
    {
      visitedDomains := visitedDomains + {domain};
      domainMaxDepth := domainMaxDepth[domain := 0];
      queue := queue + [Entry(url, 0)];
    }

    /** Lines 223-263: take the front entry and decide whether to download
        it.  An entry whose URL has no domain is dropped; otherwise the
        domain bookkeeping of `DomainStep` runs, and an entry it does not
        skip is admitted unless its URL was visited before, in which case
        it is dropped.  An admitted URL joins visited_urls. */
    method TakeNext() returns (t: Taken)
      requires Valid()
      modifies this
      ensures Valid()
      ensures old(queue) == [] ==> t == QueueEmpty && unchanged(this)
      ensures old(queue) != [] ==> t != QueueEmpty && t.entry == old(queue)[0] && queue == old(queue)[1..]
      ensures t.NoDomain? <==> old(queue) != [] && ExtractDomain(old(queue)[0].url) == ""
      ensures t.DepthExceeded? || t.AlreadyVisited? || t.Admitted? ==>
        t.domain == ExtractDomain(t.entry.url) && t.domain != ""
      ensures t.DepthExceeded? ==> DomainStep(old(domainMaxDepth), t.domain, t.entry.depth).Skip?
      ensures t.AlreadyVisited? || t.Admitted? ==>
        && DomainStep(old(domainMaxDepth), t.domain, t.entry.depth).Proceed?
        && domainMaxDepth == DomainStep(old(domainMaxDepth), t.domain, t.entry.depth).table
        && visitedDomains == old(visitedDomains) + {t.domain}
      ensures !(t.AlreadyVisited? || t.Admitted?) ==>
        visitedDomains == old(visitedDomains) && domainMaxDepth == old(domainMaxDepth)
      ensures t.AlreadyVisited? ==> t.entry.url in old(visitedUrls)
      ensures t.Admitted? ==> t.entry.url !in old(visitedUrls)
      ensures t.Admitted? ==> visitedUrls == old(visitedUrls) + {t.entry.url} && admitted == old(admitted) + [t.entry.url]
      ensures !t.Admitted? ==> visitedUrls == old(visitedUrls) && admitted == old(admitted)
      ensures old(visitedUrls) <= visitedUrls && old(visitedDomains) <= visitedDomains
      ensures pagesDownloaded == old(pagesDownloaded) && downloaded == old(downloaded)
    {
      if queue == [] {
        return QueueEmpty;
      }
      var entry := queue[0];
      queue := queue[1..];
      var domain := ExtractDomain(entry.url);
      if domain == "" {
        return NoDomain(entry);
      }
      var verdict := DomainStep(domainMaxDepth, domain, entry.depth);
      if verdict.Skip? {
        return DepthExceeded(entry, domain);
      }
      visitedDomains := visitedDomains + {domain};
      domainMaxDepth := verdict.table;
      if entry.url in visitedUrls {
        return AlreadyVisited(entry, domain);
      }
      visitedUrls := visitedUrls + {entry.url};
      admitted := admitted + [entry.url];
      return Admitted(entry, domain);
    }

    /** Lines 277-317: push the pushable links of a page of `domain` at
        `depth` to the back of the queue, in order; nothing else changes. */
    method EnqueueLinks(links: seq<string>, domain: string, depth: nat)
      modifies this
      ensures queue == old(queue) + Pushed(links, domain, depth, visitedDomains, visitedUrls)
      ensures visitedUrls == old(visitedUrls) && visitedDomains == old(visitedDomains)
      ensures domainMaxDepth == old(domainMaxDepth) && pagesDownloaded == old(pagesDownloaded)
      ensures admitted == old(admitted) && downloaded == old(downloaded)
    {
      for i := 0 to |links|
        invariant queue == old(queue) + Pushed(links[..i], domain, depth, visitedDomains, visitedUrls)
        invariant visitedUrls == old(visitedUrls) && visitedDomains == old(visitedDomains)
        invariant domainMaxDepth == old(domainMaxDepth) && pagesDownloaded == old(pagesDownloaded)
        invariant admitted == old(admitted) && downloaded == old(downloaded)
      {
        assert links[..i + 1][..i] == links[..i];
        var decision := PushDecision(links[i], domain, depth, visitedDomains, visitedUrls);
        if decision.Some? {
          queue := queue + [decision.value];
        }
      }
      assert links[..|links|] == links;
    }

    /** Lines 265-326 after an admission: a failed download changes nothing;
        a page is parsed into its links, which are enqueued, and counted. */
    method RecordPage(entry: Entry, domain: string, page: Page) returns (links: seq<string>)
      requires Valid()
      requires entry.url in visitedUrls && entry.url !in downloaded
      requires domain == ExtractDomain(entry.url)
      modifies this
      ensures Valid()
      ensures page.EmptyBody? ==> links == [] && unchanged(this)
      ensures page.Body? ==> links == ExtractLinks(page.hrefs, entry.url)
      ensures page.Body? ==>
        queue == old(queue) + Pushed(links, domain, entry.depth, visitedDomains, visitedUrls)
      ensures page.Body? ==> pagesDownloaded == old(pagesDownloaded) + 1
      ensures page.Body? ==> downloaded == old(downloaded) + {entry.url}
      ensures visitedUrls == old(visitedUrls) && visitedDomains == old(visitedDomains)
      ensures domainMaxDepth == old(domainMaxDepth) && admitted == old(admitted)
    {
      if page.EmptyBody? {
        return [];
      }
      links := ExtractLinks(page.hrefs, entry.url);
      EnqueueAndCount(entry, domain, links);
    }

    /** Lines 277-319: enqueue the links of a downloaded page and count the
        page. */
    method EnqueueAndCount(entry: Entry, domain: string, links: seq<string>)
      requires Valid()
      requires entry.url in visitedUrls && entry.url !in downloaded
      modifies this
      ensures Valid()
      ensures queue == old(queue) + Pushed(links, domain, entry.depth, visitedDomains, visitedUrls)
      ensures pagesDownloaded == old(pagesDownloaded) + 1
      ensures downloaded == old(downloaded) + {entry.url}
      ensures visitedUrls == old(visitedUrls) && visitedDomains == old(visitedDomains)
      ensures domainMaxDepth == old(domainMaxDepth) && admitted == old(admitted)
    {
      EnqueueLinks(links, domain, entry.depth);
      pagesDownloaded := pagesDownloaded + 1;
      downloaded := downloaded + {entry.url};
    }

    /** One iteration of the loop of worker_thread (lines 218-326), entered
        while fewer than MAX_PAGES pages are counted, with `page` the
        outcome of the download should an entry be admitted.  The front
        entry is taken as `TakeNext` describes; an admitted entry whose page
        is not empty has the page's links enqueued and is counted.  The count
        never passes MAX_PAGES. */
    method WorkerIteration(page: Page) returns (t: Taken, links: seq<string>)
      requires Valid() && pagesDownloaded < MAX_PAGES
      modifies this
      ensures Valid()
      ensures old(queue) == [] ==> t == QueueEmpty && links == [] && unchanged(this)
      ensures old(queue) != [] ==> t != QueueEmpty && t.entry == old(queue)[0]
      ensures t.NoDomain? <==> old(queue) != [] && ExtractDomain(old(queue)[0].url) == ""
      ensures t.DepthExceeded? || t.AlreadyVisited? || t.Admitted? ==>
        t.domain == ExtractDomain(t.entry.url) && t.domain != ""
      ensures t.DepthExceeded? ==> DomainStep(old(domainMaxDepth), t.domain, t.entry.depth).Skip?
      ensures t.AlreadyVisited? ==> t.entry.url in old(visitedUrls)
      ensures t.Admitted? ==> t.entry.url !in old(visitedUrls)
      ensures links == if t.Admitted? && page.Body? then ExtractLinks(page.hrefs, t.entry.url) else []
      ensures old(queue) != [] ==>
        queue == old(queue)[1..] +
          if t.Admitted? && page.Body? then Pushed(links, t.domain, t.entry.depth, visitedDomains, visitedUrls) else []
      ensures t.AlreadyVisited? || t.Admitted? ==>
        && DomainStep(old(domainMaxDepth), t.domain, t.entry.depth).Proceed?
        && domainMaxDepth == DomainStep(old(domainMaxDepth), t.domain, t.entry.depth).table
        && visitedDomains == old(visitedDomains) + {t.domain}
      ensures !(t.AlreadyVisited? || t.Admitted?) ==>
        visitedDomains == old(visitedDomains) && domainMaxDepth == old(domainMaxDepth)
      ensures visitedUrls == if t.Admitted? then old(visitedUrls) + {t.entry.url} else old(visitedUrls)
      ensures pagesDownloaded == old(pagesDownloaded) + (if t.Admitted? && page.Body? then 1 else 0)
      ensures pagesDownloaded <= MAX_PAGES
    {
      t := TakeNext();
      links := [];
      if t.Admitted? {
        links := RecordPage(t.entry, t.domain, page);
      }
    }
  }

  /** main before the threads start (lines 332-350): the globals start
      empty, the start URL's domain is recorded at depth 0 and the start
      URL is queued at depth 0, so the check of line 339 passes
      (`StartDomain` names the domain). */
  method Launch() returns (f: Frontier)
    ensures fresh(f) && f.Valid()
    ensures f.queue == [Entry(START_URL, 0)]
    ensures f.visitedDomains == {ExtractDomain(START_URL)}
    ensures f.domainMaxDepth == map[ExtractDomain(START_URL) := 0]
    ensures f.visitedUrls == {} && f.pagesDownloaded == 0
  {
    var startUrl := START_URL;
    StartDomain();
    StartNormalized();
    f := new Frontier();
    var ok := f.Seed(startUrl);
    assert ok;
  }

  /** Every visited URL was admitted once, and the count of pages is at most
      the number of visited URLs. */
  lemma FrontierCounts(f: Frontier)
    requires f.Valid()
    ensures |f.visitedUrls| == |f.admitted|
    ensures f.pagesDownloaded <= |f.visitedUrls|
  {
    DistinctCount(f.admitted);
    SubsetCount(f.downloaded, f.visitedUrls);
  }

  /** A subset has at most as many elements as the set containing it. */
  lemma {:induction false} SubsetCount(a: set<string>, b: set<string>)
    requires a <= b
    ensures |a| <= |b|
    decreases |a|
  {
    if a != {} {
      var x :| x in a;
      SubsetCount(a - {x}, b - {x});
    }
  }
}
