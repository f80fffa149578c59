/**
  The rank query of the Google engine. Each fetched result page is reduced to
  what the scan looks at: the children of the element with id "main" and the
  anchors of the divs under the first footer. The network is a function from
  requests to responses, so a whole query is a pure function of that
  function.
 */
module RankQuery {
  import opened Wrappers
  import opened Engines

  /** The highest position the scan counts to. */
  const MaxRank: nat := 100

  /** `toupper` in the classic locale: only ASCII letters change. */
  function Upper(c: char): char {
    if 'a' <= c <= 'z' then (c as int - 32) as char else c
  }

  /** `istarts_with`: compares both strings from the front, one character
      pair at a time, ignoring case. */
  function IStartsWith(s: string, prefix: string): bool
    decreases |prefix|
  {
    if |prefix| == 0 then true
    else if |s| == 0 then false
    else Upper(s[0]) == Upper(prefix[0]) && IStartsWith(s[1..], prefix[1..])
  }

  /** The meaning of a case-insensitive prefix: `prefix` is no longer than
      `s` and agrees with it, up to case, at every position. */
  predicate CaselessPrefix(s: string, prefix: string) {
    |prefix| <= |s| && forall i :: 0 <= i < |prefix| ==> Upper(s[i]) == Upper(prefix[i])
  }

  /** Dropping the same number of leading characters from both sides keeps
      a caseless prefix. */
  lemma CaselessPrefixDrop(s: string, prefix: string, k: nat)
    requires CaselessPrefix(s, prefix) && k <= |prefix|
    ensures CaselessPrefix(s[k..], prefix[k..])
  {
    forall i | 0 <= i < |prefix| - k ensures Upper(s[k..][i]) == Upper(prefix[k..][i]) {
      assert s[k..][i] == s[i + k] && prefix[k..][i] == prefix[i + k];
    }
  }

  lemma {:induction false} IStartsWithMeaning(s: string, prefix: string)
    ensures IStartsWith(s, prefix) <==> CaselessPrefix(s, prefix)
    decreases |prefix|
  {
    if |prefix| > 0 && |s| > 0 {
      IStartsWithMeaning(s[1..], prefix[1..]);
      if CaselessPrefix(s, prefix) {
        forall i | 0 <= i < |prefix| - 1
          ensures Upper(s[1..][i]) == Upper(prefix[1..][i])
        {
          assert s[1..][i] == s[i + 1] && prefix[1..][i] == prefix[i + 1];
        }
      }
      if IStartsWith(s, prefix) {
        forall i | 0 <= i < |prefix|
          ensures Upper(s[i]) == Upper(prefix[i])
        {
          if i > 0 {
            assert s[1..][i - 1] == s[i] && prefix[1..][i - 1] == prefix[i];
          }
        }
      }
    }
  }

  /** `is_my_domain`: the result URL starts with the domain, ignoring case. */
  function IsMyDomain(domain: string, url: string): (b: bool)
    ensures b <==> CaselessPrefix(url, domain)
  {
    IStartsWithMeaning(url, domain);
    IStartsWith(url, domain)
  }

  /** A DOM node as the result-line test sees it: whether it is an element,
      its `href` attribute ("" when absent) and its first child. */
  datatype Node = Node(isElement: bool, href: string, firstChild: Option<Node>)

  /** The node three first-children down, when the node and each of the
      three are elements. */
  function Innermost(n: Node): Option<Node> {
    if !n.isElement || n.firstChild.None? then None
    else
      var c1 := n.firstChild.value;
      if !c1.isElement || c1.firstChild.None? then None
      else
        var c2 := c1.firstChild.value;
        if !c2.isElement || c2.firstChild.None? then None
        else
          var c3 := c2.firstChild.value;
          if c3.isElement then Some(c3) else None
  }

  /** The redirect prefix Google puts before each organic result. */
  const RedirectPrefix: string := "/url?q=http"

  /** `is_result_line`: the innermost element's href starts, ignoring case,
      with the redirect prefix; the result URL is the href minus its first
      seven characters (the "/url?q=" part). */
  function ResultUrl(n: Node): (r: Option<string>)
    ensures r.Some? <==> Innermost(n).Some? && CaselessPrefix(Innermost(n).value.href, RedirectPrefix)
    ensures r.Some? ==> r.value == Innermost(n).value.href[7..]
    ensures r.Some? ==> CaselessPrefix(r.value, "http")
  {
    match Innermost(n)
    case None => None
    case Some(c) =>
      IStartsWithMeaning(c.href, RedirectPrefix);
      if |c.href| > 0 && IStartsWith(c.href, RedirectPrefix) then
        CaselessPrefixDrop(c.href, RedirectPrefix, 7);
        assert RedirectPrefix[7..] == "http";
        Some(c.href[7..])
      else None
  }

  /** The result URLs of a page's main children, in document order. */
  function ResultUrls(nodes: seq<Node>): (us: seq<string>)
    ensures |us| <= |nodes|
  {
    if |nodes| == 0 then []
    else match ResultUrl(nodes[0])
      case Some(u) => [u] + ResultUrls(nodes[1..])
      case None => ResultUrls(nodes[1..])
  }

  /** Where the scan of one page stopped: the position counter and the URL
      of the match, if it found one. */
  datatype PageScan = PageScan(counter: nat, found: Option<string>)

  /** The loop over the main children: stops at the end, at a match, or when
      the counter reaches 100; only result lines move the counter. */
  function Scan(domain: string, nodes: seq<Node>, counter: nat): (r: PageScan)
    requires counter <= MaxRank
    ensures counter <= r.counter <= MaxRank
    ensures r.found.Some? ==> counter < r.counter && IsMyDomain(domain, r.found.value)
    decreases |nodes|
  {
    if |nodes| == 0 || counter >= MaxRank then PageScan(counter, None)
    else match ResultUrl(nodes[0])
      case None => Scan(domain, nodes[1..], counter)
      case Some(u) =>
        if IsMyDomain(domain, u) then PageScan(counter + 1, Some(u))
        else Scan(domain, nodes[1..], counter + 1)
  }

  function Min(a: nat, b: nat): nat {
    if a <= b then a else b
  }

  /** What a scan from `counter` over result URLs `us` must return: the
      match is the first URL of the domain among the first `100 - counter`
      results, at position counter + its index + 1; with no such URL the
      counter advances by the number of results, capped at 100. */
  predicate ScanAgrees(domain: string, us: seq<string>, counter: nat, r: PageScan)
    requires counter <= r.counter <= MaxRank
  {
    && (r.found.Some? ==>
          && counter < r.counter
          && r.counter - counter - 1 < |us|
          && us[r.counter - counter - 1] == r.found.value
          && forall j :: 0 <= j < r.counter - counter - 1 ==> !IsMyDomain(domain, us[j]))
    && (r.found.None? ==>
          && r.counter == counter + Min(|us|, MaxRank - counter)
          && forall j :: 0 <= j < r.counter - counter ==> !IsMyDomain(domain, us[j]))
  }

  /** A leading result URL of another domain shifts the agreement by one. */
  lemma ScanAgreesCons(domain: string, u: string, tail: seq<string>, counter: nat, r: PageScan)
    requires counter < MaxRank && counter + 1 <= r.counter <= MaxRank
    requires !IsMyDomain(domain, u)
    requires ScanAgrees(domain, tail, counter + 1, r)
    ensures ScanAgrees(domain, [u] + tail, counter, r)
  {
    var us := [u] + tail;
    if r.found.Some? {
      var i := r.counter - counter - 1;
      assert us[i] == tail[i - 1];
      forall j | 0 <= j < i ensures !IsMyDomain(domain, us[j]) {
        if j > 0 {
          assert us[j] == tail[j - 1];
        }
      }
    } else {
      forall j | 0 <= j < r.counter - counter ensures !IsMyDomain(domain, us[j]) {
        if j > 0 {
          assert us[j] == tail[j - 1];
        }
      }
    }
  }

  lemma ScanEnd(domain: string, nodes: seq<Node>, counter: nat)
    requires counter <= MaxRank && (|nodes| == 0 || counter == MaxRank)
    ensures ScanAgrees(domain, ResultUrls(nodes), counter, Scan(domain, nodes, counter))
  {
    assert Scan(domain, nodes, counter) == PageScan(counter, None);
  }

  lemma ScanSkip(domain: string, nodes: seq<Node>, counter: nat)
    requires counter < MaxRank && |nodes| > 0 && ResultUrl(nodes[0]).None?
    requires ScanAgrees(domain, ResultUrls(nodes[1..]), counter, Scan(domain, nodes[1..], counter))
    ensures ScanAgrees(domain, ResultUrls(nodes), counter, Scan(domain, nodes, counter))
  {
    assert Scan(domain, nodes, counter) == Scan(domain, nodes[1..], counter);
    assert ResultUrls(nodes) == ResultUrls(nodes[1..]);
  }

  lemma ScanHit(domain: string, nodes: seq<Node>, counter: nat)
    requires counter < MaxRank && |nodes| > 0 && ResultUrl(nodes[0]).Some?
    requires IsMyDomain(domain, ResultUrl(nodes[0]).value)
    ensures ScanAgrees(domain, ResultUrls(nodes), counter, Scan(domain, nodes, counter))
  {
    var u := ResultUrl(nodes[0]).value;
    assert Scan(domain, nodes, counter) == PageScan(counter + 1, Some(u));
    assert ResultUrls(nodes)[0] == u;
  }

  lemma ScanMiss(domain: string, nodes: seq<Node>, counter: nat)
    requires counter < MaxRank && |nodes| > 0 && ResultUrl(nodes[0]).Some?
    requires !IsMyDomain(domain, ResultUrl(nodes[0]).value)
    requires ScanAgrees(domain, ResultUrls(nodes[1..]), counter + 1, Scan(domain, nodes[1..], counter + 1))
    ensures ScanAgrees(domain, ResultUrls(nodes), counter, Scan(domain, nodes, counter))
  {
    var u := ResultUrl(nodes[0]).value;
    assert Scan(domain, nodes, counter) == Scan(domain, nodes[1..], counter + 1);
    assert ResultUrls(nodes) == [u] + ResultUrls(nodes[1..]);
    ScanAgreesCons(domain, u, ResultUrls(nodes[1..]), counter, Scan(domain, nodes[1..], counter + 1));
  }

  /** The scan, stated over the page's result URLs. */
  lemma {:induction false} ScanMeaning(domain: string, nodes: seq<Node>, counter: nat)
    requires counter <= MaxRank
    ensures ScanAgrees(domain, ResultUrls(nodes), counter, Scan(domain, nodes, counter))
    decreases |nodes|
  {
    if |nodes| == 0 || counter == MaxRank {
      ScanEnd(domain, nodes, counter);
    } else if ResultUrl(nodes[0]).None? {
      ScanMeaning(domain, nodes[1..], counter);
      ScanSkip(domain, nodes, counter);
    } else if IsMyDomain(domain, ResultUrl(nodes[0]).value) {
      ScanHit(domain, nodes, counter);
    } else {
      ScanMeaning(domain, nodes[1..], counter + 1);
      ScanMiss(domain, nodes, counter);
    }
  }

  /** A link in the footer. */
  datatype Anchor = Anchor(href: string)

  /** A parsed result page: the children of the "main" element, if there is
      one, and for the first footer, the anchors of each div beneath it. */
  datatype Page = Page(main: Option<seq<Node>>, footer: Option<seq<seq<Anchor>>>)

  /** `get_child`: the element at `idx` of a collection, or null. */
  function GetChild<T>(s: seq<T>, idx: nat): (r: Option<T>)
    ensures r.Some? <==> idx < |s|
    ensures r.Some? ==> r.value == s[idx]
  {
    if idx < |s| then Some(s[idx]) else None
  }

  /** `google_next_page`: footer, its third div, then the anchor at index 2,
      else 1, else 0; a missing element or an empty href is
      `next_link_not_found`. */
  function NextLink(p: Page): Result<string, SearchError> {
    match p.footer
    case None => Err(NextLinkNotFound)
    case Some(divs) =>
      match GetChild(divs, 2)
      case None => Err(NextLinkNotFound)
      case Some(anchors) =>
        var a :=
          if GetChild(anchors, 2).Some? then GetChild(anchors, 2)
          else if GetChild(anchors, 1).Some? then GetChild(anchors, 1)
          else GetChild(anchors, 0);
        match a
        case None => Err(NextLinkNotFound)
        case Some(x) => if |x.href| > 0 then Ok(x.href) else Err(NextLinkNotFound)
  }

  /** The fallback order picks the anchor at index min(2, n - 1) of the
      footer's third div, and fails only when there is no such div or
      anchor or its href is empty. */
  lemma NextLinkChoice(p: Page)
    ensures NextLink(p).Ok? <==>
              p.footer.Some? && |p.footer.value| > 2 && |p.footer.value[2]| > 0
              && p.footer.value[2][Min(2, |p.footer.value[2]| - 1)].href != ""
    ensures NextLink(p).Ok? ==>
              NextLink(p).value == p.footer.value[2][Min(2, |p.footer.value[2]| - 1)].href
    ensures NextLink(p).Err? ==> NextLink(p).error == NextLinkNotFound
  {
  }

  /** What the query asks the network for: the search page for the keywords,
      or a following page by URL. URL escaping stays inside the network. */
  datatype Request = SearchRequest(base: string, keywords: string) | PageRequest(url: string)

  /** The observable outcome of fetching one page: whether the parser
      accepted the start of a document, the transfer's result code, whether
      the parser accepted its end, and the parsed page. */
  datatype Response = Response(parseBegins: bool, curlCode: int, parseEnds: bool, page: Page)

  type Web = Request -> Response

  /** How a query ended: with a rank (1..100 and the URL, or -1 and no URL),
      with an exception, or with the page budget of the model spent. */
  datatype Outcome = Ranked(rank: Rank, pageUrl: Option<string>) | Failed(error: SearchError) | OutOfFuel

  /** The outcome and the values reported to the progress callback, in order. */
  datatype Query = Query(outcome: Outcome, reports: seq<int>)

  /** A rank the query may return, with the URL it returns beside it. */
  predicate ValidRank(domain: string, rank: Rank, pageUrl: Option<string>) {
    || (1 <= rank <= MaxRank && pageUrl.Some? && IsMyDomain(domain, pageUrl.value))
    || (rank == NotRanked && pageUrl.None?)
  }

  predicate NonDecreasing(s: seq<int>) {
    forall i, j :: 0 <= i < j < |s| ==> s[i] <= s[j]
  }

  /** One page of the query and, through the next link, the pages after it.
      `fuel` bounds the number of further pages. */
  function Crawl(e: SearchEngine, domain: string, web: Web, req: Request, counter: nat, fuel: nat): (q: Query)
    requires counter < MaxRank
    ensures q.outcome.Ranked? ==> ValidRank(domain, q.outcome.rank, q.outcome.pageUrl)
    ensures q.outcome.Ranked? && q.outcome.rank != NotRanked ==> q.outcome.rank > counter
    ensures q.outcome.Ranked? ==> |q.reports| > 0 && q.reports[|q.reports| - 1] == MaxRank
    ensures forall i :: 0 <= i < |q.reports| ==> counter <= q.reports[i] <= MaxRank
    ensures forall i :: 0 <= i < |q.reports| && q.reports[i] == MaxRank ==>
              q.outcome.Ranked? && i == |q.reports| - 1
    ensures NonDecreasing(q.reports)
    decreases fuel
  {
    var resp := web(req);
    if !resp.parseBegins then Query(Failed(ParseInit), [])
    else if resp.curlCode != 0 then Query(Failed(HttpRequestFailed(resp.curlCode)), [])
    else if !resp.parseEnds then Query(Failed(ParseEnd), [])
    else
      var s := Scan(domain, resp.page.main.GetOr([]), counter);
      if s.found.Some? then Query(Ranked(s.counter, s.found), [MaxRank as int])
      else if s.counter < MaxRank then
        match NextLink(resp.page)
        case Err(_) => Query(Ranked(NotRanked, None), [MaxRank as int])
        case Ok(href) =>
          if fuel == 0 then Query(OutOfFuel, [s.counter as int])
          else
            var rest := Crawl(e, domain, web, PageRequest(e.url + href), s.counter, fuel - 1);
            Query(rest.outcome, [s.counter as int] + rest.reports)
      else Query(Ranked(NotRanked, None), [MaxRank as int])
  }

  /** The result URLs of the pages the crawl reads, in the order it reads
      them: each page it parses, then the pages its next links lead to for
      as long as it keeps walking. */
  function Visited(e: SearchEngine, domain: string, web: Web, req: Request, counter: nat, fuel: nat): seq<string>
    requires counter < MaxRank
    decreases fuel
  {
    var resp := web(req);
    if !resp.parseBegins || resp.curlCode != 0 || !resp.parseEnds then []
    else
      var nodes := resp.page.main.GetOr([]);
      var s := Scan(domain, nodes, counter);
      var next := NextLink(resp.page);
      if s.found.None? && s.counter < MaxRank && next.Ok? && fuel > 0 then
        ResultUrls(nodes) + Visited(e, domain, web, PageRequest(e.url + next.value), s.counter, fuel - 1)
      else ResultUrls(nodes)
  }

  /** What a rank found from `counter` over the result URLs `us` means: a
      rank r is the position counter + i + 1 of the first URL `us[i]` of the
      domain, within 100; -1 means none of the first `100 - counter` results
      is the domain's. */
  predicate RankAgrees(domain: string, us: seq<string>, counter: nat, rank: Rank, pageUrl: Option<string>)
    requires counter <= MaxRank
  {
    && (rank == NotRanked <==> forall j :: 0 <= j < Min(|us|, MaxRank - counter) ==> !IsMyDomain(domain, us[j]))
    && (rank != NotRanked ==>
          && counter < rank <= MaxRank
          && rank - counter - 1 < |us|
          && pageUrl == Some(us[rank - counter - 1])
          && IsMyDomain(domain, us[rank - counter - 1])
          && forall j :: 0 <= j < rank - counter - 1 ==> !IsMyDomain(domain, us[j]))
  }

  /** A hit of the scan is a rank that agrees with the page's URLs. */
  lemma RankAgreesHit(domain: string, us: seq<string>, counter: nat, s: PageScan)
    requires counter <= s.counter <= MaxRank && ScanAgrees(domain, us, counter, s)
    requires s.found.Some? && IsMyDomain(domain, s.found.value)
    ensures RankAgrees(domain, us, counter, s.counter, s.found)
  {
    var i := s.counter - counter - 1;
    assert i < Min(|us|, MaxRank - counter) && IsMyDomain(domain, us[i]);
  }

  /** A scan that runs out of results, or of room below 100, without a hit
      agrees with -1. */
  lemma RankAgreesMiss(domain: string, us: seq<string>, counter: nat, s: PageScan)
    requires counter <= s.counter <= MaxRank && ScanAgrees(domain, us, counter, s)
    requires s.found.None?
    ensures RankAgrees(domain, us, counter, NotRanked, None)
  {
  }

  /** Foreign URLs ahead of the rest shift the agreement by their number. */
  lemma RankAgreesAppend(domain: string, us: seq<string>, vs: seq<string>, counter: nat, rank: Rank, pageUrl: Option<string>)
    requires counter + |us| < MaxRank
    requires forall j :: 0 <= j < |us| ==> !IsMyDomain(domain, us[j])
    requires RankAgrees(domain, vs, counter + |us|, rank, pageUrl)
    ensures RankAgrees(domain, us + vs, counter, rank, pageUrl)
  {
    var ws := us + vs;
    var n := |us|;
    assert Min(|ws|, MaxRank - counter) == n + Min(|vs|, MaxRank - counter - n);
    if rank != NotRanked {
      var i := rank - counter - n - 1;
      assert ws[i + n] == vs[i];
      forall j | 0 <= j < i + n ensures !IsMyDomain(domain, ws[j]) {
        if j >= n {
          assert ws[j] == vs[j - n];
        }
      }
      assert i + n < Min(|ws|, MaxRank - counter);
    } else {
      forall j | 0 <= j < Min(|ws|, MaxRank - counter) ensures !IsMyDomain(domain, ws[j]) {
        if j >= n {
          assert ws[j] == vs[j - n];
        }
      }
    }
  }

  /** A ranked crawl's rank is the position of the first URL of the domain
      among the result URLs of the pages it read, counted from `counter`,
      and -1 exactly when none of the first `100 - counter` of them is the
      domain's. */
  lemma {:induction false} CrawlMeaning(e: SearchEngine, domain: string, web: Web, req: Request, counter: nat, fuel: nat)
    requires counter < MaxRank
    ensures var q := Crawl(e, domain, web, req, counter, fuel);
      q.outcome.Ranked? ==>
        RankAgrees(domain, Visited(e, domain, web, req, counter, fuel), counter, q.outcome.rank, q.outcome.pageUrl)
    decreases fuel
  {
    var resp := web(req);
    if resp.parseBegins && resp.curlCode == 0 && resp.parseEnds {
      var nodes := resp.page.main.GetOr([]);
      var s := Scan(domain, nodes, counter);
      if Continues(domain, resp.page, counter, fuel) {
        var next := PageRequest(e.url + NextLink(resp.page).value);
        CrawlMeaning(e, domain, web, next, s.counter, fuel - 1);
        CrawlStep(e, domain, web, req, counter, fuel);
        VisitedStep(e, domain, web, req, counter, fuel);
        var rest := Crawl(e, domain, web, next, s.counter, fuel - 1);
        if rest.outcome.Ranked? {
          ScanMeaning(domain, nodes, counter);
          AgreesPastPage(domain, ResultUrls(nodes), Visited(e, domain, web, next, s.counter, fuel - 1), counter, s,
                         rest.outcome.rank, rest.outcome.pageUrl);
        }
      } else {
        CrawlLastPage(e, domain, web, req, counter, fuel);
      }
    }
  }

  /** Whether the crawl goes on past page `p`, reached with the counter at
      `counter`: no hit, room below 100, a next link, and fuel left. */
  predicate Continues(domain: string, p: Page, counter: nat, fuel: nat)
    requires counter <= MaxRank
  {
    var s := Scan(domain, p.main.GetOr([]), counter);
    s.found.None? && s.counter < MaxRank && NextLink(p).Ok? && fuel > 0
  }

  /** A page scanned without a hit, short of 100, puts its foreign URLs
      ahead of whatever the rest of the walk ranks by. */
  lemma AgreesPastPage(domain: string, us: seq<string>, vs: seq<string>, counter: nat, s: PageScan, rank: Rank, pageUrl: Option<string>)
    requires counter <= s.counter < MaxRank && ScanAgrees(domain, us, counter, s) && s.found.None?
    requires RankAgrees(domain, vs, s.counter, rank, pageUrl)
    ensures RankAgrees(domain, us + vs, counter, rank, pageUrl)
  {
    RankAgreesAppend(domain, us, vs, counter, rank, pageUrl);
  }

  /** A crawl that reads no further page ranks by its own page alone. */
  lemma CrawlLastPage(e: SearchEngine, domain: string, web: Web, req: Request, counter: nat, fuel: nat)
    requires counter < MaxRank
    requires web(req).parseBegins && web(req).curlCode == 0 && web(req).parseEnds
    requires !Continues(domain, web(req).page, counter, fuel)
    ensures var q := Crawl(e, domain, web, req, counter, fuel);
      q.outcome.Ranked? ==>
        RankAgrees(domain, Visited(e, domain, web, req, counter, fuel), counter, q.outcome.rank, q.outcome.pageUrl)
  {
    var resp := web(req);
    var nodes := resp.page.main.GetOr([]);
    var us := ResultUrls(nodes);
    var s := Scan(domain, nodes, counter);
    ScanMeaning(domain, nodes, counter);
    assert Visited(e, domain, web, req, counter, fuel) == us;
    var q := Crawl(e, domain, web, req, counter, fuel);
    if s.found.Some? {
      assert q.outcome == Ranked(s.counter, s.found);
      RankAgreesHit(domain, us, counter, s);
    } else if q.outcome.Ranked? {
      assert q.outcome == Ranked(NotRanked, None);
      RankAgreesMiss(domain, us, counter, s);
    }
  }

  /** A crawl that goes on ends as the crawl of the next page does. */
  lemma CrawlStep(e: SearchEngine, domain: string, web: Web, req: Request, counter: nat, fuel: nat)
    requires counter < MaxRank
    requires web(req).parseBegins && web(req).curlCode == 0 && web(req).parseEnds
    requires Continues(domain, web(req).page, counter, fuel)
    ensures var p := web(req).page;
      Crawl(e, domain, web, req, counter, fuel).outcome ==
      Crawl(e, domain, web, PageRequest(e.url + NextLink(p).value), Scan(domain, p.main.GetOr([]), counter).counter, fuel - 1).outcome
  {
  }

  /** A crawl that goes on reads its page's URLs, then the next page's. */
  lemma VisitedStep(e: SearchEngine, domain: string, web: Web, req: Request, counter: nat, fuel: nat)
    requires counter < MaxRank
    requires web(req).parseBegins && web(req).curlCode == 0 && web(req).parseEnds
    requires Continues(domain, web(req).page, counter, fuel)
    ensures var p := web(req).page;
      Visited(e, domain, web, req, counter, fuel) ==
      ResultUrls(p.main.GetOr([])) +
      Visited(e, domain, web, PageRequest(e.url + NextLink(p).value), Scan(domain, p.main.GetOr([]), counter).counter, fuel - 1)
  {
  }

  /** `GoogleEngine::perform_rank_query`: the crawl from the engine's search
      page with the counter at 0. A normal completion reports 100 exactly
      once, as its last value; every earlier report is the counter before a
      next-page fetch. */
  function PerformRankQuery(e: SearchEngine, domain: string, keywords: string, web: Web, fuel: nat): (q: Query)
    ensures q.outcome.Ranked? ==> ValidRank(domain, q.outcome.rank, q.outcome.pageUrl)
    ensures q.outcome.Ranked? ==> |q.reports| > 0 && q.reports[|q.reports| - 1] == MaxRank
    ensures forall i :: 0 <= i < |q.reports| ==> 0 <= q.reports[i] <= MaxRank
    ensures forall i :: 0 <= i < |q.reports| - 1 ==> q.reports[i] < MaxRank
    ensures !q.outcome.Ranked? ==> forall i :: 0 <= i < |q.reports| ==> q.reports[i] < MaxRank
    ensures NonDecreasing(q.reports)
  {
    Crawl(e, domain, web, SearchRequest(e.url, keywords), 0, fuel)
  }

  /** The rank a query produces is the position of the first URL of the
      domain across the result pages it read from the engine's search page,
      and -1 says none of the first 100 is. */
  lemma QueryMeaning(e: SearchEngine, domain: string, keywords: string, web: Web, fuel: nat)
    ensures var q := PerformRankQuery(e, domain, keywords, web, fuel);
      q.outcome.Ranked? ==>
        RankAgrees(domain, Visited(e, domain, web, SearchRequest(e.url, keywords), 0, fuel), 0, q.outcome.rank, q.outcome.pageUrl)
  {
    CrawlMeaning(e, domain, web, SearchRequest(e.url, keywords), 0, fuel);
  }
}
