/**
  The ranking service: refreshing the rankings of one keyword of a domain
  on every search engine the domain is configured for, of every keyword of
  a domain, and of a list of domains. Each level gives its children an
  offset progress adapter built on the progress tracked so far, so the
  progress a caller sees climbs by 100 per engine query.

  A query that fails, or a store call that throws, ends the refresh at
  that point: what was stored before stays in the running transaction.
 */
module Ranking {
  import opened Wrappers
  import opened Entities
  import opened Engines
  import opened RankQuery
  import opened DataModel
  import opened Store
  import opened Provider
  import opened History
  import opened Progress

  /** What can end a refresh early: an exception of a ranking query, an
      exception of the store, or a crawl that ran out of pages to follow. */
  datatype ServiceError = Search(search: SearchError) | Db(db: DbError) | OutOfPages

  /** The tables after a refresh, the error that ended it if any, and the
      progress tracked at its level. */
  datatype Refresh = Refresh(tables: Tables, error: Option<ServiceError>, tracking: Tracking)

  /** A ranking a query may have produced for the key it is filed under: it
      carries the key's date, and it is either "not ranked" with no page or
      a rank between 1 and 100 with a page of `domain`. */
  predicate Fresh(r: Ranking, key: RankingKey, domain: string) {
    && r.date == key.date
    && (|| (r.rank == NotRanked && r.pageUrl == "")
        || (1 <= r.rank <= MaxRank && IsMyDomain(domain, r.pageUrl)))
  }

  /** The ranking of keyword `kid` on engine `e` at date `now` is stored
      and is one a query for `domain` may have produced. */
  predicate RankStored(t: Tables, kid: Id, e: Id, now: nat, domain: string) {
    RankingKey(kid, e, now) in t.rankings && Fresh(t.rankings[RankingKey(kid, e, now)], RankingKey(kid, e, now), domain)
  }

  /** From `t0` to `t1` no ranking was removed and every ranking that
      changed is one a query for `domain` may have produced. */
  predicate OnlyFresh(t0: Tables, t1: Tables, domain: string) {
    && t0.rankings.Keys <= t1.rankings.Keys
    && forall key :: key in t1.rankings ==>
         (key in t0.rankings && t1.rankings[key] == t0.rankings[key]) || Fresh(t1.rankings[key], key, domain)
  }

  /** The catalogue is left alone: only rankings and their index change. */
  predicate SameCatalogue(t0: Tables, t1: Tables) {
    && t1.categories == t0.categories && t1.domains == t0.domains && t1.keywords == t0.keywords
    && t1.categoryDomains == t0.categoryDomains && t1.domainKeywords == t0.domainKeywords
  }

  /** The loop of `refresh_ranking(k, d)` over the domain's engines: query
      the engine, then store the ranking under (k, engine, now). Every
      engine's query runs behind an offset adapter built on the progress
      tracked so far. */
  function EngineLoop(mode: Mode, t: Tables, reg: Registry, k: Keyword, domain: string, engines: seq<Id>,
                      web: Web, now: nat, fuel: nat, s: Tracking): (r: Refresh)
    requires forall i :: 0 <= i < |engines| ==> engines[i] in reg
    ensures SameCatalogue(t, r.tables)
    ensures (!mode.writable || mode.mapFull) && |engines| > 0 ==> r.error.Some?
    ensures r.error.None? ==> r.tracking.crt == s.crt + MaxRank * |engines|
    decreases |engines|
  {
    if |engines| == 0 then Refresh(t, None, s)
    else
      var q := PerformRankQuery(reg[engines[0]], domain, k.value, web, fuel);
      var s1 := RunChild(s, q.reports);
      match q.outcome
      case Failed(err) => Refresh(t, Some(Search(err)), s1)
      case OutOfFuel => Refresh(t, Some(OutOfPages), s1)
      case Ranked(rank, url) =>
        var o := StoreRanking(mode, t, k, engines[0], Ranking(now, rank, url.GetOr("")));
        if o.thrown.Some? then Refresh(o.tables, Some(Db(o.thrown.value)), s1)
        else EngineLoop(mode, o.tables, reg, k, domain, engines[1..], web, now, fuel, s1)
  }

  /** Changes that each keep to `OnlyFresh` compose. */
  lemma OnlyFreshTrans(a: Tables, b: Tables, c: Tables, domain: string)
    requires OnlyFresh(a, b, domain) && OnlyFresh(b, c, domain)
    ensures OnlyFresh(a, c, domain)
  {
  }

  /** A later fresh change for the same domain keeps a stored ranking
      stored: it may overwrite it, but only with another ranking of the
      same date that a query for that domain may have produced. */
  lemma StoredKept(a: Tables, b: Tables, kid: Id, e: Id, now: nat, domain: string)
    requires RankStored(a, kid, e, now, domain) && OnlyFresh(a, b, domain)
    ensures RankStored(b, kid, e, now, domain)
  {
  }

  /** Storing what a query returned is a fresh change that leaves the
      ranking stored. */
  lemma StoreFresh(mode: Mode, t: Tables, k: Keyword, e: Id, domain: string, now: nat, rank: Rank, url: Option<string>)
    requires ValidRank(domain, rank, url)
    requires StoreRanking(mode, t, k, e, Ranking(now, rank, url.GetOr(""))).thrown.None?
    ensures var t1 := StoreRanking(mode, t, k, e, Ranking(now, rank, url.GetOr(""))).tables;
      OnlyFresh(t, t1, domain) && RankStored(t1, k.id, e, now, domain)
  {
    var r := Ranking(now, rank, url.GetOr(""));
    assert Fresh(r, RankingKey(k.id, e, now), domain);
  }

  /** The ranking under `key` was added or replaced from `t0` to `t1`. */
  predicate Changed(t0: Tables, t1: Tables, key: RankingKey) {
    key in t1.rankings && !(key in t0.rankings && t1.rankings[key] == t0.rankings[key])
  }

  /** Only keys of keyword `kid`, of an engine in `engines` and of date
      `now` differ between `t0` and `t1`. */
  ghost predicate ChangedOnly(t0: Tables, t1: Tables, kid: Id, engines: seq<Id>, now: nat) {
    forall key :: Changed(t0, t1, key) ==> key.kwdId == kid && key.engId in engines && key.date == now
  }

  /** Every engine of `engines` has a ranking of keyword `kid` stored at
      `now` that a query for `domain` may have produced. */
  predicate EnginesCovered(t: Tables, kid: Id, engines: seq<Id>, now: nat, domain: string) {
    forall i :: 0 <= i < |engines| ==> RankStored(t, kid, engines[i], now, domain)
  }

  /** The first step of the engine loop when the query ranked and the store
      took the ranking: the rest of the loop runs on the stored tables. */
  lemma EngineStep(mode: Mode, t: Tables, reg: Registry, k: Keyword, domain: string,
                   engines: seq<Id>, web: Web, now: nat, fuel: nat, s: Tracking)
    requires forall i :: 0 <= i < |engines| ==> engines[i] in reg
    requires |engines| > 0
    ensures var q := PerformRankQuery(reg[engines[0]], domain, k.value, web, fuel);
      var r := EngineLoop(mode, t, reg, k, domain, engines, web, now, fuel, s);
      && (!q.outcome.Ranked? ==> r.tables == t && r.error.Some? && r.tracking == RunChild(s, q.reports))
      && (q.outcome.Ranked? ==>
            var o := StoreRanking(mode, t, k, engines[0], Ranking(now, q.outcome.rank, q.outcome.pageUrl.GetOr("")));
            && ValidRank(domain, q.outcome.rank, q.outcome.pageUrl)
            && (o.thrown.Some? ==> r.tables == t && r.error.Some? && r.tracking == RunChild(s, q.reports))
            && (o.thrown.None? ==>
                  r == EngineLoop(mode, o.tables, reg, k, domain, engines[1..], web, now, fuel, RunChild(s, q.reports))))
  {
  }

  /** The engine loop changes only rankings of the keyword, the loop's
      engines and `now`, each one a query for the domain may have
      produced. */
  lemma {:induction false} EngineLoopFresh(mode: Mode, t: Tables, reg: Registry, k: Keyword, domain: string,
                                           engines: seq<Id>, web: Web, now: nat, fuel: nat, s: Tracking)
    requires forall i :: 0 <= i < |engines| ==> engines[i] in reg
    ensures var r := EngineLoop(mode, t, reg, k, domain, engines, web, now, fuel, s);
      OnlyFresh(t, r.tables, domain) && ChangedOnly(t, r.tables, k.id, engines, now)
    decreases |engines|
  {
    if |engines| > 0 {
      EngineStep(mode, t, reg, k, domain, engines, web, now, fuel, s);
      var q := PerformRankQuery(reg[engines[0]], domain, k.value, web, fuel);
      if q.outcome.Ranked? {
        var rank, url := q.outcome.rank, q.outcome.pageUrl;
        var o := StoreRanking(mode, t, k, engines[0], Ranking(now, rank, url.GetOr("")));
        if o.thrown.None? {
          var r := EngineLoop(mode, t, reg, k, domain, engines, web, now, fuel, s);
          var rest := engines[1..];
          StoreFresh(mode, t, k, engines[0], domain, now, rank, url);
          EngineLoopFresh(mode, o.tables, reg, k, domain, rest, web, now, fuel, RunChild(s, q.reports));
          OnlyFreshTrans(t, o.tables, r.tables, domain);
          assert forall e :: e in rest ==> e in engines;
        }
      }
    }
  }

  /** The engine loop keeps the index in agreement with the table. */
  lemma {:induction false} EngineLoopIndexed(mode: Mode, t: Tables, reg: Registry, k: Keyword, domain: string,
                                             engines: seq<Id>, web: Web, now: nat, fuel: nat, s: Tracking)
    requires forall i :: 0 <= i < |engines| ==> engines[i] in reg
    requires Indexed(t)
    ensures Indexed(EngineLoop(mode, t, reg, k, domain, engines, web, now, fuel, s).tables)
    decreases |engines|
  {
    if |engines| > 0 {
      EngineStep(mode, t, reg, k, domain, engines, web, now, fuel, s);
      var q := PerformRankQuery(reg[engines[0]], domain, k.value, web, fuel);
      if q.outcome.Ranked? {
        var r := Ranking(now, q.outcome.rank, q.outcome.pageUrl.GetOr(""));
        var o := StoreRanking(mode, t, k, engines[0], r);
        if o.thrown.None? {
          StoreKeepsIndexed(mode, t, k, engines[0], r);
          EngineLoopIndexed(mode, o.tables, reg, k, domain, engines[1..], web, now, fuel, RunChild(s, q.reports));
        }
      }
    }
  }

  /** When nothing went wrong, the engine loop leaves a ranking of the
      keyword at `now` for every one of its engines. */
  lemma {:induction false} EngineLoopCovers(mode: Mode, t: Tables, reg: Registry, k: Keyword, domain: string,
                                            engines: seq<Id>, web: Web, now: nat, fuel: nat, s: Tracking)
    requires forall i :: 0 <= i < |engines| ==> engines[i] in reg
    ensures var r := EngineLoop(mode, t, reg, k, domain, engines, web, now, fuel, s);
      r.error.None? ==> EnginesCovered(r.tables, k.id, engines, now, domain)
    decreases |engines|
  {
    var r := EngineLoop(mode, t, reg, k, domain, engines, web, now, fuel, s);
    if |engines| > 0 && r.error.None? {
      EngineStep(mode, t, reg, k, domain, engines, web, now, fuel, s);
      var q := PerformRankQuery(reg[engines[0]], domain, k.value, web, fuel);
      var rank, url := q.outcome.rank, q.outcome.pageUrl;
      var o := StoreRanking(mode, t, k, engines[0], Ranking(now, rank, url.GetOr("")));
      var rest := engines[1..];
      StoreFresh(mode, t, k, engines[0], domain, now, rank, url);
      EngineLoopFresh(mode, o.tables, reg, k, domain, rest, web, now, fuel, RunChild(s, q.reports));
      EngineLoopCovers(mode, o.tables, reg, k, domain, rest, web, now, fuel, RunChild(s, q.reports));
      StoredKept(o.tables, r.tables, k.id, engines[0], now, domain);
      forall i | 0 <= i < |engines| ensures RankStored(r.tables, k.id, engines[i], now, domain) {
        if i > 0 {
          assert engines[i] == rest[i - 1];
        }
      }
    }
  }

  /** The engine loop's progress never goes back and grows by at most 100
      per engine. */
  lemma {:induction false} EngineLoopProgress(mode: Mode, t: Tables, reg: Registry, k: Keyword, domain: string,
                                              engines: seq<Id>, web: Web, now: nat, fuel: nat, s: Tracking)
    requires forall i :: 0 <= i < |engines| ==> engines[i] in reg
    ensures Grows(s, EngineLoop(mode, t, reg, k, domain, engines, web, now, fuel, s).tracking, MaxRank * |engines|)
    decreases |engines|
  {
    var r := EngineLoop(mode, t, reg, k, domain, engines, web, now, fuel, s);
    if |engines| == 0 {
      AppendSlices(s.forwarded, []);
    } else {
      EngineStep(mode, t, reg, k, domain, engines, web, now, fuel, s);
      var q := PerformRankQuery(reg[engines[0]], domain, k.value, web, fuel);
      var s1 := RunChild(s, q.reports);
      ChildGrows(s, q.reports, MaxRank);
      if r.tracking == s1 {
        GrowsWeaken(s, s1, MaxRank, MaxRank * |engines|);
      } else {
        var o := StoreRanking(mode, t, k, engines[0], Ranking(now, q.outcome.rank, q.outcome.pageUrl.GetOr("")));
        var rest := engines[1..];
        EngineLoopProgress(mode, o.tables, reg, k, domain, rest, web, now, fuel, s1);
        GrowsTrans(s, s1, r.tracking, MaxRank, MaxRank * |rest|);
      }
    }
  }

  /** `refresh_ranking(k, d)`: every engine of the domain, in ascending id
      order, with one ranking date read before the loop and a tracker
      starting at 0. */
  function RefreshKeyword(mode: Mode, t: Tables, reg: Registry, k: Keyword, d: Domain,
                          web: Web, now: nat, fuel: nat): (r: Refresh)
    requires d.engines <= reg.Keys
    ensures SameCatalogue(t, r.tables)
    ensures (!mode.writable || mode.mapFull) && |d.engines| > 0 ==> r.error.Some?
    ensures r.error.None? ==> r.tracking.crt == MaxRank * |d.engines|
  {
    EngineLoop(mode, t, reg, k, d.name, AscendingIds(d.engines), web, now, fuel, NewTracking(0))
  }

  /** Refreshing one keyword stores, under the one ranking date, a ranking
      for the keyword on every engine of the domain that a query for the
      domain may have produced, changes nothing else and keeps the index in
      agreement with the table. */
  lemma RefreshKeywordStores(mode: Mode, t: Tables, reg: Registry, k: Keyword, d: Domain,
                             web: Web, now: nat, fuel: nat)
    requires d.engines <= reg.Keys
    ensures var r := RefreshKeyword(mode, t, reg, k, d, web, now, fuel);
      && OnlyFresh(t, r.tables, d.name)
      && (forall key :: Changed(t, r.tables, key) ==> key.kwdId == k.id && key.engId in d.engines && key.date == now)
      && (Indexed(t) ==> Indexed(r.tables))
      && (r.error.None? ==> forall e :: e in d.engines ==> RankStored(r.tables, k.id, e, now, d.name))
  {
    var ids := AscendingIds(d.engines);
    var r := RefreshKeyword(mode, t, reg, k, d, web, now, fuel);
    EngineLoopFresh(mode, t, reg, k, d.name, ids, web, now, fuel, NewTracking(0));
    if Indexed(t) {
      EngineLoopIndexed(mode, t, reg, k, d.name, ids, web, now, fuel, NewTracking(0));
    }
    EngineLoopCovers(mode, t, reg, k, d.name, ids, web, now, fuel, NewTracking(0));
    if r.error.None? {
      forall e | e in d.engines ensures RankStored(r.tables, k.id, e, now, d.name) {
        var i :| 0 <= i < |ids| && ids[i] == e;
      }
    }
  }

  /** Refreshing one keyword reports progress from 0 without going back,
      by at most 100 per engine. */
  lemma RefreshKeywordProgress(mode: Mode, t: Tables, reg: Registry, k: Keyword, d: Domain,
                               web: Web, now: nat, fuel: nat)
    requires d.engines <= reg.Keys
    ensures Grows(NewTracking(0), RefreshKeyword(mode, t, reg, k, d, web, now, fuel).tracking, MaxRank * |d.engines|)
  {
    EngineLoopProgress(mode, t, reg, k, d.name, AscendingIds(d.engines), web, now, fuel, NewTracking(0));
  }

  /** One more round of `n` per round. */
  lemma MulStep(n: nat, m: nat)
    requires m > 0
    ensures n * m == n + n * (m - 1) && n * (m - 1) >= 0
  {
  }

  /** The loop of `refresh_ranking(d)` over the keywords read before it;
      the `i`-th keyword's refresh reads the clock as `clock(i)`. */
  function KeywordLoop(mode: Mode, t: Tables, reg: Registry, d: Domain, ks: seq<Keyword>, i: nat,
                       web: Web, clock: nat -> nat, fuel: nat, s: Tracking): (r: Refresh)
    requires d.engines <= reg.Keys
    ensures SameCatalogue(t, r.tables)
    ensures (!mode.writable || mode.mapFull) && |d.engines| > 0 && |ks| > 0 ==> r.error.Some?
    decreases |ks|
  {
    if |ks| == 0 then Refresh(t, None, s)
    else
      var r1 := RefreshKeyword(mode, t, reg, ks[0], d, web, clock(i), fuel);
      var s1 := RunChild(s, r1.tracking.forwarded);
      if r1.error.Some? then Refresh(r1.tables, r1.error, s1)
      else KeywordLoop(mode, r1.tables, reg, d, ks[1..], i + 1, web, clock, fuel, s1)
  }

  /** Every keyword of `ks` has a ranking stored on every engine of the
      domain, the `j`-th under the clock reading `clock(i + j)`. */
  predicate KeywordsCovered(t: Tables, d: Domain, ks: seq<Keyword>, i: nat, clock: nat -> nat) {
    forall j, e :: 0 <= j < |ks| && e in d.engines ==> RankStored(t, ks[j].id, e, clock(i + j), d.name)
  }

  /** The keyword loop changes nothing but rankings a query for the domain
      may have produced, and keeps the index in agreement with the table. */
  lemma {:induction false} KeywordLoopFresh(mode: Mode, t: Tables, reg: Registry, d: Domain, ks: seq<Keyword>, i: nat,
                                            web: Web, clock: nat -> nat, fuel: nat, s: Tracking)
    requires d.engines <= reg.Keys
    ensures var r := KeywordLoop(mode, t, reg, d, ks, i, web, clock, fuel, s);
      OnlyFresh(t, r.tables, d.name) && (Indexed(t) ==> Indexed(r.tables))
    decreases |ks|
  {
    var r := KeywordLoop(mode, t, reg, d, ks, i, web, clock, fuel, s);
    if |ks| > 0 {
      var r1 := RefreshKeyword(mode, t, reg, ks[0], d, web, clock(i), fuel);
      RefreshKeywordStores(mode, t, reg, ks[0], d, web, clock(i), fuel);
      var s1 := RunChild(s, r1.tracking.forwarded);
      if r1.error.None? {
        KeywordLoopFresh(mode, r1.tables, reg, d, ks[1..], i + 1, web, clock, fuel, s1);
        assert r == KeywordLoop(mode, r1.tables, reg, d, ks[1..], i + 1, web, clock, fuel, s1);
        OnlyFreshTrans(t, r1.tables, r.tables, d.name);
      }
    }
  }

  /** When nothing went wrong, the keyword loop stores, for every keyword
      and every engine of the domain, a ranking dated by that keyword's
      clock reading. */
  lemma {:induction false} KeywordLoopCovers(mode: Mode, t: Tables, reg: Registry, d: Domain, ks: seq<Keyword>, i: nat,
                                             web: Web, clock: nat -> nat, fuel: nat, s: Tracking)
    requires d.engines <= reg.Keys
    ensures var r := KeywordLoop(mode, t, reg, d, ks, i, web, clock, fuel, s);
      r.error.None? ==> KeywordsCovered(r.tables, d, ks, i, clock)
    decreases |ks|
  {
    var r := KeywordLoop(mode, t, reg, d, ks, i, web, clock, fuel, s);
    if |ks| > 0 {
      var r1 := RefreshKeyword(mode, t, reg, ks[0], d, web, clock(i), fuel);
      var s1 := RunChild(s, r1.tracking.forwarded);
      if r1.error.None? {
        var rest := ks[1..];
        var r2 := KeywordLoop(mode, r1.tables, reg, d, rest, i + 1, web, clock, fuel, s1);
        assert r == r2;
        if r.error.None? {
          RefreshKeywordStores(mode, t, reg, ks[0], d, web, clock(i), fuel);
          KeywordLoopFresh(mode, r1.tables, reg, d, rest, i + 1, web, clock, fuel, s1);
          KeywordLoopCovers(mode, r1.tables, reg, d, rest, i + 1, web, clock, fuel, s1);
          CoverStep(r1.tables, r2.tables, d, ks, i, clock);
        }
      }
    }
  }

  /** The coverage of the first keyword, kept by the fresh changes of the
      rest, joins the coverage of the rest. */
  lemma CoverStep(t1: Tables, t2: Tables, d: Domain, ks: seq<Keyword>, i: nat, clock: nat -> nat)
    requires |ks| > 0
    requires forall e :: e in d.engines ==> RankStored(t1, ks[0].id, e, clock(i), d.name)
    requires OnlyFresh(t1, t2, d.name)
    requires KeywordsCovered(t2, d, ks[1..], i + 1, clock)
    ensures KeywordsCovered(t2, d, ks, i, clock)
  {
    forall j, e | 0 <= j < |ks| && e in d.engines ensures RankStored(t2, ks[j].id, e, clock(i + j), d.name) {
      if j == 0 {
        StoredKept(t1, t2, ks[0].id, e, clock(i), d.name);
      } else {
        assert ks[j] == ks[1..][j - 1] && i + j == i + 1 + (j - 1);
      }
    }
  }

  /** The keyword loop's progress never goes back and grows by at most 100
      per query. */
  lemma {:induction false} KeywordLoopProgress(mode: Mode, t: Tables, reg: Registry, d: Domain, ks: seq<Keyword>, i: nat,
                                               web: Web, clock: nat -> nat, fuel: nat, s: Tracking)
    requires d.engines <= reg.Keys
    ensures var r := KeywordLoop(mode, t, reg, d, ks, i, web, clock, fuel, s);
      && Grows(s, r.tracking, MaxRank * |d.engines| * |ks|)
      && (r.error.None? ==> r.tracking.crt == s.crt + MaxRank * |d.engines| * |ks|)
    decreases |ks|
  {
    var r := KeywordLoop(mode, t, reg, d, ks, i, web, clock, fuel, s);
    if |ks| == 0 {
      AppendSlices(s.forwarded, []);
    } else {
      var n := MaxRank * |d.engines|;
      var r1 := RefreshKeyword(mode, t, reg, ks[0], d, web, clock(i), fuel);
      RefreshKeywordProgress(mode, t, reg, ks[0], d, web, clock(i), fuel);
      NestedChild(s, r1.tracking, n);
      var s1 := RunChild(s, r1.tracking.forwarded);
      var rest := ks[1..];
      var b := n * |rest|;
      MulStep(n, |ks|);
      assert n * |ks| == n + b;
      if r1.error.Some? {
        GrowsWeaken(s, s1, n, n + b);
      } else {
        KeywordLoopProgress(mode, r1.tables, reg, d, rest, i + 1, web, clock, fuel, s1);
        assert r == KeywordLoop(mode, r1.tables, reg, d, rest, i + 1, web, clock, fuel, s1);
        GrowsTrans(s, s1, r.tracking, n, b);
      }
    }
  }

  /** `refresh_ranking(d)`: the domain's keywords as the store lists them,
      each refreshed in turn, with a tracker starting at 0. */
  function RefreshDomain(mode: Mode, t: Tables, reg: Registry, d: Domain, web: Web, clock: nat -> nat, fuel: nat): (r: Refresh)
    requires d.engines <= reg.Keys
    ensures SameCatalogue(t, r.tables)
    ensures (!mode.writable || mode.mapFull) && |d.engines| > 0 && |Keywords(t, d)| > 0 ==> r.error.Some?
  {
    KeywordLoop(mode, t, reg, d, Keywords(t, d), 0, web, clock, fuel, NewTracking(0))
  }

  /** Refreshing a domain stores a ranking for each of its keywords on each
      of its engines when nothing went wrong, changes nothing but such
      rankings and keeps the index in agreement with the table. */
  lemma RefreshDomainStores(mode: Mode, t: Tables, reg: Registry, d: Domain, web: Web, clock: nat -> nat, fuel: nat)
    requires d.engines <= reg.Keys
    ensures var r := RefreshDomain(mode, t, reg, d, web, clock, fuel);
      && OnlyFresh(t, r.tables, d.name)
      && (Indexed(t) ==> Indexed(r.tables))
      && (r.error.None? ==> KeywordsCovered(r.tables, d, Keywords(t, d), 0, clock))
  {
    KeywordLoopFresh(mode, t, reg, d, Keywords(t, d), 0, web, clock, fuel, NewTracking(0));
    KeywordLoopCovers(mode, t, reg, d, Keywords(t, d), 0, web, clock, fuel, NewTracking(0));
  }

  /** Refreshing a domain reports progress from 0 without going back, up to
      100 per query, reaching exactly that when nothing went wrong. */
  lemma RefreshDomainProgress(mode: Mode, t: Tables, reg: Registry, d: Domain, web: Web, clock: nat -> nat, fuel: nat)
    requires d.engines <= reg.Keys
    ensures var r := RefreshDomain(mode, t, reg, d, web, clock, fuel);
      && Grows(NewTracking(0), r.tracking, MaxRank * |d.engines| * |Keywords(t, d)|)
      && (r.error.None? ==> r.tracking.crt == MaxRank * |d.engines| * |Keywords(t, d)|)
  {
    KeywordLoopProgress(mode, t, reg, d, Keywords(t, d), 0, web, clock, fuel, NewTracking(0));
  }

  /** A ranking some query may have produced for the key it is filed
      under, whatever the domain: the key's date, and "not ranked" or a rank
      between 1 and 100. */
  predicate Plausible(r: Ranking, key: RankingKey) {
    r.date == key.date && (r.rank == NotRanked || 1 <= r.rank <= MaxRank)
  }

  /** From `t0` to `t1` no ranking was removed and every ranking that
      changed is plausible. */
  predicate OnlyPlausible(t0: Tables, t1: Tables) {
    && t0.rankings.Keys <= t1.rankings.Keys
    && forall key :: key in t1.rankings ==>
         (key in t0.rankings && t1.rankings[key] == t0.rankings[key]) || Plausible(t1.rankings[key], key)
  }

  /** Fresh changes for any one domain are plausible, and plausible changes
      compose. */
  lemma PlausibleSteps(t0: Tables, t1: Tables, t2: Tables, domain: string)
    requires OnlyFresh(t0, t1, domain) && OnlyPlausible(t1, t2)
    ensures OnlyPlausible(t0, t2)
  {
  }

  /** The store lists the same keywords for a domain while the catalogue
      is left alone. */
  lemma KeywordsKept(t0: Tables, t1: Tables, d: Domain)
    requires SameCatalogue(t0, t1)
    ensures Keywords(t1, d) == Keywords(t0, d)
  {
  }

  /** The number of queries, times 100, that refreshing the domains runs
      when nothing goes wrong. */
  function Work(t: Tables, ds: seq<Domain>): (w: int)
    ensures w >= 0
    decreases |ds|
  {
    if |ds| == 0 then 0
    else
      Fullness(|ds[0].engines|, |Keywords(t, ds[0])|);
      MaxRank * |ds[0].engines| * |Keywords(t, ds[0])| + Work(t, ds[1..])
  }

  /** 100 per query is never negative. */
  lemma Fullness(engines: nat, keywords: nat)
    ensures MaxRank * engines * keywords >= 0
  {
  }

  /** The loop of `refresh_ranking(ds)` over a list of domains; the
      `i`-th domain's refresh reads the clock through `clock(i)`. */
  function DomainLoop(mode: Mode, t: Tables, reg: Registry, ds: seq<Domain>, i: nat,
                      web: Web, clock: nat -> nat -> nat, fuel: nat, s: Tracking): (r: Refresh)
    requires forall x :: 0 <= x < |ds| ==> ds[x].engines <= reg.Keys
    ensures SameCatalogue(t, r.tables)
    decreases |ds|
  {
    if |ds| == 0 then Refresh(t, None, s)
    else
      var r1 := RefreshDomain(mode, t, reg, ds[0], web, clock(i), fuel);
      var s1 := RunChild(s, r1.tracking.forwarded);
      if r1.error.Some? then Refresh(r1.tables, r1.error, s1)
      else DomainLoop(mode, r1.tables, reg, ds[1..], i + 1, web, clock, fuel, s1)
  }

  /** Every keyword of `d` has a ranking stored on every engine of `d`,
      under the clock reading `c` gave for it. */
  predicate DomainCovered(t: Tables, t0: Tables, d: Domain, c: nat -> nat) {
    forall j, e :: 0 <= j < |Keywords(t0, d)| && e in d.engines ==>
      RankingKey(Keywords(t0, d)[j].id, e, c(j)) in t.rankings
  }

  /** Every keyword of every domain has a ranking stored, on every engine of
      its domain, under that domain's clock reading for it. */
  predicate Covered(t: Tables, t0: Tables, ds: seq<Domain>, i: nat, clock: nat -> nat -> nat) {
    forall x :: 0 <= x < |ds| ==> DomainCovered(t, t0, ds[x], clock(i + x))
  }

  /** A refreshed domain's coverage survives later changes that remove no
      ranking. */
  lemma DomainCoveredKept(t0: Tables, t1: Tables, t2: Tables, d: Domain, c: nat -> nat)
    requires KeywordsCovered(t1, d, Keywords(t0, d), 0, c)
    requires t1.rankings.Keys <= t2.rankings.Keys
    ensures DomainCovered(t2, t0, d, c)
  {
    forall j, e | 0 <= j < |Keywords(t0, d)| && e in d.engines
      ensures RankingKey(Keywords(t0, d)[j].id, e, c(j)) in t2.rankings
    {
      assert RankStored(t1, Keywords(t0, d)[j].id, e, c(0 + j), d.name);
    }
  }

  /** The coverage of the first domain, kept by the later changes, joins
      the coverage of the rest. */
  lemma DomainCoverStep(t0: Tables, t1: Tables, t2: Tables, ds: seq<Domain>, i: nat, clock: nat -> nat -> nat)
    requires |ds| > 0 && SameCatalogue(t0, t1)
    requires KeywordsCovered(t1, ds[0], Keywords(t0, ds[0]), 0, clock(i))
    requires t1.rankings.Keys <= t2.rankings.Keys
    requires Covered(t2, t1, ds[1..], i + 1, clock)
    ensures Covered(t2, t0, ds, i, clock)
  {
    forall x | 0 <= x < |ds| ensures DomainCovered(t2, t0, ds[x], clock(i + x)) {
      if x == 0 {
        DomainCoveredKept(t0, t1, t2, ds[0], clock(i));
      } else {
        KeywordsKept(t0, t1, ds[x]);
        assert ds[1..][x - 1] == ds[x] && i + 1 + (x - 1) == i + x;
        assert DomainCovered(t2, t1, ds[1..][x - 1], clock(i + 1 + (x - 1)));
      }
    }
  }

  /** The domain loop changes only rankings, plausibly, keeps the index in
      agreement and, when nothing went wrong, covers every keyword of every
      domain on every engine of its domain. */
  lemma {:induction false} DomainLoopStores(mode: Mode, t: Tables, reg: Registry, ds: seq<Domain>, i: nat,
                                            web: Web, clock: nat -> nat -> nat, fuel: nat, s: Tracking)
    requires forall x :: 0 <= x < |ds| ==> ds[x].engines <= reg.Keys
    ensures var r := DomainLoop(mode, t, reg, ds, i, web, clock, fuel, s);
      && OnlyPlausible(t, r.tables)
      && (Indexed(t) ==> Indexed(r.tables))
      && (r.error.None? ==> Covered(r.tables, t, ds, i, clock))
    decreases |ds|
  {
    var r := DomainLoop(mode, t, reg, ds, i, web, clock, fuel, s);
    if |ds| > 0 {
      var r1 := RefreshDomain(mode, t, reg, ds[0], web, clock(i), fuel);
      RefreshDomainStores(mode, t, reg, ds[0], web, clock(i), fuel);
      var s1 := RunChild(s, r1.tracking.forwarded);
      if r1.error.None? {
        var rest := ds[1..];
        DomainLoopStores(mode, r1.tables, reg, rest, i + 1, web, clock, fuel, s1);
        assert r == DomainLoop(mode, r1.tables, reg, rest, i + 1, web, clock, fuel, s1);
        PlausibleSteps(t, r1.tables, r.tables, ds[0].name);
        if r.error.None? {
          DomainCoverStep(t, r1.tables, r.tables, ds, i, clock);
        }
      }
    }
  }

  /** Leaving the catalogue alone leaves the work of refreshing the
      domains alone. */
  lemma {:induction false} WorkKept(t0: Tables, t1: Tables, ds: seq<Domain>)
    requires SameCatalogue(t0, t1)
    ensures Work(t1, ds) == Work(t0, ds)
    decreases |ds|
  {
    if |ds| > 0 {
      KeywordsKept(t0, t1, ds[0]);
      WorkKept(t0, t1, ds[1..]);
    }
  }

  /** The domain loop's progress never goes back, grows by at most 100 per
      query, and by exactly that when nothing went wrong. */
  lemma {:induction false} DomainLoopProgress(mode: Mode, t: Tables, reg: Registry, ds: seq<Domain>, i: nat,
                                              web: Web, clock: nat -> nat -> nat, fuel: nat, s: Tracking)
    requires forall x :: 0 <= x < |ds| ==> ds[x].engines <= reg.Keys
    ensures var r := DomainLoop(mode, t, reg, ds, i, web, clock, fuel, s);
      && Grows(s, r.tracking, Work(t, ds))
      && (r.error.None? ==> r.tracking.crt == s.crt + Work(t, ds))
    decreases |ds|
  {
    var r := DomainLoop(mode, t, reg, ds, i, web, clock, fuel, s);
    if |ds| == 0 {
      AppendSlices(s.forwarded, []);
    } else {
      var n := MaxRank * |ds[0].engines| * |Keywords(t, ds[0])|;
      var r1 := RefreshDomain(mode, t, reg, ds[0], web, clock(i), fuel);
      RefreshDomainProgress(mode, t, reg, ds[0], web, clock(i), fuel);
      NestedChild(s, r1.tracking, n);
      var s1 := RunChild(s, r1.tracking.forwarded);
      var rest := ds[1..];
      var b := Work(t, rest);
      assert Work(t, ds) == n + b;
      if r1.error.Some? {
        GrowsWeaken(s, s1, n, n + b);
      } else {
        DomainLoopProgress(mode, r1.tables, reg, rest, i + 1, web, clock, fuel, s1);
        assert r == DomainLoop(mode, r1.tables, reg, rest, i + 1, web, clock, fuel, s1);
        WorkKept(t, r1.tables, rest);
        GrowsTrans(s, s1, r.tracking, n, b);
      }
    }
  }

  /** `refresh_ranking(ds)`: every domain of the list in turn, with a
      tracker starting at 0. */
  function RefreshAll(mode: Mode, t: Tables, reg: Registry, ds: seq<Domain>,
                      web: Web, clock: nat -> nat -> nat, fuel: nat): (r: Refresh)
    requires forall x :: 0 <= x < |ds| ==> ds[x].engines <= reg.Keys
    ensures SameCatalogue(t, r.tables)
  {
    DomainLoop(mode, t, reg, ds, 0, web, clock, fuel, NewTracking(0))
  }

  /** Refreshing a list of domains changes only rankings, plausibly, keeps
      the index in agreement, covers every keyword of every domain when
      nothing went wrong, and reports progress from 0 without going back up
      to 100 per query, reaching exactly that when nothing went wrong. */
  lemma RefreshAllStores(mode: Mode, t: Tables, reg: Registry, ds: seq<Domain>,
                         web: Web, clock: nat -> nat -> nat, fuel: nat)
    requires forall x :: 0 <= x < |ds| ==> ds[x].engines <= reg.Keys
    ensures var r := RefreshAll(mode, t, reg, ds, web, clock, fuel);
      && OnlyPlausible(t, r.tables)
      && (Indexed(t) ==> Indexed(r.tables))
      && (r.error.None? ==> Covered(r.tables, t, ds, 0, clock))
      && Grows(NewTracking(0), r.tracking, Work(t, ds))
      && (r.error.None? ==> r.tracking.crt == Work(t, ds))
  {
    DomainLoopStores(mode, t, reg, ds, 0, web, clock, fuel, NewTracking(0));
    DomainLoopProgress(mode, t, reg, ds, 0, web, clock, fuel, NewTracking(0));
  }
}
