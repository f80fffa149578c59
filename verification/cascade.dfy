/**
  Cascading deletes: the rankings of a keyword on one engine, a keyword
  with its link and rankings, a domain with its keywords, and a category
  with its domains. Each step swallows some not-found exceptions and lets
  every other exception escape.
 */
module Cascade {
  import opened Wrappers
  import opened Sorted
  import opened Entities
  import opened DataModel
  import opened Store
  import opened Provider
  import opened History

  /** No value occurs twice. */
  predicate Distinct<T(==)>(s: seq<T>) {
    forall i, j :: 0 <= i < j < |s| ==> s[i] != s[j]
  }

  /** The keys the history walk looks up are all different. */
  lemma HistoryKeysDistinct(t: Tables, k: Keyword, e: Id)
    ensures Distinct(HistoryKeys(t, k, e))
  {
    var h := Dates(t, k, e);
    var keys := HistoryKeys(t, k, e);
    forall i, j | 0 <= i < j < |keys| ensures keys[i] != keys[j] {
      assert h[i] < h[j];
    }
  }

  /** A walk that never meets `x` reads the same without it. */
  lemma {:induction false} PrefixWithout<K, V>(m: map<K, V>, x: K, keys: seq<K>)
    requires x !in keys
    ensures Prefix(m - {x}, keys) == Prefix(m, keys)
    decreases |keys|
  {
    if |keys| > 0 {
      assert keys[0] != x;
      assert x !in keys[1..] by {
        assert forall y :: y in keys[1..] ==> y in keys;
      }
      PrefixWithout(m, x, keys[1..]);
    }
  }

  /** The loop of `delete_rankings`: deletes the records under `keys` in
      order and stops, without complaint, at the first missing one; any
      other failure escapes. */
  function Sweep(mode: Mode, m: map<RankingKey, Ranking>, keys: seq<RankingKey>): (r: Result<map<RankingKey, Ranking>, DbError>)
    requires Distinct(keys)
    ensures !mode.writable && |keys| > 0 ==> r == Err(Failure(DbCall.Del, Eacces))
    ensures mode.writable ==> r.Ok?
    ensures r.Ok? ==> forall x :: x in r.value <==> x in m && x !in keys[..|Prefix(m, keys)|]
    ensures r.Ok? ==> forall x :: x in r.value ==> r.value[x] == m[x]
    decreases |keys|
  {
    if |keys| == 0 then Ok(m)
    else
      match DelRecord(mode, m, keys[0])
      case Err(err) => if err.NotFound? then Ok(m) else Err(err)
      case Ok(m1) =>
        DistinctTail(keys);
        var r := Sweep(mode, m1, keys[1..]);
        if r.Ok? then SweepStep(m, keys, r.value); r else r
  }

  /** The tail of a sequence without repeats has none and lacks the head. */
  lemma DistinctTail<T>(s: seq<T>)
    requires Distinct(s) && |s| > 0
    ensures Distinct(s[1..]) && s[0] !in s[1..]
  {
    forall i, j | 0 <= i < j < |s[1..]| ensures s[1..][i] != s[1..][j] {
      assert s[1..][i] == s[i + 1] && s[1..][j] == s[j + 1];
    }
    forall i | 0 <= i < |s[1..]| ensures s[1..][i] != s[0] {
      assert s[1..][i] == s[i + 1];
    }
  }

  /** Deleting the first key, present, and then sweeping the rest deletes
      exactly the keys the whole walk reads. */
  lemma SweepStep<K, V>(m: map<K, V>, keys: seq<K>, r: map<K, V>)
    requires |keys| > 0 && keys[0] in m && keys[0] !in keys[1..]
    requires forall x :: x in r <==> x in m - {keys[0]} && x !in keys[1..][..|Prefix(m - {keys[0]}, keys[1..])|]
    ensures forall x :: x in r <==> x in m && x !in keys[..|Prefix(m, keys)|]
  {
    PrefixWithout(m, keys[0], keys[1..]);
    var n := |Prefix(m, keys[1..])|;
    ReadOneMore(m, keys);
    ReadCons(keys, n);
    forall x
      ensures x in r <==> x in m && x !in keys[..n + 1]
    {
      assert x in keys[..n + 1] <==> x == keys[0] || x in keys[1..][..n];
    }
  }

  /** A walk whose first key has a record reads one key more than the walk
      from the second key. */
  lemma ReadOneMore<K, V>(m: map<K, V>, keys: seq<K>)
    requires |keys| > 0 && keys[0] in m
    ensures |Prefix(m, keys)| == |Prefix(m, keys[1..])| + 1
  {
  }

  /** The first `n + 1` keys are the first key and then `n` keys of the
      rest. */
  lemma ReadCons<K>(keys: seq<K>, n: nat)
    requires n < |keys|
    ensures keys[..n + 1] == [keys[0]] + keys[1..][..n]
  {
  }

  /** `delete_rankings` once the cursor has found the pair's first date:
      the sweep, then the removal of the pair's whole index entry, whose
      not-found is swallowed. */
  function SweepHistory(mode: Mode, t: Tables, k: Keyword, e: Id): (o: Outcome)
    ensures o.tables.categories == t.categories && o.tables.domains == t.domains && o.tables.keywords == t.keywords
    ensures o.tables.categoryDomains == t.categoryDomains && o.tables.domainKeywords == t.domainKeywords
    ensures !mode.writable && |Dates(t, k, e)| > 0 ==> o == Outcome(t, Some(Failure(DbCall.Del, Eacces)))
    ensures mode.writable ==> o.thrown.None?
    ensures mode.writable ==> Dups(o.tables.keywordRanking, Pair(k, e)) == {}
    ensures mode.writable ==> forall ke :: ke != Pair(k, e) ==> Dups(o.tables.keywordRanking, ke) == Dups(t.keywordRanking, ke)
    ensures mode.writable ==> forall x :: x in o.tables.rankings <==>
              x in t.rankings && x !in HistoryKeys(t, k, e)[..|Rankings(t, k, e)|]
    ensures mode.writable ==> forall x :: x in o.tables.rankings ==> o.tables.rankings[x] == t.rankings[x]
  {
    HistoryKeysDistinct(t, k, e);
    RankingsWalk(t, k, e);
    SweepKeys(mode, t, HistoryKeys(t, k, e), k, e)
  }

  /** The sweep along `keys` and the removal of the pair's index entry. */
  function SweepKeys(mode: Mode, t: Tables, keys: seq<RankingKey>, k: Keyword, e: Id): (o: Outcome)
    requires Distinct(keys)
    ensures o.tables.categories == t.categories && o.tables.domains == t.domains && o.tables.keywords == t.keywords
    ensures o.tables.categoryDomains == t.categoryDomains && o.tables.domainKeywords == t.domainKeywords
    ensures !mode.writable && |keys| > 0 ==> o == Outcome(t, Some(Failure(DbCall.Del, Eacces)))
    ensures mode.writable ==> o.thrown.None?
    ensures mode.writable ==> Dups(o.tables.keywordRanking, Pair(k, e)) == {}
    ensures mode.writable ==> forall ke :: ke != Pair(k, e) ==> Dups(o.tables.keywordRanking, ke) == Dups(t.keywordRanking, ke)
    ensures mode.writable ==> forall x :: x in o.tables.rankings <==>
              x in t.rankings && x !in keys[..|Prefix(t.rankings, keys)|]
    ensures mode.writable ==> forall x :: x in o.tables.rankings ==> o.tables.rankings[x] == t.rankings[x]
  {
    match Sweep(mode, t.rankings, keys)
    case Err(err) => Outcome(t, Some(err))
    case Ok(m) => DropIndex(mode, t, m, k, e)
  }

  /** The history is the walk of the rankings table along the pair's keys. */
  lemma RankingsWalk(t: Tables, k: Keyword, e: Id)
    ensures Rankings(t, k, e) == Prefix(t.rankings, HistoryKeys(t, k, e))
    ensures |HistoryKeys(t, k, e)| == |Dates(t, k, e)|
  {
  }

  /** The end of `delete_rankings`: the swept records `m`, then the removal
      of the pair's whole index entry, whose not-found is swallowed. */
  function DropIndex(mode: Mode, t: Tables, m: map<RankingKey, Ranking>, k: Keyword, e: Id): (o: Outcome)
    ensures o.tables == t.(rankings := m, keywordRanking := o.tables.keywordRanking)
    ensures mode.writable ==> o.thrown.None?
    ensures mode.writable ==> Dups(o.tables.keywordRanking, Pair(k, e)) == {}
    ensures mode.writable ==> forall ke :: ke != Pair(k, e) ==> Dups(o.tables.keywordRanking, ke) == Dups(t.keywordRanking, ke)
  {
    match DelKey(mode, t.keywordRanking, Pair(k, e))
    case Err(err) =>
      Outcome(t.(rankings := m), if err.NotFound? then None else Some(err))
    case Ok(ix) => Outcome(t.(rankings := m, keywordRanking := ix), None)
  }

  /** `delete_rankings(k, e)` as written: positioning the cursor on a pair
      without history raises a not-found that escapes to the caller. */
  function DeleteRankingsAsWritten(mode: Mode, t: Tables, k: Keyword, e: Id): (o: Outcome)
    ensures Dups(t.keywordRanking, Pair(k, e)) == {} ==> o == Outcome(t, Some(NotFound))
    ensures Dups(t.keywordRanking, Pair(k, e)) != {} ==> o == DeleteRankings(mode, t, k, e)
  {
    if |Dates(t, k, e)| == 0 then Outcome(t, Some(NotFound))
    else SweepHistory(mode, t, k, e)
  }

  /** `delete_rankings(k, e)` as evidently intended: a pair without history
      has nothing to delete. */
  function DeleteRankings(mode: Mode, t: Tables, k: Keyword, e: Id): (o: Outcome)
    ensures o.tables.categories == t.categories && o.tables.domains == t.domains && o.tables.keywords == t.keywords
    ensures o.tables.categoryDomains == t.categoryDomains && o.tables.domainKeywords == t.domainKeywords
    ensures o.thrown.None? <==> mode.writable || Dups(t.keywordRanking, Pair(k, e)) == {}
    ensures o.thrown.Some? ==> o == Outcome(t, Some(Failure(DbCall.Del, Eacces)))
    ensures !mode.writable ==> o.tables == t
    ensures mode.writable ==> Dups(o.tables.keywordRanking, Pair(k, e)) == {}
    ensures o.tables.rankings.Keys <= t.rankings.Keys
    ensures forall x :: x in o.tables.rankings ==> o.tables.rankings[x] == t.rankings[x]
    ensures forall ke :: ke != Pair(k, e) ==> Dups(o.tables.keywordRanking, ke) == Dups(t.keywordRanking, ke)
    ensures forall x :: x in t.rankings && (x.kwdId != k.id || x.engId != e) ==> x in o.tables.rankings
  {
    if |Dates(t, k, e)| == 0 then Outcome(t, None)
    else
      var o := SweepHistory(mode, t, k, e);
      assert forall x :: x in HistoryKeys(t, k, e) ==> x.kwdId == k.id && x.engId == e;
      o
  }

  /** Nothing of the pair is left: no record of its rankings and no entry
      in its index. */
  predicate NoRankings(t: Tables, k: Keyword, e: Id) {
    && Dups(t.keywordRanking, Pair(k, e)) == {}
    && forall x :: x in t.rankings ==> x.kwdId != k.id || x.engId != e
  }

  /** With table and index in agreement, every record of the pair is one
      the history walk looks up. */
  lemma HistoryCoversPair(t: Tables, k: Keyword, e: Id)
    requires Indexed(t)
    ensures forall x :: x in t.rankings && x.kwdId == k.id && x.engId == e ==> x in HistoryKeys(t, k, e)
  {
    var keys := HistoryKeys(t, k, e);
    forall x | x in t.rankings && x.kwdId == k.id && x.engId == e ensures x in keys {
      assert x.date in Dups(t.keywordRanking, Pair(k, e));
      assert x.date in Dates(t, k, e);
      var i :| 0 <= i < |keys| && Dates(t, k, e)[i] == x.date;
      assert keys[i] == x;
    }
  }

  /** With table and index in agreement, deleting in a writable
      transaction removes every ranking of the pair. */
  lemma DeleteRankingsClears(mode: Mode, t: Tables, k: Keyword, e: Id)
    requires Indexed(t) && mode.writable
    ensures DeleteRankings(mode, t, k, e).thrown.None?
    ensures NoRankings(DeleteRankings(mode, t, k, e).tables, k, e)
  {
    WalkReadsAll(t, k, e);
    var keys := HistoryKeys(t, k, e);
    var o := DeleteRankings(mode, t, k, e);
    if |Dates(t, k, e)| == 0 {
      assert o.tables == t && keys == [];
      SweptClean(t, t, k, e, keys);
    } else {
      assert o == SweepHistory(mode, t, k, e);
      SweptClean(t, o.tables, k, e, keys);
    }
  }

  /** With table and index in agreement, the walk reads every key of the
      history, and those are all the pair's records. */
  lemma WalkReadsAll(t: Tables, k: Keyword, e: Id)
    requires Indexed(t)
    ensures HistoryKeys(t, k, e)[..|Rankings(t, k, e)|] == HistoryKeys(t, k, e)
    ensures forall x :: x in t.rankings && x.kwdId == k.id && x.engId == e ==> x in HistoryKeys(t, k, e)
  {
    RankingsComplete(t, k, e);
    HistoryCoversPair(t, k, e);
  }

  /** Removing every key of the pair's history leaves none of its records. */
  lemma SweptClean(t: Tables, t2: Tables, k: Keyword, e: Id, keys: seq<RankingKey>)
    requires forall x :: x in t2.rankings <==> x in t.rankings && x !in keys
    requires forall x :: x in t.rankings && x.kwdId == k.id && x.engId == e ==> x in keys
    requires Dups(t2.keywordRanking, Pair(k, e)) == {}
    ensures NoRankings(t2, k, e)
  {
  }

  /** ... and keeps table and index in agreement. */
  lemma DeleteRankingsKeepsIndexed(mode: Mode, t: Tables, k: Keyword, e: Id)
    requires Indexed(t) && mode.writable
    ensures Indexed(DeleteRankings(mode, t, k, e).tables)
  {
    var o := DeleteRankings(mode, t, k, e);
    DeleteRankingsClears(mode, t, k, e);
    forall ke, d | ke in o.tables.keywordRanking && d in o.tables.keywordRanking[ke]
      ensures RankingKey(ke.kwdId, ke.engId, d) in o.tables.rankings
    {
      assert d in Dups(o.tables.keywordRanking, ke);
      assert d in Dups(t.keywordRanking, ke);
    }
  }

  /** The engine loop of `deleteKeyword`: the rankings of the keyword on
      each engine in turn, up to the first exception. */
  function DeleteEngineRankings(mode: Mode, t: Tables, k: Keyword, engines: seq<Id>, asWritten: bool): (o: Outcome)
    ensures o.tables.categories == t.categories && o.tables.domains == t.domains && o.tables.keywords == t.keywords
    ensures o.tables.categoryDomains == t.categoryDomains && o.tables.domainKeywords == t.domainKeywords
    ensures o.thrown.Some? ==> o.thrown == Some(NotFound) || o.thrown == Some(Failure(DbCall.Del, Eacces))
    ensures mode.writable && !asWritten ==> o.thrown.None?
    ensures mode.writable ==> o.thrown.None? || o.thrown == Some(NotFound)
    ensures !mode.writable ==> o.tables == t
    ensures o.tables.rankings.Keys <= t.rankings.Keys
    ensures forall x :: x in o.tables.rankings ==> o.tables.rankings[x] == t.rankings[x]
    ensures forall x :: x in t.rankings && (x.kwdId != k.id || x.engId !in engines) ==> x in o.tables.rankings
    ensures forall ke :: Dups(o.tables.keywordRanking, ke) <= Dups(t.keywordRanking, ke)
    ensures forall ke: KeywordEngine :: ke.kwdId != k.id || ke.engId !in engines ==>
              Dups(o.tables.keywordRanking, ke) == Dups(t.keywordRanking, ke)
    decreases |engines|
  {
    if |engines| == 0 then Outcome(t, None)
    else
      var o := if asWritten then DeleteRankingsAsWritten(mode, t, k, engines[0])
               else DeleteRankings(mode, t, k, engines[0]);
      assert forall ke :: Dups(o.tables.keywordRanking, ke) <= Dups(t.keywordRanking, ke) by {
        forall ke ensures Dups(o.tables.keywordRanking, ke) <= Dups(t.keywordRanking, ke) {
          assert ke != Pair(k, engines[0]) || mode.writable || o.tables == t;
        }
      }
      if o.thrown.Some? then o
      else
        assert forall x :: x in engines[1..] ==> x in engines;
        DeleteEngineRankings(mode, o.tables, k, engines[1..], asWritten)
  }

  /** `deleteKeyword(k, d)`: deletes the keyword record, then its link to
      the domain, then its rankings on each of the domain's engines (in
      ascending id order). A not-found anywhere ends the cascade quietly;
      any other exception escapes. */
  function KeywordCascade(mode: Mode, t: Tables, k: Keyword, d: Domain, asWritten: bool): (o: Outcome)
    ensures o.tables.categories == t.categories && o.tables.domains == t.domains
    ensures o.tables.categoryDomains == t.categoryDomains
    ensures !mode.writable ==> o == Outcome(t, Some(Failure(DbCall.Del, Eacces)))
    ensures mode.writable ==> o.thrown.None?
    ensures mode.writable ==> o.tables.keywords == t.keywords - {k.id}
    ensures mode.writable && k.id in t.keywords ==>
              Dups(o.tables.domainKeywords, d.id) == Dups(t.domainKeywords, d.id) - {k.id}
    ensures forall x :: x != d.id ==> Dups(o.tables.domainKeywords, x) == Dups(t.domainKeywords, x)
    ensures forall x :: Dups(o.tables.domainKeywords, x) <= Dups(t.domainKeywords, x)
    ensures o.tables.rankings.Keys <= t.rankings.Keys
    ensures forall x :: x in o.tables.rankings ==> o.tables.rankings[x] == t.rankings[x]
    ensures forall x :: x in t.rankings && x.kwdId != k.id ==> x in o.tables.rankings
    ensures forall ke :: Dups(o.tables.keywordRanking, ke) <= Dups(t.keywordRanking, ke)
    ensures forall ke: KeywordEngine :: ke.kwdId != k.id ==> Dups(o.tables.keywordRanking, ke) == Dups(t.keywordRanking, ke)
  {
    match DelRecord(mode, t.keywords, k.id)
    case Err(err) => Outcome(t, if err.NotFound? then None else Some(err))
    case Ok(kws) =>
      UnlinkKeyword(mode, t.(keywords := kws), k, d, asWritten)
  }

  /** The cascade once the keyword record is gone: its link to the domain,
      then its rankings; a not-found ends it quietly. */
  function UnlinkKeyword(mode: Mode, t: Tables, k: Keyword, d: Domain, asWritten: bool): (o: Outcome)
    ensures o.tables == t.(domainKeywords := o.tables.domainKeywords, rankings := o.tables.rankings,
                           keywordRanking := o.tables.keywordRanking)
    ensures mode.writable ==> o.thrown.None?
    ensures mode.writable ==> Dups(o.tables.domainKeywords, d.id) == Dups(t.domainKeywords, d.id) - {k.id}
    ensures forall x :: x != d.id ==> Dups(o.tables.domainKeywords, x) == Dups(t.domainKeywords, x)
    ensures forall x :: Dups(o.tables.domainKeywords, x) <= Dups(t.domainKeywords, x)
    ensures o.tables.rankings.Keys <= t.rankings.Keys
    ensures forall x :: x in o.tables.rankings ==> o.tables.rankings[x] == t.rankings[x]
    ensures forall x :: x in t.rankings && x.kwdId != k.id ==> x in o.tables.rankings
    ensures forall ke :: Dups(o.tables.keywordRanking, ke) <= Dups(t.keywordRanking, ke)
    ensures forall ke: KeywordEngine :: ke.kwdId != k.id ==> Dups(o.tables.keywordRanking, ke) == Dups(t.keywordRanking, ke)
  {
    match DelDup(mode, t.domainKeywords, d.id, k.id)
    case Err(err) => Outcome(t, if err.NotFound? then None else Some(err))
    case Ok(links) => EngineRankingsQuietly(mode, t.(domainKeywords := links), k, d, asWritten)
  }

  /** The last step of the cascade: the keyword's rankings on the domain's
      engines, with a not-found ending the loop quietly. */
  function EngineRankingsQuietly(mode: Mode, t: Tables, k: Keyword, d: Domain, asWritten: bool): (o: Outcome)
    ensures o.tables == t.(rankings := o.tables.rankings, keywordRanking := o.tables.keywordRanking)
    ensures mode.writable ==> o.thrown.None?
    ensures o.tables.rankings.Keys <= t.rankings.Keys
    ensures forall x :: x in o.tables.rankings ==> o.tables.rankings[x] == t.rankings[x]
    ensures forall x :: x in t.rankings && x.kwdId != k.id ==> x in o.tables.rankings
    ensures forall ke :: Dups(o.tables.keywordRanking, ke) <= Dups(t.keywordRanking, ke)
    ensures forall ke: KeywordEngine :: ke.kwdId != k.id ==> Dups(o.tables.keywordRanking, ke) == Dups(t.keywordRanking, ke)
  {
    var o := DeleteEngineRankings(mode, t, k, AscendingIds(d.engines), asWritten);
    if o.thrown == Some(NotFound) then Outcome(o.tables, None) else o
  }

  /** `deleteKeyword` as written, on top of `delete_rankings` as written. */
  function DeleteKeywordAsWritten(mode: Mode, t: Tables, k: Keyword, d: Domain): (o: Outcome)
    ensures mode.writable ==> o.thrown.None? && o.tables.keywords == t.keywords - {k.id}
  {
    KeywordCascade(mode, t, k, d, true)
  }

  /** `deleteKeyword` on top of the intended `delete_rankings`. */
  function DeleteKeyword(mode: Mode, t: Tables, k: Keyword, d: Domain): (o: Outcome)
    ensures !mode.writable ==> o == Outcome(t, Some(Failure(DbCall.Del, Eacces)))
    ensures mode.writable ==> o.thrown.None? && o.tables.keywords == t.keywords - {k.id}
  {
    KeywordCascade(mode, t, k, d, false)
  }

  /** Deleting the rankings of every engine in turn, each on top of the
      intended `delete_rankings`, leaves none of them and keeps table and
      index in agreement. */
  lemma {:induction false} EngineRankingsClear(mode: Mode, t: Tables, k: Keyword, engines: seq<Id>)
    requires Indexed(t) && mode.writable
    ensures Indexed(DeleteEngineRankings(mode, t, k, engines, false).tables)
    ensures forall e :: e in engines ==> NoRankings(DeleteEngineRankings(mode, t, k, engines, false).tables, k, e)
    decreases |engines|
  {
    if |engines| > 0 {
      var o1 := DeleteRankings(mode, t, k, engines[0]);
      DeleteRankingsClears(mode, t, k, engines[0]);
      DeleteRankingsKeepsIndexed(mode, t, k, engines[0]);
      EngineRankingsClear(mode, o1.tables, k, engines[1..]);
      var o := DeleteEngineRankings(mode, t, k, engines, false);
      assert o == DeleteEngineRankings(mode, o1.tables, k, engines[1..], false);
      forall e | e in engines ensures NoRankings(o.tables, k, e) {
        if e != engines[0] {
          assert e in engines[1..];
        }
      }
    }
  }

  /** With table and index in agreement, deleting a linked keyword in a
      writable transaction removes its record, its link and every ranking
      it has on the domain's engines, touches no other keyword's rankings,
      and keeps the agreement. */
  lemma DeleteKeywordCascade(mode: Mode, t: Tables, k: Keyword, d: Domain)
    requires Indexed(t) && mode.writable
    requires k.id in t.keywords && k.id in Dups(t.domainKeywords, d.id)
    ensures var o := DeleteKeyword(mode, t, k, d);
      && o.thrown.None?
      && k.id !in o.tables.keywords
      && k.id !in Dups(o.tables.domainKeywords, d.id)
      && (forall e :: e in d.engines ==> NoRankings(o.tables, k, e))
      && (forall x :: x in t.rankings && x.kwdId != k.id ==> x in o.tables.rankings)
      && Indexed(o.tables)
  {
    var kws := DelRecord(mode, t.keywords, k.id).value;
    var links := DelDup(mode, t.domainKeywords, d.id, k.id).value;
    var t2 := t.(keywords := kws, domainKeywords := links);
    var o := DeleteKeyword(mode, t, k, d);
    assert o == EngineRankingsQuietly(mode, t2, k, d, false);
    assert o == DeleteEngineRankings(mode, t2, k, AscendingIds(d.engines), false);
    EngineRankingsClear(mode, t2, k, AscendingIds(d.engines));
  }

  /** As written, a keyword whose first engine (in the order the loop visits
      them) has no history keeps all its rankings on every engine: the
      not-found of that first engine ends the cascade quietly. */
  lemma DeleteKeywordAsWrittenLeavesRankings(mode: Mode, t: Tables, k: Keyword, d: Domain)
    requires mode.writable
    requires d.engines != {} && Dups(t.keywordRanking, Pair(k, AscendingIds(d.engines)[0])) == {}
    ensures DeleteKeywordAsWritten(mode, t, k, d).thrown.None?
    ensures DeleteKeywordAsWritten(mode, t, k, d).tables.rankings == t.rankings
    ensures DeleteKeywordAsWritten(mode, t, k, d).tables.keywordRanking == t.keywordRanking
  {
    var kws := DelRecord(mode, t.keywords, k.id);
    if kws.Ok? {
      var t1 := t.(keywords := kws.value);
      var links := DelDup(mode, t1.domainKeywords, d.id, k.id);
      if links.Ok? {
        var t2 := t1.(domainKeywords := links.value);
        FirstEngineNotFound(mode, t2, k, AscendingIds(d.engines));
      }
    }
  }

  /** As written, the engine loop ends at once, changing nothing, when the
      first engine has no history for the keyword. */
  lemma FirstEngineNotFound(mode: Mode, t: Tables, k: Keyword, engines: seq<Id>)
    requires |engines| > 0 && Dups(t.keywordRanking, Pair(k, engines[0])) == {}
    ensures DeleteEngineRankings(mode, t, k, engines, true) == Outcome(t, Some(NotFound))
  {
  }

  /** The ids of a list of keywords. */
  function IdsOf(ks: seq<Keyword>): set<Id> {
    set k | k in ks :: k.id
  }

  /** The keyword loop of `deleteDomain`: each keyword in turn, up to the
      first exception, on top of `delete_rankings` as written or as
      intended. */
  function DeleteKeywords(mode: Mode, t: Tables, ks: seq<Keyword>, d: Domain, asWritten: bool): (o: Outcome)
    ensures o.tables.categories == t.categories && o.tables.domains == t.domains
    ensures o.tables.categoryDomains == t.categoryDomains
    ensures !mode.writable && |ks| > 0 ==> o == Outcome(t, Some(Failure(DbCall.Del, Eacces)))
    ensures mode.writable ==> o.thrown.None?
    ensures mode.writable ==> o.tables.keywords == t.keywords - IdsOf(ks)
    ensures o.tables.keywords.Keys <= t.keywords.Keys
    ensures mode.writable ==> forall i :: 0 <= i < |ks| ==> ks[i].id !in o.tables.keywords
    ensures forall x :: Dups(o.tables.domainKeywords, x) <= Dups(t.domainKeywords, x)
    ensures forall x :: x != d.id ==> Dups(o.tables.domainKeywords, x) == Dups(t.domainKeywords, x)
    ensures o.tables.rankings.Keys <= t.rankings.Keys
    ensures forall x :: x in o.tables.rankings ==> o.tables.rankings[x] == t.rankings[x]
    ensures forall ke :: Dups(o.tables.keywordRanking, ke) <= Dups(t.keywordRanking, ke)
    decreases |ks|
  {
    if |ks| == 0 then Outcome(t, None)
    else
      var o := KeywordCascade(mode, t, ks[0], d, asWritten);
      if o.thrown.Some? then o
      else
        var r := DeleteKeywords(mode, o.tables, ks[1..], d, asWritten);
        IdsOfCons(ks);
        r
  }

  /** The ids of a non-empty list are its first id and the ids of the rest,
      and each entry's id is among them. */
  lemma IdsOfCons(ks: seq<Keyword>)
    requires |ks| > 0
    ensures IdsOf(ks) == {ks[0].id} + IdsOf(ks[1..])
    ensures forall i :: 0 <= i < |ks| ==> ks[i].id in IdsOf(ks)
  {
    assert forall k :: k in ks <==> k == ks[0] || k in ks[1..];
  }

  /** `deleteDomain(d)`: the keywords the domain lists, then the domain
      record, whose not-found escapes. The category links to the domain are
      left in place. `asWritten` selects `delete_rankings` as written or as
      intended. */
  function DeleteDomain(mode: Mode, t: Tables, d: Domain, asWritten: bool): (o: Outcome)
    ensures o.tables.categories == t.categories && o.tables.categoryDomains == t.categoryDomains
    ensures !mode.writable ==> o == Outcome(t, Some(Failure(DbCall.Del, Eacces)))
    ensures mode.writable ==> (o.thrown.None? <==> d.id in t.domains)
    ensures mode.writable && d.id !in t.domains ==> o.thrown == Some(NotFound)
    ensures mode.writable ==> o.tables.domains == t.domains - {d.id}
    ensures mode.writable ==> o.tables.keywords == t.keywords - IdsOf(Keywords(t, d))
    ensures o.tables.domains.Keys <= t.domains.Keys
    ensures o.tables.keywords.Keys <= t.keywords.Keys
    ensures o.tables.rankings.Keys <= t.rankings.Keys
    ensures forall ke :: Dups(o.tables.keywordRanking, ke) <= Dups(t.keywordRanking, ke)
  {
    DeleteDomainAfter(mode, t, d, DeleteKeywords(mode, t, Keywords(t, d), d, asWritten))
  }

  /** Deleting a domain only removes keyword links, and only its own, and
      the rankings it leaves are unchanged. */
  lemma DeleteDomainLinks(mode: Mode, t: Tables, d: Domain, asWritten: bool)
    ensures var o := DeleteDomain(mode, t, d, asWritten);
      && (forall x :: Dups(o.tables.domainKeywords, x) <= Dups(t.domainKeywords, x))
      && (forall x :: x != d.id ==> Dups(o.tables.domainKeywords, x) == Dups(t.domainKeywords, x))
      && (forall x :: x in o.tables.rankings ==> o.tables.rankings[x] == t.rankings[x])
  {
  }

  /** The end of `deleteDomain(d)`: once its keywords are gone (outcome
      `o`), the domain record, whose not-found escapes. */
  function DeleteDomainAfter(mode: Mode, t: Tables, d: Domain, o: Outcome): (r: Outcome)
    requires o.tables.categories == t.categories && o.tables.domains == t.domains
    requires o.tables.categoryDomains == t.categoryDomains
    requires !mode.writable ==> o.thrown.Some? || o.tables == t
    ensures r.tables.categories == t.categories && r.tables.categoryDomains == t.categoryDomains
    ensures o.thrown.Some? ==> r == o
    ensures o.thrown.None? && !mode.writable ==> r == Outcome(t, Some(Failure(DbCall.Del, Eacces)))
    ensures o.thrown.None? && mode.writable ==> (r.thrown.None? <==> d.id in t.domains)
    ensures o.thrown.None? && mode.writable && d.id !in t.domains ==> r.thrown == Some(NotFound)
    ensures o.thrown.None? && mode.writable ==> r.tables.domains == t.domains - {d.id}
    ensures r.tables.domains.Keys <= t.domains.Keys
    ensures r.tables == o.tables.(domains := r.tables.domains)
  {
    if o.thrown.Some? then o
    else
      match DelRecord(mode, o.tables.domains, d.id)
      case Err(err) => Outcome(o.tables, Some(err))
      case Ok(m) => Outcome(o.tables.(domains := m), None)
  }

  /** The domain loop of `deleteCategory`: each domain in turn, up to the
      first exception. */
  function DeleteDomains(mode: Mode, t: Tables, ds: seq<Domain>, asWritten: bool): (o: Outcome)
    ensures o.tables.categories == t.categories
    ensures !mode.writable && |ds| > 0 ==> o == Outcome(t, Some(Failure(DbCall.Del, Eacces)))
    ensures o.tables.domains.Keys <= t.domains.Keys
    ensures o.thrown.None? ==> forall i :: 0 <= i < |ds| ==> ds[i].id !in o.tables.domains
    ensures o.tables.keywords.Keys <= t.keywords.Keys
    ensures forall x :: Dups(o.tables.domainKeywords, x) <= Dups(t.domainKeywords, x)
    ensures o.tables.rankings.Keys <= t.rankings.Keys
    ensures forall ke :: Dups(o.tables.keywordRanking, ke) <= Dups(t.keywordRanking, ke)
    decreases |ds|
  {
    if |ds| == 0 then Outcome(t, None)
    else
      var o := DeleteDomain(mode, t, ds[0], asWritten);
      DeleteDomainLinks(mode, t, ds[0], asWritten);
      if o.thrown.Some? then o
      else
        var r := DeleteDomains(mode, o.tables, ds[1..], asWritten);
        TailIndex(ds);
        ShrinkTrans(t, o.tables, r.tables);
        r
  }

  /** Two steps that each only remove records and index entries together
      only remove them. */
  lemma ShrinkTrans(t: Tables, t1: Tables, t2: Tables)
    requires t1.domains.Keys <= t.domains.Keys && t2.domains.Keys <= t1.domains.Keys
    requires t1.keywords.Keys <= t.keywords.Keys && t2.keywords.Keys <= t1.keywords.Keys
    requires t1.rankings.Keys <= t.rankings.Keys && t2.rankings.Keys <= t1.rankings.Keys
    requires forall x :: Dups(t1.domainKeywords, x) <= Dups(t.domainKeywords, x)
    requires forall x :: Dups(t2.domainKeywords, x) <= Dups(t1.domainKeywords, x)
    requires forall ke :: Dups(t1.keywordRanking, ke) <= Dups(t.keywordRanking, ke)
    requires forall ke :: Dups(t2.keywordRanking, ke) <= Dups(t1.keywordRanking, ke)
    ensures t2.domains.Keys <= t.domains.Keys
    ensures t2.keywords.Keys <= t.keywords.Keys
    ensures t2.rankings.Keys <= t.rankings.Keys
    ensures forall x :: Dups(t2.domainKeywords, x) <= Dups(t.domainKeywords, x)
    ensures forall ke :: Dups(t2.keywordRanking, ke) <= Dups(t.keywordRanking, ke)
  {
    forall x
      ensures Dups(t2.domainKeywords, x) <= Dups(t.domainKeywords, x)
    {
      assert Dups(t2.domainKeywords, x) <= Dups(t1.domainKeywords, x);
    }
    forall ke
      ensures Dups(t2.keywordRanking, ke) <= Dups(t.keywordRanking, ke)
    {
      assert Dups(t2.keywordRanking, ke) <= Dups(t1.keywordRanking, ke);
    }
  }

  /** Entry `i` of the tail is entry `i + 1` of the list. */
  lemma TailIndex<T>(s: seq<T>)
    requires |s| > 0
    ensures forall i :: 1 <= i < |s| ==> s[i] == s[1..][i - 1]
  {
  }

  /** `deleteCategory(c)`: every domain `domains(c)` lists, then the
      category record, whose not-found escapes. For the synthetic "All
      Domains" category this deletes every domain and then fails, since no
      record is stored under the nil id. */
  function DeleteCategory(mode: Mode, t: Tables, c: Category, asWritten: bool): (o: Outcome)
    ensures !mode.writable ==> o == Outcome(t, Some(Failure(DbCall.Del, Eacces)))
    ensures o.thrown.None? ==> c.id in t.categories && o.tables.categories == t.categories - {c.id}
    ensures c.id !in t.categories ==> o.thrown.Some?
    ensures o.thrown.None? ==> forall d :: d in DomainsIn(t, c) ==> d.id !in o.tables.domains
    ensures o.tables.domains.Keys <= t.domains.Keys
    ensures o.tables.keywords.Keys <= t.keywords.Keys
    ensures o.tables.rankings.Keys <= t.rankings.Keys
    ensures forall ke :: Dups(o.tables.keywordRanking, ke) <= Dups(t.keywordRanking, ke)
  {
    var ds := DomainsIn(t, c);
    var o := DeleteDomains(mode, t, ds, asWritten);
    if o.thrown.Some? then o
    else
      match DelRecord(mode, o.tables.categories, c.id)
      case Err(err) => Outcome(o.tables, Some(err))
      case Ok(m) => Outcome(o.tables.(categories := m), None)
  }

  /** Deleting keywords with distinct ids, each present and linked to the
      domain, removes every one of them, every link and every ranking they
      have on the domain's engines, and keeps table and index in agreement. */
  lemma {:induction false} DeleteKeywordsClears(mode: Mode, t: Tables, ks: seq<Keyword>, d: Domain)
    requires Indexed(t) && mode.writable
    requires forall i :: 0 <= i < |ks| ==> ks[i].id in t.keywords && ks[i].id in Dups(t.domainKeywords, d.id)
    requires forall i, j :: 0 <= i < j < |ks| ==> ks[i].id != ks[j].id
    ensures var o := DeleteKeywords(mode, t, ks, d, false);
      && Indexed(o.tables)
      && (forall i :: 0 <= i < |ks| ==> ks[i].id !in Dups(o.tables.domainKeywords, d.id))
      && (forall i, e :: 0 <= i < |ks| && e in d.engines ==> NoRankings(o.tables, ks[i], e))
    decreases |ks|
  {
    if |ks| > 0 {
      var o1 := DeleteKeyword(mode, t, ks[0], d);
      DeleteKeywordCascade(mode, t, ks[0], d);
      var rest := ks[1..];
      forall i | 0 <= i < |rest|
        ensures rest[i].id in o1.tables.keywords && rest[i].id in Dups(o1.tables.domainKeywords, d.id)
      {
        assert rest[i] == ks[i + 1];
      }
      forall i, j | 0 <= i < j < |rest| ensures rest[i].id != rest[j].id {
        assert rest[i] == ks[i + 1] && rest[j] == ks[j + 1];
      }
      DeleteKeywordsClears(mode, o1.tables, rest, d);
      var o := DeleteKeywords(mode, t, ks, d, false);
      assert o == DeleteKeywords(mode, o1.tables, rest, d, false);
      ClearedJoin(o1.tables, o.tables, ks, d);
    }
  }

  /** What the first keyword's deletion cleared, and later deletions kept
      cleared, joins what the later deletions cleared. */
  lemma ClearedJoin(t1: Tables, t2: Tables, ks: seq<Keyword>, d: Domain)
    requires |ks| > 0
    requires ks[0].id !in Dups(t1.domainKeywords, d.id)
    requires forall e :: e in d.engines ==> NoRankings(t1, ks[0], e)
    requires forall x :: Dups(t2.domainKeywords, x) <= Dups(t1.domainKeywords, x)
    requires t2.rankings.Keys <= t1.rankings.Keys
    requires forall ke :: Dups(t2.keywordRanking, ke) <= Dups(t1.keywordRanking, ke)
    requires forall i :: 0 <= i < |ks[1..]| ==> ks[1..][i].id !in Dups(t2.domainKeywords, d.id)
    requires forall i, e :: 0 <= i < |ks[1..]| && e in d.engines ==> NoRankings(t2, ks[1..][i], e)
    ensures forall i :: 0 <= i < |ks| ==> ks[i].id !in Dups(t2.domainKeywords, d.id)
    ensures forall i, e :: 0 <= i < |ks| && e in d.engines ==> NoRankings(t2, ks[i], e)
  {
    forall i | 0 <= i < |ks| ensures ks[i].id !in Dups(t2.domainKeywords, d.id) {
      if i > 0 {
        assert ks[i] == ks[1..][i - 1];
      }
    }
    forall i, e | 0 <= i < |ks| && e in d.engines ensures NoRankings(t2, ks[i], e) {
      if i > 0 {
        assert ks[i] == ks[1..][i - 1];
      } else {
        assert NoRankings(t1, ks[0], e);
      }
    }
  }

  /** With records filed under their own ids and table and index in
      agreement, deleting a stored domain in a writable transaction removes
      it, every keyword it lists, their links and their rankings on the
      domain's engines; its category links stay behind. */
  lemma DeleteDomainCascade(mode: Mode, t: Tables, d: Domain)
    requires Indexed(t) && Keyed(t) && mode.writable && d.id in t.domains
    ensures var o := DeleteDomain(mode, t, d, false);
      && o.thrown.None?
      && d.id !in o.tables.domains
      && o.tables.categoryDomains == t.categoryDomains
      && (forall k :: k in Keywords(t, d) ==> k.id !in o.tables.keywords && k.id !in Dups(o.tables.domainKeywords, d.id))
      && (forall k, e :: k in Keywords(t, d) && e in d.engines ==> NoRankings(o.tables, k, e))
      && Indexed(o.tables)
  {
    var ks := Keywords(t, d);
    var o1 := DeleteKeywords(mode, t, ks, d, false);
    DomainAfterKeywords(mode, t, d);
    KeywordsLinked(t, d);
    DeleteKeywordsClears(mode, t, ks, d);
    ClearedAfterDomain(o1.tables, DeleteDomain(mode, t, d, false).tables, ks, d);
  }

  /** What the keyword loop cleared stays cleared once the domain record
      is removed, stated per keyword rather than per position. */
  lemma ClearedAfterDomain(t1: Tables, t2: Tables, ks: seq<Keyword>, d: Domain)
    requires t2 == t1.(domains := t2.domains)
    requires Indexed(t1)
    requires forall i :: 0 <= i < |ks| ==> ks[i].id !in t1.keywords && ks[i].id !in Dups(t1.domainKeywords, d.id)
    requires forall i, e :: 0 <= i < |ks| && e in d.engines ==> NoRankings(t1, ks[i], e)
    ensures Indexed(t2)
    ensures forall k :: k in ks ==> k.id !in t2.keywords && k.id !in Dups(t2.domainKeywords, d.id)
    ensures forall k, e :: k in ks && e in d.engines ==> NoRankings(t2, k, e)
  {
    SameIndex(t1, t2);
    forall k | k in ks ensures k.id !in t2.keywords && k.id !in Dups(t2.domainKeywords, d.id) {
      var i :| 0 <= i < |ks| && ks[i] == k;
    }
    forall k, e | k in ks && e in d.engines ensures NoRankings(t2, k, e) {
      var i :| 0 <= i < |ks| && ks[i] == k;
      assert NoRankings(t1, ks[i], e);
    }
  }

  /** In a writable transaction, deleting a stored domain ends without an
      exception, with the tables its keyword loop left and the domain
      record gone. */
  lemma DomainAfterKeywords(mode: Mode, t: Tables, d: Domain)
    requires mode.writable && d.id in t.domains
    ensures var o1 := DeleteKeywords(mode, t, Keywords(t, d), d, false);
      && DeleteDomain(mode, t, d, false).thrown.None?
      && DeleteDomain(mode, t, d, false).tables == o1.tables.(domains := t.domains - {d.id})
  {
  }

  /** Table and index agree in two states with the same rankings and index. */
  lemma SameIndex(t1: Tables, t2: Tables)
    requires t1.rankings == t2.rankings && t1.keywordRanking == t2.keywordRanking
    ensures Indexed(t1) == Indexed(t2)
    ensures forall k, e :: NoRankings(t1, k, e) == NoRankings(t2, k, e)
  {
  }

  /** The keywords a domain lists are stored, linked to the domain, and
      have distinct ids. */
  lemma KeywordsLinked(t: Tables, d: Domain)
    requires Keyed(t)
    ensures var ks := Keywords(t, d);
      && (forall i :: 0 <= i < |ks| ==> ks[i].id in t.keywords && ks[i].id in Dups(t.domainKeywords, d.id))
      && (forall i, j :: 0 <= i < j < |ks| ==> ks[i].id != ks[j].id)
  {
    var ks := Keywords(t, d);
    var ids := KeywordIds(t, d);
    forall i | 0 <= i < |ks| ensures ks[i].id == ids[i] && ks[i].id in t.keywords && ks[i].id in Dups(t.domainKeywords, d.id) {
      assert ids[i] in ids;
    }
    forall i, j | 0 <= i < j < |ks| ensures ks[i].id != ks[j].id {
      assert ids[i] < ids[j];
    }
  }

  /** The first engine `deleteKeyword` visits for the keywords of `d`. */
  function FirstEngine(d: Domain): Id
    requires d.engines != {}
  {
    AscendingIds(d.engines)[0]
  }

  /** As written, a keyword loop over keywords none of which has a history
      on the domain's first engine deletes no ranking at all. */
  lemma {:induction false} DeleteKeywordsAsWrittenLeavesRankings(mode: Mode, t: Tables, ks: seq<Keyword>, d: Domain)
    requires mode.writable && d.engines != {}
    requires forall i :: 0 <= i < |ks| ==> Dups(t.keywordRanking, Pair(ks[i], FirstEngine(d))) == {}
    ensures DeleteKeywords(mode, t, ks, d, true).tables.rankings == t.rankings
    ensures DeleteKeywords(mode, t, ks, d, true).tables.keywordRanking == t.keywordRanking
    decreases |ks|
  {
    if |ks| > 0 {
      DeleteKeywordAsWrittenLeavesRankings(mode, t, ks[0], d);
      var o1 := KeywordCascade(mode, t, ks[0], d, true);
      forall i | 0 <= i < |ks[1..]| ensures Dups(o1.tables.keywordRanking, Pair(ks[1..][i], FirstEngine(d))) == {} {
        assert ks[1..][i] == ks[i + 1];
      }
      DeleteKeywordsAsWrittenLeavesRankings(mode, o1.tables, ks[1..], d);
    }
  }

  /** As written, deleting a domain none of whose keywords has a history on
      its first engine leaves every ranking and every index entry of the
      rankings in place, while the keywords and the domain record go. */
  lemma DeleteDomainAsWrittenLeavesRankings(mode: Mode, t: Tables, d: Domain)
    requires mode.writable && d.engines != {}
    requires forall k :: k in Keywords(t, d) ==> Dups(t.keywordRanking, Pair(k, FirstEngine(d))) == {}
    ensures var o := DeleteDomain(mode, t, d, true);
      && o.tables.rankings == t.rankings
      && o.tables.keywordRanking == t.keywordRanking
      && o.tables.keywords == t.keywords - IdsOf(Keywords(t, d))
      && (o.thrown.None? <==> d.id in t.domains)
  {
    var ks := Keywords(t, d);
    assert forall i :: 0 <= i < |ks| ==> ks[i] in ks;
    DeleteKeywordsAsWrittenLeavesRankings(mode, t, ks, d);
  }

  /** No keyword is linked to two domains. */
  predicate SingleOwner(t: Tables) {
    forall x, y, id :: id in Dups(t.domainKeywords, x) && id in Dups(t.domainKeywords, y) ==> x == y
  }

  /** Records filed under their own ids stay so when records are only
      removed. */
  lemma KeyedAfterRemoval(t: Tables, t1: Tables)
    requires Keyed(t)
    requires t1.categories == t.categories
    requires t1.domains.Keys <= t.domains.Keys && forall x :: x in t1.domains ==> t1.domains[x] == t.domains[x]
    requires t1.keywords.Keys <= t.keywords.Keys && forall x :: x in t1.keywords ==> t1.keywords[x] == t.keywords[x]
    requires forall x :: x in t1.rankings ==> x in t.rankings && t1.rankings[x] == t.rankings[x]
    ensures Keyed(t1)
  {
  }

  /** The keywords a domain lists are among its linked ids. */
  lemma KeywordIdsLinked(t: Tables, d: Domain)
    requires Keyed(t)
    ensures IdsOf(Keywords(t, d)) <= Dups(t.domainKeywords, d.id)
  {
    KeywordsLinked(t, d);
    IdsWithin(Keywords(t, d), Dups(t.domainKeywords, d.id));
  }

  /** When every entry's id is in `s`, so are all the ids of the list. */
  lemma IdsWithin(ks: seq<Keyword>, s: set<Id>)
    requires forall i :: 0 <= i < |ks| ==> ks[i].id in s
    ensures IdsOf(ks) <= s
  {
    forall id | id in IdsOf(ks)
      ensures id in s
    {
      var k :| k in ks && k.id == id;
      var i :| 0 <= i < |ks| && ks[i] == k;
    }
  }

  /** Two walks over the same keys read the same records when the maps
      agree on those keys. */
  lemma {:induction false} PrefixAgree<K, V>(m1: map<K, V>, m2: map<K, V>, keys: seq<K>)
    requires forall i :: 0 <= i < |keys| ==> (keys[i] in m1 <==> keys[i] in m2)
    requires forall i :: 0 <= i < |keys| && keys[i] in m1 ==> m1[keys[i]] == m2[keys[i]]
    ensures Prefix(m1, keys) == Prefix(m2, keys)
    decreases |keys|
  {
    if |keys| > 0 {
      assert forall i :: 1 <= i < |keys| ==> keys[i] == keys[1..][i - 1];
      PrefixAgree(m1, m2, keys[1..]);
    }
  }

  /** Deleting domain `d` leaves the keyword list of any other domain as it
      was, when no keyword has two owners. */
  lemma KeywordsUntouched(mode: Mode, t: Tables, d: Domain, d2: Domain)
    requires Keyed(t) && SingleOwner(t) && mode.writable && d.id != d2.id
    ensures Keywords(DeleteDomain(mode, t, d, false).tables, d2) == Keywords(t, d2)
  {
    var t1 := DeleteDomain(mode, t, d, false).tables;
    KeywordIdsLinked(t, d);
    var ids := KeywordIds(t, d2);
    assert KeywordIds(t1, d2) == ids;
    forall i | 0 <= i < |ids|
      ensures (ids[i] in t1.keywords <==> ids[i] in t.keywords)
      ensures ids[i] in t1.keywords ==> t1.keywords[ids[i]] == t.keywords[ids[i]]
    {
      assert ids[i] in Dups(t.domainKeywords, d2.id);
      assert ids[i] !in IdsOf(Keywords(t, d));
    }
    PrefixAgree(t1.keywords, t.keywords, ids);
  }

  /** The keywords `ks` of domain `d` are gone, and so is every ranking
      they had on its engines. */
  predicate Cleared(t: Tables, ks: seq<Keyword>, d: Domain) {
    forall k :: k in ks ==> k.id !in t.keywords && forall e :: e in d.engines ==> NoRankings(t, k, e)
  }

  /** Deleting, in a writable transaction and on top of the intended
      `delete_rankings`, stored domains with distinct ids whose keywords
      have a single owner removes every one of them, every keyword each
      listed and all those keywords' rankings on its engines, and keeps table
      and index in agreement. */
  lemma {:induction false} DeleteDomainsCascade(mode: Mode, t: Tables, ds: seq<Domain>)
    requires Indexed(t) && Keyed(t) && SingleOwner(t) && mode.writable
    requires forall i :: 0 <= i < |ds| ==> ds[i].id in t.domains
    requires forall i, j :: 0 <= i < j < |ds| ==> ds[i].id != ds[j].id
    ensures var o := DeleteDomains(mode, t, ds, false);
      && o.thrown.None?
      && Indexed(o.tables)
      && forall i :: 0 <= i < |ds| ==> Cleared(o.tables, Keywords(t, ds[i]), ds[i])
    decreases |ds|
  {
    if |ds| > 0 {
      var d := ds[0];
      var rest := ds[1..];
      var o1 := DeleteDomain(mode, t, d, false);
      DomainCleared(mode, t, d);
      RestStored(t.domains, o1.tables.domains, ds);
      DeleteDomainsCascade(mode, o1.tables, rest);
      DomainsStep(mode, t, ds);
      DomainsClearedJoin(mode, t, DeleteDomains(mode, o1.tables, rest, false).tables, ds);
    }
  }

  /** A stored domain's deletion clears its keywords and keeps the tables
      keyed and indexed. */
  lemma DomainCleared(mode: Mode, t: Tables, d: Domain)
    requires Indexed(t) && Keyed(t) && mode.writable && d.id in t.domains
    ensures var o := DeleteDomain(mode, t, d, false);
      && o.thrown.None? && Indexed(o.tables) && Keyed(o.tables)
      && Cleared(o.tables, Keywords(t, d), d)
  {
    DeleteDomainCascade(mode, t, d);
    KeyedAfterRemoval(t, DeleteDomain(mode, t, d, false).tables);
  }

  /** The domain loop goes on from wherever a quiet first deletion left it. */
  lemma DomainsStep(mode: Mode, t: Tables, ds: seq<Domain>)
    requires |ds| > 0 && DeleteDomain(mode, t, ds[0], false).thrown.None?
    ensures DeleteDomains(mode, t, ds, false) == DeleteDomains(mode, DeleteDomain(mode, t, ds[0], false).tables, ds[1..], false)
  {
  }

  /** The domains after the first are still stored, with distinct ids, once
      the first is deleted. */
  lemma RestStored(m: map<Id, Domain>, m1: map<Id, Domain>, ds: seq<Domain>)
    requires |ds| > 0 && m1 == m - {ds[0].id}
    requires forall i :: 0 <= i < |ds| ==> ds[i].id in m
    requires forall i, j :: 0 <= i < j < |ds| ==> ds[i].id != ds[j].id
    ensures forall i :: 0 <= i < |ds[1..]| ==> ds[1..][i].id in m1
    ensures forall i, j :: 0 <= i < j < |ds[1..]| ==> ds[1..][i].id != ds[1..][j].id
  {
    forall i | 0 <= i < |ds[1..]| ensures ds[1..][i].id in m1 {
      assert ds[1..][i] == ds[i + 1];
    }
    forall i, j | 0 <= i < j < |ds[1..]| ensures ds[1..][i].id != ds[1..][j].id {
      assert ds[1..][i] == ds[i + 1] && ds[1..][j] == ds[j + 1];
    }
  }

  /** What the first domain's deletion cleared, and the later deletions kept
      cleared, joins what the later deletions cleared. */
  lemma DomainsClearedJoin(mode: Mode, t: Tables, t2: Tables, ds: seq<Domain>)
    requires Keyed(t) && SingleOwner(t) && mode.writable && |ds| > 0
    requires forall i, j :: 0 <= i < j < |ds| ==> ds[i].id != ds[j].id
    requires var t1 := DeleteDomain(mode, t, ds[0], false).tables;
      && Cleared(t1, Keywords(t, ds[0]), ds[0])
      && t2.keywords.Keys <= t1.keywords.Keys && t2.rankings.Keys <= t1.rankings.Keys
      && (forall ke :: Dups(t2.keywordRanking, ke) <= Dups(t1.keywordRanking, ke))
      && forall i :: 0 <= i < |ds[1..]| ==> Cleared(t2, Keywords(t1, ds[1..][i]), ds[1..][i])
    ensures forall i :: 0 <= i < |ds| ==> Cleared(t2, Keywords(t, ds[i]), ds[i])
  {
    var t1 := DeleteDomain(mode, t, ds[0], false).tables;
    forall i | 0 <= i < |ds| ensures Cleared(t2, Keywords(t, ds[i]), ds[i]) {
      if i == 0 {
        ClearedShrink(t1, t2, Keywords(t, ds[0]), ds[0]);
      } else {
        assert ds[i] == ds[1..][i - 1];
        KeywordsUntouched(mode, t, ds[0], ds[i]);
      }
    }
  }

  /** What a domain's deletion cleared stays cleared while keywords,
      rankings and index only shrink. */
  lemma ClearedShrink(t1: Tables, t2: Tables, ks: seq<Keyword>, d: Domain)
    requires Cleared(t1, ks, d)
    requires t2.keywords.Keys <= t1.keywords.Keys && t2.rankings.Keys <= t1.rankings.Keys
    requires forall ke :: Dups(t2.keywordRanking, ke) <= Dups(t1.keywordRanking, ke)
    ensures Cleared(t2, ks, d)
  {
    forall k, e | k in ks && e in d.engines ensures NoRankings(t2, k, e) {
      NoRankingsShrink(t1, t2, k, e);
    }
  }

  /** Nothing of a pair comes back when rankings and index only shrink. */
  lemma NoRankingsShrink(t1: Tables, t2: Tables, k: Keyword, e: Id)
    requires NoRankings(t1, k, e)
    requires t2.rankings.Keys <= t1.rankings.Keys
    requires forall ke :: Dups(t2.keywordRanking, ke) <= Dups(t1.keywordRanking, ke)
    ensures NoRankings(t2, k, e)
  {
    assert Dups(t2.keywordRanking, Pair(k, e)) <= Dups(t1.keywordRanking, Pair(k, e));
  }

  /** Walking distinct keys, the records present have distinct ids when
      each record is filed under its own id. */
  lemma {:induction false} PresentDistinct(m: map<Id, Domain>, keys: seq<Id>)
    requires forall id :: id in m ==> m[id].id == id
    requires forall i, j :: 0 <= i < j < |keys| ==> keys[i] != keys[j]
    ensures forall i, j :: 0 <= i < j < |Present(m, keys)| ==> Present(m, keys)[i].id != Present(m, keys)[j].id
    decreases |keys|
  {
    if |keys| > 0 {
      var rest := Present(m, keys[1..]);
      PresentDistinct(m, keys[1..]);
      if keys[0] in m {
        var r := Present(m, keys);
        assert r == [m[keys[0]]] + rest;
        forall j | 0 < j < |r| ensures r[0].id != r[j].id {
          assert r[j] in rest;
          var i :| 0 <= i < |keys[1..]| && keys[1..][i] in m && m[keys[1..][i]] == r[j];
          assert keys[1..][i] == keys[i + 1];
        }
        forall i, j | 0 < i < j < |r| ensures r[i].id != r[j].id {
          assert r[i] == rest[i - 1] && r[j] == rest[j - 1];
        }
      } else {
        assert Present(m, keys) == rest;
      }
    }
  }

  /** A whole table walked in key order has distinct ids when each record
      is filed under its own id. */
  lemma InKeyOrderDistinct(m: map<Id, Domain>)
    requires forall id :: id in m ==> m[id].id == id
    ensures var r := InKeyOrder(m);
      forall i, j :: 0 <= i < j < |r| ==> r[i].id != r[j].id
  {
    var ids := AscendingIds(m.Keys);
    var r := InKeyOrder(m);
    forall i, j | 0 <= i < j < |r| ensures r[i].id != r[j].id {
      assert r[i] == m[ids[i]] && r[j] == m[ids[j]];
      assert ids[i] < ids[j];
    }
  }

  /** The domains a category lists are stored under their own ids, once
      each. */
  lemma DomainsInStored(t: Tables, c: Category)
    requires Keyed(t)
    ensures var ds := DomainsIn(t, c);
      && (forall i :: 0 <= i < |ds| ==> ds[i].id in t.domains)
      && (forall i, j :: 0 <= i < j < |ds| ==> ds[i].id != ds[j].id)
  {
    var ds := DomainsIn(t, c);
    forall i | 0 <= i < |ds| ensures ds[i].id in t.domains {
      assert ds[i] in ds;
      if c.id == NilId {
        assert ds[i] in t.domains.Values;
      }
    }
    if c.id == NilId {
      InKeyOrderDistinct(t.domains);
    } else {
      var ids := AscendingIds(Dups(t.categoryDomains, c.id));
      assert ds == Present(t.domains, ids);
      forall i, j | 0 <= i < j < |ids| ensures ids[i] != ids[j] {
        assert ids[i] < ids[j];
      }
      PresentDistinct(t.domains, ids);
    }
  }

  /** With records filed under their own ids, table and index in agreement
      and no keyword linked to two domains, deleting a stored category in a
      writable transaction, on top of the intended `delete_rankings`,
      removes it, every domain it lists, every keyword those domains list
      and all those keywords' rankings on their domains' engines, and keeps
      table and index in agreement. */
  lemma DeleteCategoryCascade(mode: Mode, t: Tables, c: Category)
    requires Indexed(t) && Keyed(t) && SingleOwner(t) && mode.writable && c.id in t.categories
    ensures var o := DeleteCategory(mode, t, c, false);
      && o.thrown.None?
      && o.tables.categories == t.categories - {c.id}
      && Indexed(o.tables)
      && forall d :: d in DomainsIn(t, c) ==> d.id !in o.tables.domains && Cleared(o.tables, Keywords(t, d), d)
  {
    var ds := DomainsIn(t, c);
    DomainsInStored(t, c);
    DeleteDomainsCascade(mode, t, ds);
    var o1 := DeleteDomains(mode, t, ds, false);
    CategoryAfterDomains(mode, t, c);
    var o := DeleteCategory(mode, t, c, false);
    SameIndex(o1.tables, o.tables);
    ClearedAfterCategory(t, o1.tables, o.tables, ds);
  }

  /** In a writable transaction, once the domain loop ends quietly, the
      category record of a stored category goes and nothing else changes. */
  lemma CategoryAfterDomains(mode: Mode, t: Tables, c: Category)
    requires mode.writable && c.id in t.categories
    requires DeleteDomains(mode, t, DomainsIn(t, c), false).thrown.None?
    ensures var o1 := DeleteDomains(mode, t, DomainsIn(t, c), false);
      DeleteCategory(mode, t, c, false) == Outcome(o1.tables.(categories := t.categories - {c.id}), None)
  {
  }

  /** What the domain loop cleared stays cleared once the category record
      goes, stated per domain rather than per position. */
  lemma ClearedAfterCategory(t: Tables, t1: Tables, t2: Tables, ds: seq<Domain>)
    requires t2 == t1.(categories := t2.categories)
    requires forall i :: 0 <= i < |ds| ==> ds[i].id !in t1.domains
    requires forall i :: 0 <= i < |ds| ==> Cleared(t1, Keywords(t, ds[i]), ds[i])
    ensures forall d :: d in ds ==> d.id !in t2.domains && Cleared(t2, Keywords(t, d), d)
  {
    forall d | d in ds ensures d.id !in t2.domains && Cleared(t2, Keywords(t, d), d) {
      var i :| 0 <= i < |ds| && ds[i] == d;
      assert Cleared(t1, Keywords(t, ds[i]), ds[i]);
    }
  }

  /** A domain with engines on whose first engine no keyword has a
      history. */
  predicate NoFirstEngineHistory(t: Tables, d: Domain) {
    d.engines != {} && forall kid :: Dups(t.keywordRanking, KeywordEngine(kid, FirstEngine(d))) == {}
  }

  /** As written, a domain loop over domains on whose first engines no
      keyword has a history deletes no ranking at all. */
  lemma {:induction false} DeleteDomainsAsWrittenLeavesRankings(mode: Mode, t: Tables, ds: seq<Domain>)
    requires mode.writable
    requires forall i :: 0 <= i < |ds| ==> NoFirstEngineHistory(t, ds[i])
    ensures DeleteDomains(mode, t, ds, true).tables.rankings == t.rankings
    ensures DeleteDomains(mode, t, ds, true).tables.keywordRanking == t.keywordRanking
    decreases |ds|
  {
    if |ds| > 0 {
      FirstDomainLeavesRankings(mode, t, ds[0]);
      var o1 := DeleteDomain(mode, t, ds[0], true);
      if o1.thrown.None? {
        NoHistoryTail(t, o1.tables, ds);
        DeleteDomainsAsWrittenLeavesRankings(mode, o1.tables, ds[1..]);
      }
    }
  }

  /** As written, deleting one domain with no history on its first engine
      keeps rankings and index. */
  lemma FirstDomainLeavesRankings(mode: Mode, t: Tables, d: Domain)
    requires mode.writable && NoFirstEngineHistory(t, d)
    ensures DeleteDomain(mode, t, d, true).tables.rankings == t.rankings
    ensures DeleteDomain(mode, t, d, true).tables.keywordRanking == t.keywordRanking
  {
    assert forall k :: k in Keywords(t, d) ==> Dups(t.keywordRanking, Pair(k, FirstEngine(d))) == {};
    DeleteDomainAsWrittenLeavesRankings(mode, t, d);
  }

  /** Whether a first engine has history depends on the index alone, so the
      remaining domains keep the property when the index is unchanged. */
  lemma NoHistoryTail(t: Tables, t1: Tables, ds: seq<Domain>)
    requires |ds| > 0 && t1.keywordRanking == t.keywordRanking
    requires forall i :: 0 <= i < |ds| ==> NoFirstEngineHistory(t, ds[i])
    ensures forall i :: 0 <= i < |ds[1..]| ==> NoFirstEngineHistory(t1, ds[1..][i])
  {
    forall i | 0 <= i < |ds[1..]|
      ensures NoFirstEngineHistory(t1, ds[1..][i])
    {
      assert ds[1..][i] == ds[i + 1];
      assert NoFirstEngineHistory(t, ds[i + 1]);
    }
  }

  /** As written, deleting a category whose domains all have a first engine
      on which no keyword has a history deletes no ranking at all. */
  lemma DeleteCategoryAsWrittenLeavesRankings(mode: Mode, t: Tables, c: Category)
    requires mode.writable
    requires forall d :: d in DomainsIn(t, c) ==> NoFirstEngineHistory(t, d)
    ensures DeleteCategory(mode, t, c, true).tables.rankings == t.rankings
    ensures DeleteCategory(mode, t, c, true).tables.keywordRanking == t.keywordRanking
  {
    var ds := DomainsIn(t, c);
    assert forall i :: 0 <= i < |ds| ==> ds[i] in ds;
    DeleteDomainsAsWrittenLeavesRankings(mode, t, ds);
  }
}
