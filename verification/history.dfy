/**
  Ranking history. Each ranking record is stored under (keyword id, engine
  id, date), and the keyword/engine index lists the dates of a pair in
  ascending order. The queries walk that index with a cursor and look each
  record up; a date whose record is missing ends the walk like the end of
  the index does.
 */
module History {
  import opened Wrappers
  import opened Sorted
  import opened Entities
  import opened Engines
  import opened DataModel
  import opened Store
  import opened Provider

  /** The index key of a keyword and an engine (named by its id, the only
      field of the engine the queries use). */
  function Pair(k: Keyword, e: Id): KeywordEngine {
    KeywordEngine(k.id, e)
  }

  /** The dates the index holds for `k` and `e`, in cursor order. */
  function Dates(t: Tables, k: Keyword, e: Id): (h: seq<nat>)
    ensures StrictlySorted(h)
    ensures forall d: nat :: d in h <==> d in Dups(t.keywordRanking, Pair(k, e))
    ensures |h| == |Dups(t.keywordRanking, Pair(k, e))|
  {
    Ascending(Dups(t.keywordRanking, Pair(k, e)))
  }

  /** The record keys the walk looks up, one per indexed date. */
  function HistoryKeys(t: Tables, k: Keyword, e: Id): (keys: seq<RankingKey>)
    ensures |keys| == |Dates(t, k, e)|
    ensures forall i :: 0 <= i < |keys| ==> keys[i] == RankingKey(k.id, e, Dates(t, k, e)[i])
  {
    var h := Dates(t, k, e);
    seq(|h|, i requires 0 <= i < |h| => RankingKey(k.id, e, h[i]))
  }

  /** The ranking table and its index agree: every indexed date has its
      record, and every record's date is indexed. */
  predicate Indexed(t: Tables) {
    && (forall ke, d :: ke in t.keywordRanking && d in t.keywordRanking[ke] ==>
          RankingKey(ke.kwdId, ke.engId, d) in t.rankings)
    && (forall key :: key in t.rankings ==> key.date in Dups(t.keywordRanking, KeywordEngine(key.kwdId, key.engId)))
  }

  /** `storeRanking(k, e, r)`: the record under (k, e, r's date), then the
      date in the pair's index. */
  function StoreRanking(mode: Mode, t: Tables, k: Keyword, e: Id, r: Ranking): (o: Outcome)
    ensures o.thrown.None? <==> mode.writable && !mode.mapFull
    ensures o.thrown.None? ==> o.tables.rankings.Keys == t.rankings.Keys + {RankingKey(k.id, e, r.date)}
    ensures o.thrown.None? ==> o.tables.rankings[RankingKey(k.id, e, r.date)] == r
    ensures o.thrown.None? ==> forall key :: key in t.rankings && key != RankingKey(k.id, e, r.date) ==>
              o.tables.rankings[key] == t.rankings[key]
    ensures o.thrown.None? ==> Dups(o.tables.keywordRanking, Pair(k, e)) == Dups(t.keywordRanking, Pair(k, e)) + {r.date}
    ensures o.thrown.None? ==> forall ke :: ke != Pair(k, e) ==> Dups(o.tables.keywordRanking, ke) == Dups(t.keywordRanking, ke)
    ensures o.tables.categories == t.categories && o.tables.domains == t.domains && o.tables.keywords == t.keywords
    ensures o.tables.categoryDomains == t.categoryDomains && o.tables.domainKeywords == t.domainKeywords
    ensures o.thrown.Some? ==> o.tables == t
  {
    match PutRecord(mode, t.rankings, RankingKey(k.id, e, r.date), r)
    case Err(err) => Outcome(t, Some(err))
    case Ok(m) =>
      match PutDup(mode, t.keywordRanking, Pair(k, e), r.date)
      case Err(err) => Outcome(t.(rankings := m), Some(err))
      case Ok(ix) => Outcome(t.(rankings := m, keywordRanking := ix), None)
  }

  /** Storing a ranking keeps the table and the index in agreement. */
  lemma StoreKeepsIndexed(mode: Mode, t: Tables, k: Keyword, e: Id, r: Ranking)
    requires Indexed(t) && StoreRanking(mode, t, k, e, r).thrown.None?
    ensures Indexed(StoreRanking(mode, t, k, e, r).tables)
  {
    var t' := StoreRanking(mode, t, k, e, r).tables;
    forall ke, d | d in Dups(t'.keywordRanking, ke)
      ensures RankingKey(ke.kwdId, ke.engId, d) in t'.rankings
    {
      if ke != Pair(k, e) || d != r.date {
        assert d in Dups(t.keywordRanking, ke);
      }
    }
    forall key | key in t'.rankings
      ensures key.date in Dups(t'.keywordRanking, KeywordEngine(key.kwdId, key.engId))
    {
      if key != RankingKey(k.id, e, r.date) {
        assert key in t.rankings;
      }
    }
  }

  /** `rankings(k, e)`: the records of the pair's dates in index order, up
      to the first date whose record is missing. */
  function Rankings(t: Tables, k: Keyword, e: Id): (rs: seq<Ranking>)
    ensures |rs| <= |Dates(t, k, e)|
    ensures forall i :: 0 <= i < |rs| ==>
              RankingKey(k.id, e, Dates(t, k, e)[i]) in t.rankings
              && rs[i] == t.rankings[RankingKey(k.id, e, Dates(t, k, e)[i])]
    ensures |rs| < |Dates(t, k, e)| ==> RankingKey(k.id, e, Dates(t, k, e)[|rs|]) !in t.rankings
  {
    Prefix(t.rankings, HistoryKeys(t, k, e))
  }

  /** With table and index in agreement, every indexed date of the pair
      has its record. */
  lemma IndexedHas(t: Tables, k: Keyword, e: Id, i: nat)
    requires Indexed(t) && i < |Dates(t, k, e)|
    ensures RankingKey(k.id, e, Dates(t, k, e)[i]) in t.rankings
  {
    assert Dates(t, k, e)[i] in Dups(t.keywordRanking, Pair(k, e));
  }

  /** With table and index in agreement, the list holds every stored
      record of the pair, one per indexed date. */
  lemma RankingsComplete(t: Tables, k: Keyword, e: Id)
    requires Indexed(t)
    ensures |Rankings(t, k, e)| == |Dates(t, k, e)|
  {
    var h := Dates(t, k, e);
    forall i | 0 <= i < |h| ensures HistoryKeys(t, k, e)[i] in t.rankings {
      IndexedHas(t, k, e, i);
    }
    PrefixComplete(t.rankings, HistoryKeys(t, k, e));
  }

  /** Storing a ranking dated after the whole history appends its date to
      the pair's dates. */
  lemma StoreThenDates(t: Tables, k: Keyword, e: Id, r: Ranking)
    requires forall d: nat :: d in Dups(t.keywordRanking, Pair(k, e)) ==> d < r.date
    ensures StoreRanking(ReadWrite, t, k, e, r).thrown.None?
    ensures Dates(StoreRanking(ReadWrite, t, k, e, r).tables, k, e) == Dates(t, k, e) + [r.date]
  {
    var o := StoreRanking(ReadWrite, t, k, e, r);
    assert Dups(o.tables.keywordRanking, Pair(k, e)) == Dups(t.keywordRanking, Pair(k, e)) + {r.date};
    AscendingAppend(Dups(t.keywordRanking, Pair(k, e)), r.date);
  }

  /** ... and appends its key to the keys the walk looks up. */
  lemma StoreThenKeys(t: Tables, k: Keyword, e: Id, r: Ranking)
    requires forall d: nat :: d in Dups(t.keywordRanking, Pair(k, e)) ==> d < r.date
    ensures StoreRanking(ReadWrite, t, k, e, r).thrown.None?
    ensures HistoryKeys(StoreRanking(ReadWrite, t, k, e, r).tables, k, e)
            == HistoryKeys(t, k, e) + [RankingKey(k.id, e, r.date)]
  {
    StoreThenDates(t, k, e, r);
    KeysOfLongerDates(t, StoreRanking(ReadWrite, t, k, e, r).tables, k, e, r.date);
  }

  /** One more date at the end of the history is one more key at the end
      of the walk. */
  lemma KeysOfLongerDates(t: Tables, t': Tables, k: Keyword, e: Id, date: nat)
    requires Dates(t', k, e) == Dates(t, k, e) + [date]
    ensures HistoryKeys(t', k, e) == HistoryKeys(t, k, e) + [RankingKey(k.id, e, date)]
  {
    var h := Dates(t, k, e);
    var a := HistoryKeys(t', k, e);
    var b := HistoryKeys(t, k, e) + [RankingKey(k.id, e, date)];
    assert |a| == |b|;
    forall i | 0 <= i < |a| ensures a[i] == b[i] {
      if i < |h| {
        assert b[i] == HistoryKeys(t, k, e)[i];
      }
    }
  }

  /** Storing a ranking dated after the whole history appends it to the
      list `rankings` returns. */
  lemma StoreThenRankings(t: Tables, k: Keyword, e: Id, r: Ranking)
    requires Indexed(t)
    requires forall d: nat :: d in Dups(t.keywordRanking, Pair(k, e)) ==> d < r.date
    ensures StoreRanking(ReadWrite, t, k, e, r).thrown.None?
    ensures Rankings(StoreRanking(ReadWrite, t, k, e, r).tables, k, e) == Rankings(t, k, e) + [r]
  {
    var t' := StoreRanking(ReadWrite, t, k, e, r).tables;
    var keys := HistoryKeys(t, k, e);
    var key := RankingKey(k.id, e, r.date);
    StoreThenKeys(t, k, e, r);
    forall i | 0 <= i < |keys| ensures keys[i] in t.rankings && keys[i] != key {
      IndexedHas(t, k, e, i);
      assert Dates(t, k, e)[i] in Dups(t.keywordRanking, Pair(k, e));
    }
    PrefixAppend(t.rankings, t'.rankings, keys, key);
  }

  /** Walking one more key, present in the new table, whose old keys all
      read the same, appends that key's record. */
  lemma {:induction false} PrefixAppend<K, V>(m: map<K, V>, m': map<K, V>, keys: seq<K>, key: K)
    requires forall i :: 0 <= i < |keys| ==> keys[i] in m && keys[i] != key
    requires forall x :: x in m ==> x in m' && (x != key ==> m'[x] == m[x])
    requires key in m'
    ensures Prefix(m', keys + [key]) == Prefix(m, keys) + [m'[key]]
    decreases |keys|
  {
    if |keys| == 0 {
      assert keys + [key] == [key];
    } else {
      assert (keys + [key])[1..] == keys[1..] + [key];
      PrefixAppend(m, m', keys[1..], key);
    }
  }

  /** `last_ranking(k, e)`: the record of the latest indexed date; a
      not-found when the history is empty or that record is missing. */
  function LastRanking(t: Tables, k: Keyword, e: Id): (r: Result<Ranking, DbError>)
    ensures r.Err? ==> r.error == NotFound
    ensures Dups(t.keywordRanking, Pair(k, e)) == {} ==> r.Err?
    ensures r.Ok? ==> Dups(t.keywordRanking, Pair(k, e)) != {}
    ensures r.Ok? ==>
      && RankingKey(k.id, e, Greatest(Dups(t.keywordRanking, Pair(k, e)))) in t.rankings
      && r.value == t.rankings[RankingKey(k.id, e, Greatest(Dups(t.keywordRanking, Pair(k, e))))]
  {
    var h := Dates(t, k, e);
    if |h| == 0 then Err(NotFound)
    else
      assert h[|h| - 1] == Greatest(Dups(t.keywordRanking, Pair(k, e))) by {
        var g := Greatest(Dups(t.keywordRanking, Pair(k, e)));
        var i :| 0 <= i < |h| && h[i] == g;
        assert h[|h| - 1] in Dups(t.keywordRanking, Pair(k, e));
        assert !(i < |h| - 1);
      }
      GetRecord(t.rankings, RankingKey(k.id, e, h[|h| - 1]))
  }

  /** With table and index in agreement, `last_ranking` is the last entry of
      `rankings`, and fails exactly when that list is empty. */
  lemma LastIsLastOfRankings(t: Tables, k: Keyword, e: Id)
    requires Indexed(t)
    ensures LastRanking(t, k, e).Ok? <==> |Rankings(t, k, e)| > 0
    ensures LastRanking(t, k, e).Ok? ==>
              LastRanking(t, k, e).value == Rankings(t, k, e)[|Rankings(t, k, e)| - 1]
  {
    RankingsComplete(t, k, e);
    var h := Dates(t, k, e);
    if |h| > 0 {
      IndexedHas(t, k, e, |h| - 1);
    }
  }

  /** The two most recent records of the pair, latest first, when both
      exist and both ranks are non-negative. */
  function LastTwo(t: Tables, k: Keyword, e: Id): (r: Result<(Ranking, Ranking), DbError>)
    ensures r.Err? ==> r.error == NotFound
    ensures r.Ok? ==> r.value.0.rank >= 0 && r.value.1.rank >= 0
  {
    LastTwoAt(t.rankings, k.id, e, Dates(t, k, e))
  }

  /** The records of the last two dates of `h` for the pair (`kid`, `e`). */
  function LastTwoAt(m: map<RankingKey, Ranking>, kid: Id, e: Id, h: seq<nat>): (r: Result<(Ranking, Ranking), DbError>)
    ensures r.Err? ==> r.error == NotFound
    ensures r.Ok? ==> r.value.0.rank >= 0 && r.value.1.rank >= 0
  {
    if |h| < 2 then Err(NotFound)
    else ReadTwo(m, RankingKey(kid, e, h[|h| - 1]), RankingKey(kid, e, h[|h| - 2]))
  }

  /** The records under `kl` and then `kp`, each read only when the one
      before was found with a non-negative rank. */
  function ReadTwo(m: map<RankingKey, Ranking>, kl: RankingKey, kp: RankingKey): (r: Result<(Ranking, Ranking), DbError>)
    ensures r.Err? ==> r.error == NotFound
    ensures r.Ok? <==> kl in m && kp in m && m[kl].rank >= 0 && m[kp].rank >= 0
    ensures r.Ok? ==> r.value == (m[kl], m[kp])
  {
    var last :- GetRecord(m, kl);
    if last.rank < 0 then Err(NotFound)
    else
      var prev :- GetRecord(m, kp);
      if prev.rank < 0 then Err(NotFound)
      else Ok((last, prev))
  }

  /** A pointer out-parameter: null, or a variable holding a ranking. */
  datatype Slot = Null | Holds(r: Ranking)

  /** The return value of `diff_ranking` and the final contents of its two
      out-parameters. */
  datatype DiffCall = DiffCall(result: Result<Rank, DbError>, last: Slot, prev: Slot)

  /** `diff_ranking(k, e, last, prev)`: the previous rank minus the last
      one; the out-parameters are written only on success, and only when
      not null. */
  function DiffRanking(t: Tables, k: Keyword, e: Id, last: Slot, prev: Slot): (c: DiffCall)
    ensures c.result.Err? ==> c.result.error == NotFound && c.last == last && c.prev == prev
    ensures c.result.Ok? ==> LastTwo(t, k, e).Ok?
    ensures c.result.Ok? ==> c.result.value == LastTwo(t, k, e).value.1.rank - LastTwo(t, k, e).value.0.rank
    ensures c.result.Ok? ==> c.last == (if last.Null? then Null else Holds(LastTwo(t, k, e).value.0))
    ensures c.result.Ok? ==> c.prev == (if prev.Null? then Null else Holds(LastTwo(t, k, e).value.1))
    ensures last.Null? ==> c.last.Null?
    ensures prev.Null? ==> c.prev.Null?
  {
    match LastTwo(t, k, e)
    case Err(err) => DiffCall(Err(err), last, prev)
    case Ok((l, p)) =>
      DiffCall(Ok(p.rank - l.rank),
               if last.Null? then Null else Holds(l),
               if prev.Null? then Null else Holds(p))
  }

  /** The last two entries of a list of rankings, latest first, when both
      exist and both ranks are non-negative. */
  function LastTwoOf(rs: seq<Ranking>): (r: Result<(Ranking, Ranking), DbError>) {
    if |rs| >= 2 && rs[|rs| - 1].rank >= 0 && rs[|rs| - 2].rank >= 0 then Ok((rs[|rs| - 1], rs[|rs| - 2]))
    else Err(NotFound)
  }

  /** With table and index in agreement, the two most recent records are
      the last two entries of `rankings`. */
  lemma LastTwoOfRankings(t: Tables, k: Keyword, e: Id)
    requires Indexed(t)
    ensures LastTwo(t, k, e) == LastTwoOf(Rankings(t, k, e))
  {
    if |Dates(t, k, e)| >= 2 {
      RankingsComplete(t, k, e);
      ReadLastTwo(t.rankings, k.id, e, Dates(t, k, e), Rankings(t, k, e));
    } else {
      LastTwoShort(t, k, e);
    }
  }

  /** With fewer than two dates both readings are not-found. */
  lemma LastTwoShort(t: Tables, k: Keyword, e: Id)
    requires |Dates(t, k, e)| < 2
    ensures LastTwo(t, k, e) == Err(NotFound)
    ensures LastTwoOf(Rankings(t, k, e)) == Err(NotFound)
  {
  }

  /** When `rs` holds the record of every date of `h`, reading the keys of
      the last two dates gives the last two entries of `rs`. */
  lemma ReadLastTwo(m: map<RankingKey, Ranking>, kid: Id, e: Id, h: seq<nat>, rs: seq<Ranking>)
    requires |rs| == |h| >= 2
    requires forall i :: 0 <= i < |rs| ==>
               RankingKey(kid, e, h[i]) in m && rs[i] == m[RankingKey(kid, e, h[i])]
    ensures LastTwoAt(m, kid, e, h) == LastTwoOf(rs)
  {
    var n := |h|;
    assert RankingKey(kid, e, h[n - 1]) in m && rs[n - 1] == m[RankingKey(kid, e, h[n - 1])];
    assert RankingKey(kid, e, h[n - 2]) in m && rs[n - 2] == m[RankingKey(kid, e, h[n - 2])];
  }

  /** With table and index in agreement, `diff_ranking` succeeds exactly
      when the history has at least two records and the last two ranks are
      non-negative, and returns their difference. */
  lemma DiffOfRankings(t: Tables, k: Keyword, e: Id, last: Slot, prev: Slot)
    requires Indexed(t)
    ensures var rs := Rankings(t, k, e);
      DiffRanking(t, k, e, last, prev).result.Ok? <==>
        |rs| >= 2 && rs[|rs| - 1].rank >= 0 && rs[|rs| - 2].rank >= 0
    ensures var rs := Rankings(t, k, e);
      DiffRanking(t, k, e, last, prev).result.Ok? ==>
        DiffRanking(t, k, e, last, prev).result.value == rs[|rs| - 2].rank - rs[|rs| - 1].rank
  {
    LastTwoOfRankings(t, k, e);
  }

  /** The position `best_ranking` settles on among the first `n` records:
      a record replaces the best so far when the best is a sentinel, or
      when it has a non-negative rank below the best's. */
  function BestIndex(rs: seq<Ranking>, n: nat): (i: nat)
    requires 1 <= n <= |rs|
    ensures i < n
  {
    if n == 1 then 0
    else
      var b := BestIndex(rs, n - 1);
      var x := rs[n - 1];
      if rs[b].rank < 0 || (x.rank > -1 && x.rank < rs[b].rank) then n - 1 else b
  }

  /** The chosen record has the least non-negative rank, and no earlier
      record has that rank; when every rank is a sentinel it is the last
      record. */
  lemma {:induction false} BestIndexMeaning(rs: seq<Ranking>, n: nat)
    requires 1 <= n <= |rs|
    ensures var i := BestIndex(rs, n);
      (exists j :: 0 <= j < n && rs[j].rank >= 0) ==>
        && rs[i].rank >= 0
        && (forall j :: 0 <= j < n && rs[j].rank >= 0 ==> rs[i].rank <= rs[j].rank)
        && (forall j :: 0 <= j < i ==> rs[j].rank != rs[i].rank)
    ensures (forall j :: 0 <= j < n ==> rs[j].rank < 0) ==> BestIndex(rs, n) == n - 1
  {
    if n > 1 {
      BestIndexMeaning(rs, n - 1);
      var b := BestIndex(rs, n - 1);
      var i := BestIndex(rs, n);
      if exists j :: 0 <= j < n - 1 && rs[j].rank >= 0 {
        assert rs[b].rank >= 0;
        if i == n - 1 {
          assert rs[n - 1].rank < rs[b].rank;
        }
      }
    }
  }

  /** `best_ranking(k, e)`: the first record, then every later one in turn
      replacing it under the rule of `BestIndex`; the walk is the one
      `rankings` does, and an empty walk is a not-found. */
  function BestRanking(t: Tables, k: Keyword, e: Id): (r: Result<Ranking, DbError>)
    ensures r.Err? ==> r.error == NotFound
    ensures r.Err? <==> |Rankings(t, k, e)| == 0
    ensures r.Ok? ==> r.value in Rankings(t, k, e)
  {
    var rs := Rankings(t, k, e);
    if |rs| == 0 then Err(NotFound) else Ok(rs[BestIndex(rs, |rs|)])
  }

  /** `b` is the earliest entry of `rs` with the least non-negative rank,
      or the last entry when every rank is the sentinel. */
  predicate IsBest(rs: seq<Ranking>, b: Ranking)
    requires |rs| >= 1
  {
    && ((exists j :: 0 <= j < |rs| && rs[j].rank >= 0) ==>
          && b.rank >= 0
          && (forall j :: 0 <= j < |rs| && rs[j].rank >= 0 ==> b.rank <= rs[j].rank)
          && (exists i :: 0 <= i < |rs| && rs[i] == b && forall j :: 0 <= j < i ==> rs[j].rank != b.rank))
    && ((forall j :: 0 <= j < |rs| ==> rs[j].rank < 0) ==> b == rs[|rs| - 1])
  }

  /** The best ranking is the earliest one with the least non-negative
      rank, or the last one when every rank is the sentinel. */
  lemma BestRankingMeaning(t: Tables, k: Keyword, e: Id)
    requires BestRanking(t, k, e).Ok?
    ensures IsBest(Rankings(t, k, e), BestRanking(t, k, e).value)
  {
    var rs := Rankings(t, k, e);
    assert BestRanking(t, k, e).value == rs[BestIndex(rs, |rs|)];
    BestOfList(rs);
  }

  /** The record `BestIndex` picks from a whole list is the best one. */
  lemma BestOfList(rs: seq<Ranking>)
    requires |rs| >= 1
    ensures IsBest(rs, rs[BestIndex(rs, |rs|)])
  {
    BestIndexMeaning(rs, |rs|);
  }

  // `prev_ranking`: the cursor is placed on the given ranking's key and
  // stepped back once in the whole ranking table, whose keys are ordered by
  // keyword id, then engine id, then date.

  /** The order of the ranking table's keys. */
  predicate KeyBefore(a: RankingKey, b: RankingKey) {
    || a.kwdId < b.kwdId
    || (a.kwdId == b.kwdId && a.engId < b.engId)
    || (a.kwdId == b.kwdId && a.engId == b.engId && a.date < b.date)
  }

  /** The greatest keyword id among `s`. */
  function TopKeyword(s: set<RankingKey>): (m: Id)
    requires s != {}
    ensures exists x :: x in s && x.kwdId == m
    ensures forall x :: x in s ==> x.kwdId <= m
  {
    var x0 :| x0 in s;
    var ids := set x | x in s :: x.kwdId as nat;
    assert x0.kwdId as nat in ids;
    var m := Greatest(ids);
    assert forall x :: x in s ==> x.kwdId <= m by {
      forall x | x in s ensures x.kwdId <= m {
        assert x.kwdId as nat in ids;
      }
    }
    m
  }

  /** The greatest engine id among `s`. */
  function TopEngine(s: set<RankingKey>): (m: Id)
    requires s != {}
    ensures exists x :: x in s && x.engId == m
    ensures forall x :: x in s ==> x.engId <= m
  {
    var x0 :| x0 in s;
    var ids := set x | x in s :: x.engId as nat;
    assert x0.engId as nat in ids;
    var m := Greatest(ids);
    assert forall x :: x in s ==> x.engId <= m by {
      forall x | x in s ensures x.engId <= m {
        assert x.engId as nat in ids;
      }
    }
    m
  }

  /** The greatest date among `s`. */
  function TopDate(s: set<RankingKey>): (m: nat)
    requires s != {}
    ensures exists x :: x in s && x.date == m
    ensures forall x :: x in s ==> x.date <= m
  {
    var x0 :| x0 in s;
    var ds := set x | x in s :: x.date;
    assert x0.date in ds;
    var m := Greatest(ds);
    assert forall x :: x in s ==> x.date <= m by {
      forall x | x in s ensures x.date <= m {
        assert x.date in ds;
      }
    }
    m
  }

  /** The last key of a non-empty set in table order. */
  function LastKey(s: set<RankingKey>): (m: RankingKey)
    requires s != {}
    ensures m in s
    ensures forall x :: x in s ==> !KeyBefore(m, x)
  {
    var k1 := TopKeyword(s);
    var s1 := set x | x in s && x.kwdId == k1;
    assert s1 != {} by {
      var w :| w in s && w.kwdId == k1;
      assert w in s1;
    }
    var e1 := TopEngine(s1);
    var s2 := set x | x in s1 && x.engId == e1;
    assert s2 != {} by {
      var w :| w in s1 && w.engId == e1;
      assert w in s2;
    }
    var d1 := TopDate(s2);
    var m := RankingKey(k1, e1, d1);
    assert m in s by {
      var w :| w in s2 && w.date == d1;
      assert w == m;
    }
    assert forall x :: x in s ==> !KeyBefore(m, x) by {
      forall x | x in s ensures !KeyBefore(m, x) {
        if x.kwdId == k1 {
          assert x in s1;
          if x.engId == e1 {
            assert x in s2;
          }
        }
      }
    }
    m
  }

  /** The greatest key of `keys` before `key`, if any: the key a cursor on
      `key` steps back to. */
  function PredecessorKey(keys: set<RankingKey>, key: RankingKey): (p: Option<RankingKey>)
    ensures p.None? <==> forall x :: x in keys ==> !KeyBefore(x, key)
    ensures p.Some? ==> p.value in keys && KeyBefore(p.value, key)
    ensures p.Some? ==> forall x :: x in keys && KeyBefore(x, key) ==> !KeyBefore(p.value, x)
  {
    var below := set x | x in keys && KeyBefore(x, key);
    if below == {} then
      assert forall x :: x in keys ==> !KeyBefore(x, key) by {
        forall x | x in keys ensures !KeyBefore(x, key) {
          assert KeyBefore(x, key) ==> x in below;
        }
      }
      None
    else
      var p := LastKey(below);
      assert forall x :: x in keys && KeyBefore(x, key) ==> !KeyBefore(p, x) by {
        forall x | x in keys && KeyBefore(x, key) ensures !KeyBefore(p, x) {
          assert x in below;
        }
      }
      Some(p)
  }

  /** `prev_ranking(k, e, r)` as written: a not-found if `r`'s key is not
      stored or is the first key of the table; otherwise the record under
      the key before it, whichever keyword and engine that key belongs to. */
  function PrevRankingAsWritten(t: Tables, k: Keyword, e: Id, r: Ranking): (p: Result<Ranking, DbError>)
    ensures p.Err? ==> p.error == NotFound
    ensures p.Ok? ==> RankingKey(k.id, e, r.date) in t.rankings
    ensures p.Ok? ==>
      exists key :: key in t.rankings && KeyBefore(key, RankingKey(k.id, e, r.date)) && p.value == t.rankings[key]
  {
    var key := RankingKey(k.id, e, r.date);
    if key !in t.rankings then Err(NotFound)
    else
      match PredecessorKey(t.rankings.Keys, key)
      case None => Err(NotFound)
      case Some(q) => Ok(t.rankings[q])
  }

  /** `prev_ranking(k, e, r)` as evidently intended: the record of the same
      keyword and engine with the latest date before `r`'s. */
  function PrevRanking(t: Tables, k: Keyword, e: Id, r: Ranking): (p: Result<Ranking, DbError>)
    ensures p.Err? ==> p.error == NotFound
    ensures p.Ok? ==> RankingKey(k.id, e, r.date) in t.rankings
    ensures p.Ok? ==>
      exists d: nat :: d in Dups(t.keywordRanking, Pair(k, e)) && d < r.date
        && RankingKey(k.id, e, d) in t.rankings
        && p.value == t.rankings[RankingKey(k.id, e, d)]
        && forall d': nat :: d' in Dups(t.keywordRanking, Pair(k, e)) && d' < r.date ==> d' <= d
  {
    var key := RankingKey(k.id, e, r.date);
    if key !in t.rankings then Err(NotFound)
    else
      var earlier := Below(Dups(t.keywordRanking, Pair(k, e)), r.date);
      if earlier == {} then Err(NotFound)
      else
        var g := Greatest(earlier);
        assert forall d': nat :: d' in Dups(t.keywordRanking, Pair(k, e)) && d' < r.date ==> d' <= g by {
          forall d': nat | d' in Dups(t.keywordRanking, Pair(k, e)) && d' < r.date ensures d' <= g {
            assert d' in earlier;
          }
        }
        GetRecord(t.rankings, RankingKey(k.id, e, g))
  }

  /** With table and index in agreement, and every record filed under its
      own date, the intended `prev_ranking` of the `i`-th record of the
      history is the record before it in `rankings`. */
  lemma PrevIsPrevious(t: Tables, k: Keyword, e: Id, i: nat)
    requires Indexed(t) && Keyed(t)
    requires 0 < i < |Dates(t, k, e)|
    ensures |Rankings(t, k, e)| == |Dates(t, k, e)|
    ensures PrevRanking(t, k, e, Rankings(t, k, e)[i]) == Ok(Rankings(t, k, e)[i - 1])
  {
    RankingsComplete(t, k, e);
    var h := Dates(t, k, e);
    var rs := Rankings(t, k, e);
    IndexedHas(t, k, e, i);
    IndexedHas(t, k, e, i - 1);
    assert rs[i].date == h[i];
    GreatestBelow(h, Dups(t.keywordRanking, Pair(k, e)), i);
  }

  /** The earliest ranking of a pair has no previous one, yet as written
      `prev_ranking` steps back into another pair's records whenever the
      table holds a key before it. */
  lemma PrevCrossesPairs(t: Tables, k: Keyword, e: Id, r: Ranking, other: RankingKey)
    requires Indexed(t)
    requires RankingKey(k.id, e, r.date) in t.rankings
    requires Below(Dups(t.keywordRanking, Pair(k, e)), r.date) == {}
    requires other in t.rankings && KeyBefore(other, RankingKey(k.id, e, r.date))
    ensures PrevRanking(t, k, e, r) == Err(NotFound)
    ensures PrevRankingAsWritten(t, k, e, r).Ok?
    ensures exists key :: key in t.rankings && (key.kwdId != k.id || key.engId != e)
                        && PrevRankingAsWritten(t, k, e, r).value == t.rankings[key]
  {
    var key := RankingKey(k.id, e, r.date);
    var p := PredecessorKey(t.rankings.Keys, key);
    assert p.Some?;
    var q := p.value;
    assert q.date in Dups(t.keywordRanking, KeywordEngine(q.kwdId, q.engId));
    assert q.kwdId == k.id && q.engId == e ==> q.date in Below(Dups(t.keywordRanking, Pair(k, e)), r.date);
  }

  /** Two keywords with one ranking each on the same engine: the previous
      ranking of the second keyword's only ranking is, as written, the first
      keyword's ranking. */
  lemma PrevCrossesKeywordsExample()
    ensures var t := EmptyTables.(
              rankings := map[RankingKey(1, 0, 5) := Ranking(5, 3, ""), RankingKey(2, 0, 9) := Ranking(9, 7, "")],
              keywordRanking := map[KeywordEngine(1, 0) := {5}, KeywordEngine(2, 0) := {9}]);
      && PrevRankingAsWritten(t, Keyword(2, "b"), 0, Ranking(9, 7, "")) == Ok(Ranking(5, 3, ""))
      && PrevRanking(t, Keyword(2, "b"), 0, Ranking(9, 7, "")) == Err(NotFound)
  {
    var t := EmptyTables.(
      rankings := map[RankingKey(1, 0, 5) := Ranking(5, 3, ""), RankingKey(2, 0, 9) := Ranking(9, 7, "")],
      keywordRanking := map[KeywordEngine(1, 0) := {5}, KeywordEngine(2, 0) := {9}]);
    var k := Keyword(2, "b");
    var r := Ranking(9, 7, "");
    assert Below(Dups(t.keywordRanking, Pair(k, 0)), r.date) == {};
    PrevCrossesPairs(t, k, 0, r, RankingKey(1, 0, 5));
  }
}
