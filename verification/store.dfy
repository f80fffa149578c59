/**
  The key/value store under the data provider: four record tables, three
  duplicate-sorted indices, and the three primitive calls (`put`, `get`,
  `del`) with the exceptions they raise. A record table is a map; an index
  is a map from a key to the set of its duplicate values (the store keeps
  them sorted, so iterating an index visits the set in ascending order).
 */
module Store {
  import opened Wrappers
  import opened Entities
  import opened DataModel

  /** The store call an exception reports. */
  datatype DbCall =
    | CreateEnv | SetMapSize | SetMaxDbs | OpenEnv | OpenDb | GetEnvInfo
    | BeginTrans | Commit | Rollback | Put | Get | Del
    | OpenCursor | CloseCursor | CursorGet | CursorDel

  /** Result codes of the store library that the provider tells apart. */
  const MdbNotFound: int := -30798
  const MdbMapFull: int := -30792
  const Eacces: int := 13

  /** The dynamic class of a thrown `DataProviderException`: a
      `NotFoundException`, a `DatabaseMapFullException`, or the base class
      carrying whatever code the call returned. */
  datatype DbError =
    | NotFound
    | MapFull(call: DbCall)
    | Failure(call: DbCall, code: int)
  {
    /** The `db_call` field of the base class. A not-found is always
        tagged as a `get`, whichever call raised it. */
    function DbCallOf(): DbCall {
      match this
      case NotFound => Get
      case MapFull(c) => c
      case Failure(c, _) => c
    }

    /** The `db_call_result` field of the base class. */
    function DbCallResult(): int {
      match this
      case NotFound => MdbNotFound
      case MapFull(_) => MdbMapFull
      case Failure(_, code) => code
    }

    /** Every plain failure the provider raises carries a code other than the
        two it reports through the derived classes. */
    predicate WellFormed() {
      Failure? ==> code != MdbNotFound && code != MdbMapFull
    }
  }

  /** Tells the three outcome classes apart from the base-class fields alone. */
  function Classify(call: DbCall, code: int): (e: DbError)
    ensures e.WellFormed()
    ensures e.NotFound? <==> code == MdbNotFound
    ensures e.MapFull? <==> code == MdbMapFull
    ensures e.DbCallResult() == code
  {
    if code == MdbNotFound then NotFound
    else if code == MdbMapFull then MapFull(call)
    else Failure(call, code)
  }

  /** The base-class fields of a well-formed exception determine its class:
      classifying them gives the exception back. */
  lemma ClassifyRecovers(e: DbError)
    requires e.WellFormed()
    ensures Classify(e.DbCallOf(), e.DbCallResult()) == e
  {
  }

  /** What a transaction may do: a read-only transaction refuses writes, and
      a full map refuses every put. */
  datatype Mode = Mode(writable: bool, mapFull: bool)

  const ReadWrite: Mode := Mode(true, false)

  /** The store's contents as one transaction sees them. */
  datatype Tables = Tables(
    categories: map<Id, Category>,
    domains: map<Id, Domain>,
    keywords: map<Id, Keyword>,
    rankings: map<RankingKey, Ranking>,
    categoryDomains: map<Id, set<Id>>,
    domainKeywords: map<Id, set<Id>>,
    keywordRanking: map<KeywordEngine, set<nat>>)

  const EmptyTables: Tables := Tables(map[], map[], map[], map[], map[], map[], map[])

  /** `get`: the record under `k`, or a not-found. */
  function GetRecord<K, V>(m: map<K, V>, k: K): (r: Result<V, DbError>)
    ensures r.Ok? <==> k in m
    ensures r.Ok? ==> r.value == m[k]
    ensures r.Err? ==> r.error == NotFound
  {
    if k in m then Ok(m[k]) else Err(NotFound)
  }

  /** `put` into a record table: a read-only transaction is refused first,
      then a full map; otherwise the record under `k` becomes `v`. */
  function PutRecord<K, V>(mode: Mode, m: map<K, V>, k: K, v: V): (r: Result<map<K, V>, DbError>)
    ensures !mode.writable ==> r == Err(Failure(DbCall.Put, Eacces))
    ensures mode.writable && mode.mapFull ==> r == Err(MapFull(DbCall.Put))
    ensures r.Ok? <==> mode.writable && !mode.mapFull
    ensures r.Ok? ==> r.value.Keys == m.Keys + {k} && r.value[k] == v
    ensures r.Ok? ==> forall x :: x in m && x != k ==> r.value[x] == m[x]
  {
    if !mode.writable then Err(Failure(DbCall.Put, Eacces))
    else if mode.mapFull then Err(MapFull(DbCall.Put))
    else Ok(m[k := v])
  }

  /** `del` of a key from a record table: a read-only transaction is refused
      first, then an absent key is a not-found. */
  function DelRecord<K, V>(mode: Mode, m: map<K, V>, k: K): (r: Result<map<K, V>, DbError>)
    ensures !mode.writable ==> r == Err(Failure(DbCall.Del, Eacces))
    ensures mode.writable && k !in m ==> r == Err(NotFound)
    ensures r.Ok? <==> mode.writable && k in m
    ensures r.Ok? ==> r.value.Keys == m.Keys - {k}
    ensures r.Ok? ==> forall x :: x in r.value ==> r.value[x] == m[x]
  {
    if !mode.writable then Err(Failure(DbCall.Del, Eacces))
    else if k !in m then Err(NotFound)
    else Ok(m - {k})
  }

  /** No key of an index is left with an empty set of duplicates. */
  predicate Compact<K, V>(ix: map<K, set<V>>) {
    forall k :: k in ix ==> ix[k] != {}
  }

  /** The duplicates stored under `k`; none when the key is absent. */
  function Dups<K, V>(ix: map<K, set<V>>, k: K): set<V> {
    if k in ix then ix[k] else {}
  }

  /** `put` of a key/value pair into a duplicate-sorted index: the pair is
      added to the key's duplicates; putting a pair already present changes
      nothing. */
  function PutDup<K(!new), V>(mode: Mode, ix: map<K, set<V>>, k: K, v: V): (r: Result<map<K, set<V>>, DbError>)
    ensures !mode.writable ==> r == Err(Failure(DbCall.Put, Eacces))
    ensures mode.writable && mode.mapFull ==> r == Err(MapFull(DbCall.Put))
    ensures r.Ok? <==> mode.writable && !mode.mapFull
    ensures r.Ok? ==> Dups(r.value, k) == Dups(ix, k) + {v}
    ensures r.Ok? ==> forall x :: x != k ==> Dups(r.value, x) == Dups(ix, x)
    ensures r.Ok? && Compact(ix) ==> Compact(r.value)
  {
    if !mode.writable then Err(Failure(DbCall.Put, Eacces))
    else if mode.mapFull then Err(MapFull(DbCall.Put))
    else Ok(ix[k := Dups(ix, k) + {v}])
  }

  /** `del` of one key/value pair from a duplicate-sorted index; the key
      goes when its last duplicate does. */
  function DelDup<K(!new), V>(mode: Mode, ix: map<K, set<V>>, k: K, v: V): (r: Result<map<K, set<V>>, DbError>)
    ensures !mode.writable ==> r == Err(Failure(DbCall.Del, Eacces))
    ensures mode.writable && v !in Dups(ix, k) ==> r == Err(NotFound)
    ensures r.Ok? <==> mode.writable && v in Dups(ix, k)
    ensures r.Ok? ==> Dups(r.value, k) == Dups(ix, k) - {v}
    ensures r.Ok? ==> forall x :: x != k ==> Dups(r.value, x) == Dups(ix, x)
    ensures r.Ok? && Compact(ix) ==> Compact(r.value)
  {
    if !mode.writable then Err(Failure(DbCall.Del, Eacces))
    else if v !in Dups(ix, k) then Err(NotFound)
    else if ix[k] == {v} then Ok(ix - {k})
    else Ok(ix[k := ix[k] - {v}])
  }

  /** `del` of a key, without a value, from a duplicate-sorted index removes
      all its duplicates. */
  function DelKey<K(!new), V>(mode: Mode, ix: map<K, set<V>>, k: K): (r: Result<map<K, set<V>>, DbError>)
    ensures !mode.writable ==> r == Err(Failure(DbCall.Del, Eacces))
    ensures mode.writable && k !in ix ==> r == Err(NotFound)
    ensures r.Ok? <==> mode.writable && k in ix
    ensures r.Ok? ==> Dups(r.value, k) == {}
    ensures r.Ok? ==> forall x :: x != k ==> Dups(r.value, x) == Dups(ix, x)
    ensures r.Ok? && Compact(ix) ==> Compact(r.value)
  {
    if !mode.writable then Err(Failure(DbCall.Del, Eacces))
    else if k !in ix then Err(NotFound)
    else Ok(ix - {k})
  }

  /** Adding a pair that was not in a compact index and deleting it again
      gives back the index. */
  lemma PutDelDupRestores<K(!new), V>(ix: map<K, set<V>>, k: K, v: V)
    requires Compact(ix) && v !in Dups(ix, k)
    ensures PutDup(ReadWrite, ix, k, v).Ok?
    ensures DelDup(ReadWrite, PutDup(ReadWrite, ix, k, v).value, k, v) == Ok(ix)
  {
    var ix1 := PutDup(ReadWrite, ix, k, v).value;
    var ix2 := DelDup(ReadWrite, ix1, k, v).value;
    assert forall x :: Dups(ix2, x) == Dups(ix, x);
    forall x ensures x in ix2 <==> x in ix {
      assert Dups(ix2, x) == Dups(ix, x);
    }
    forall x | x in ix ensures ix2[x] == ix[x] {
      assert Dups(ix2, x) == Dups(ix, x);
    }
    assert ix2 == ix;
  }

  /** Putting a record and getting it back yields the record; other keys
      read as before. */
  lemma PutThenGet<K, V>(m: map<K, V>, k: K, v: V, other: K)
    requires other != k
    ensures PutRecord(ReadWrite, m, k, v).Ok?
    ensures GetRecord(PutRecord(ReadWrite, m, k, v).value, k) == Ok(v)
    ensures GetRecord(PutRecord(ReadWrite, m, k, v).value, other) == GetRecord(m, other)
  {
  }

  /** After a successful delete the key reads as not found. */
  lemma DelThenGet<K, V>(mode: Mode, m: map<K, V>, k: K)
    requires DelRecord(mode, m, k).Ok?
    ensures GetRecord(DelRecord(mode, m, k).value, k) == Err(NotFound)
    ensures GetRecord(m, k).Ok?
  {
  }
}
