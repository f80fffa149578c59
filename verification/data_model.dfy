/**
  The stored records: categories, keywords and domains (entities with an
  id), and the plain key and value records of the ranking history. Each
  record has its archive layout; versioned classes reject a version above 0,
  the plain structs ignore it.
 */
module DataModel {
  import opened Wrappers
  import opened Sorted
  import opened Archive
  import opened Entities
  import opened Engines

  datatype Category = Category(id: Id, name: string)

  datatype Keyword = Keyword(id: Id, value: string)

  /** `engines` holds the ids of the referenced engines: the set hashes and
      compares references by engine id. */
  datatype Domain = Domain(id: Id, name: string, engines: set<Id>, createdDate: PTime, lastUpdateDate: PTime)

  /** The key of the keyword/engine ranking index. */
  datatype KeywordEngine = KeywordEngine(kwdId: Id, engId: Id)

  /** The key of a ranking record; `date` is the ranking time in seconds. */
  datatype RankingKey = RankingKey(kwdId: Id, engId: Id, date: nat)

  datatype Ranking = Ranking(date: nat, rank: Rank, pageUrl: string)

  // Constructors. Those without an id take the uuid the default entity
  // constructor would draw; those without dates take the current time.

  function NewCategory(uuid: Id, name: string): (c: Category)
    ensures c.id == uuid && c.name == name
  {
    Category(uuid, name)
  }

  function NewKeyword(uuid: Id, value: string): (k: Keyword)
    ensures k.id == uuid && k.value == value
  {
    Keyword(uuid, value)
  }

  /** A domain made without dates is created now and has never been updated. */
  function NewDomain(uuid: Id, now: nat, name: string, engines: set<Id>): (d: Domain)
    ensures d.id == uuid && d.name == name && d.engines == engines
    ensures d.createdDate == At(now) && d.lastUpdateDate == NotADateTime
  {
    Domain(uuid, name, engines, At(now), NotADateTime)
  }

  // Setters: each replaces one field; the id never changes.

  function SetCategoryName(c: Category, name: string): (r: Category)
    ensures r.id == c.id && r.name == name
  {
    c.(name := name)
  }

  function SetKeywordValue(k: Keyword, value: string): (r: Keyword)
    ensures r.id == k.id && r.value == value
  {
    k.(value := value)
  }

  function SetDomainName(d: Domain, name: string): (r: Domain)
    ensures r.id == d.id && r.name == name && r.engines == d.engines
    ensures r.createdDate == d.createdDate && r.lastUpdateDate == d.lastUpdateDate
  {
    d.(name := name)
  }

  /** `Domain::insert_engine`: set insertion by engine id. */
  function InsertEngine(d: Domain, e: SearchEngineRef): (r: Domain)
    requires e.engine.Some?
    ensures RefId(e) in r.engines
    ensures forall id :: id != RefId(e) ==> (id in r.engines <==> id in d.engines)
    ensures RefId(e) in d.engines ==> r == d
    ensures r.id == d.id && r.name == d.name
    ensures r.createdDate == d.createdDate && r.lastUpdateDate == d.lastUpdateDate
  {
    d.(engines := d.engines + {RefId(e)})
  }

  /** `Domain::erase_engine`: set removal by engine id. */
  function EraseEngine(d: Domain, e: SearchEngineRef): (r: Domain)
    requires e.engine.Some?
    ensures RefId(e) !in r.engines
    ensures forall id :: id != RefId(e) ==> (id in r.engines <==> id in d.engines)
    ensures RefId(e) !in d.engines ==> r == d
    ensures r.id == d.id && r.name == d.name
    ensures r.createdDate == d.createdDate && r.lastUpdateDate == d.lastUpdateDate
  {
    d.(engines := d.engines - {RefId(e)})
  }

  /** Inserting an engine the domain did not have and erasing it again gives
      back the original domain. */
  lemma InsertEraseRestores(d: Domain, e: SearchEngineRef)
    requires e.engine.Some? && RefId(e) !in d.engines
    ensures EraseEngine(InsertEngine(d, e), e) == d
  {
    assert (d.engines + {RefId(e)}) - {RefId(e)} == d.engines;
  }

  // Archive layouts.

  function EncodeCategory(c: Category): seq<Field> {
    [Version(0)] + Entities.Save(Entity(c.id)) + [Text(c.name)]
  }

  function DecodeCategory(a: seq<Field>): (r: Result<Decoded<Category>, DecodeError>)
    ensures |a| > 0 && a[0].Version? && a[0].v > 0 ==> r == Err(UnknownSerializationVersion(a[0].v))
  {
    var body :- ReadClassVersion(a);
    var e :- Entities.Load(body);
    var name :- ReadText(e.rest);
    Ok(Decoded(Category(e.value.id, name.value), name.rest))
  }

  lemma CategoryRoundTrip(c: Category, rest: seq<Field>)
    ensures DecodeCategory(EncodeCategory(c) + rest) == Ok(Decoded(c, rest))
  {
    var a := EncodeCategory(c) + rest;
    assert a[1..] == Entities.Save(Entity(c.id)) + ([Text(c.name)] + rest);
    Entities.SaveLoad(Entity(c.id), [Text(c.name)] + rest);
  }

  function EncodeKeyword(k: Keyword): seq<Field> {
    [Version(0)] + Entities.Save(Entity(k.id)) + [Text(k.value)]
  }

  function DecodeKeyword(a: seq<Field>): (r: Result<Decoded<Keyword>, DecodeError>)
    ensures |a| > 0 && a[0].Version? && a[0].v > 0 ==> r == Err(UnknownSerializationVersion(a[0].v))
  {
    var body :- ReadClassVersion(a);
    var e :- Entities.Load(body);
    var value :- ReadText(e.rest);
    Ok(Decoded(Keyword(e.value.id, value.value), value.rest))
  }

  lemma KeywordRoundTrip(k: Keyword, rest: seq<Field>)
    ensures DecodeKeyword(EncodeKeyword(k) + rest) == Ok(Decoded(k, rest))
  {
    var a := EncodeKeyword(k) + rest;
    assert a[1..] == Entities.Save(Entity(k.id)) + ([Text(k.value)] + rest);
    Entities.SaveLoad(Entity(k.id), [Text(k.value)] + rest);
  }

  /** The references of an engine set, in ascending id order. */
  function RefsFields(ids: seq<Id>): (a: seq<Field>)
    ensures |a| == 2 * |ids|
  {
    if |ids| == 0 then [] else RefFields(ids[0]) + RefsFields(ids[1..])
  }

  /** Reads `n` engine references, resolving each through the registry. */
  function DecodeRefs(reg: Registry, a: seq<Field>, n: nat): (r: Result<Decoded<seq<Id>>, DecodeError>)
    requires WellFormed(reg)
    ensures r.Ok? ==> |r.value.value| == n && forall id :: id in r.value.value ==> id in reg
    decreases n
  {
    if n == 0 then Ok(Decoded([], a))
    else
      var first :- LoadRef(reg, a);
      var more :- DecodeRefs(reg, first.rest, n - 1);
      var id := RefId(first.value);
      Ok(Decoded([id] + more.value, more.rest))
  }

  lemma {:induction false} RefsRoundTrip(reg: Registry, ids: seq<Id>, rest: seq<Field>)
    requires WellFormed(reg) && forall id :: id in ids ==> id in reg
    ensures DecodeRefs(reg, RefsFields(ids) + rest, |ids|) == Ok(Decoded(ids, rest))
    decreases |ids|
  {
    if |ids| > 0 {
      var tail := RefsFields(ids[1..]) + rest;
      assert RefsFields(ids) + rest == RefFields(ids[0]) + tail;
      RefRoundTrip(reg, ids[0], tail);
      assert LoadRef(reg, RefFields(ids[0]) + tail) == Ok(Decoded(Resolve(reg, ids[0]), tail));
      assert RefId(Resolve(reg, ids[0])) == ids[0];
      RefsRoundTrip(reg, ids[1..], rest);
      assert DecodeRefs(reg, tail, |ids| - 1) == Ok(Decoded(ids[1..], rest));
      assert [ids[0]] + ids[1..] == ids;
    } else {
      assert RefsFields(ids) + rest == rest;
    }
  }

  /** Ids in ascending order: the order in which the store's cursors visit
      uuid keys, and the order this model gives a domain's engine set. */
  function AscendingIds(engines: set<Id>): (ids: seq<Id>)
    ensures |ids| == |engines|
    ensures forall id :: id in ids <==> id in engines
    ensures StrictlySorted(ids)
  {
    var s := Ascending(engines);
    assert forall i :: 0 <= i < |s| ==> s[i] in engines;
    var ids: seq<Id> := s;
    ids
  }

  /** The set of ids a sequence lists. */
  function Members(ids: seq<Id>): (s: set<Id>)
    ensures forall id :: id in s <==> id in ids
  {
    set id | id in ids
  }

  /** The engine set as written: its size, then each reference. */
  function EncodeEngineSet(engines: set<Id>): seq<Field> {
    [Count(|engines|)] + RefsFields(AscendingIds(engines))
  }

  function DecodeEngineSet(reg: Registry, a: seq<Field>): (r: Result<Decoded<set<Id>>, DecodeError>)
    requires WellFormed(reg)
    ensures r.Ok? ==> r.value.value <= reg.Keys
  {
    var count :- ReadCount(a);
    var refs :- DecodeRefs(reg, count.rest, count.value);
    Ok(Decoded(Members(refs.value), refs.rest))
  }

  lemma EngineSetRoundTrip(reg: Registry, engines: set<Id>, rest: seq<Field>)
    requires WellFormed(reg) && engines <= reg.Keys
    ensures DecodeEngineSet(reg, EncodeEngineSet(engines) + rest) == Ok(Decoded(engines, rest))
  {
    var ids := AscendingIds(engines);
    var tail := RefsFields(ids) + rest;
    assert EncodeEngineSet(engines) + rest == [Count(|engines|)] + tail;
    assert ReadCount([Count(|engines|)] + tail) == Ok(Decoded(|engines| as nat, tail));
    RefsRoundTrip(reg, ids, rest);
    assert Members(ids) == engines;
  }

  function DecodeStamps(a: seq<Field>): (r: Result<Decoded<(PTime, PTime)>, DecodeError>) {
    var created :- ReadTime(a);
    var updated :- ReadTime(created.rest);
    Ok(Decoded((created.value, updated.value), updated.rest))
  }

  lemma StampsRoundTrip(created: PTime, updated: PTime, rest: seq<Field>)
    ensures DecodeStamps([Time(created), Time(updated)] + rest) == Ok(Decoded((created, updated), rest))
  {
    var a := [Time(created), Time(updated)] + rest;
    assert a[1..] == [Time(updated)] + rest;
  }

  /** The fields a domain adds after its id and name. */
  function EncodeDomainBody(d: Domain): seq<Field> {
    EncodeEngineSet(d.engines) + [Time(d.createdDate), Time(d.lastUpdateDate)]
  }

  function EncodeDomain(d: Domain): seq<Field> {
    [Version(0)] + Entities.Save(Entity(d.id)) + [Text(d.name)] + EncodeDomainBody(d)
  }

  function DecodeDomainBody(reg: Registry, id: Id, name: string, a: seq<Field>): (r: Result<Decoded<Domain>, DecodeError>)
    requires WellFormed(reg)
    ensures r.Ok? ==> r.value.value.engines <= reg.Keys
  {
    var engines :- DecodeEngineSet(reg, a);
    var stamps :- DecodeStamps(engines.rest);
    Ok(Decoded(Domain(id, name, engines.value, stamps.value.0, stamps.value.1), stamps.rest))
  }

  /** Decoding a domain resolves its engine references through the registry:
      an unregistered engine id fails the whole record. */
  function DecodeDomain(reg: Registry, a: seq<Field>): (r: Result<Decoded<Domain>, DecodeError>)
    requires WellFormed(reg)
    ensures |a| > 0 && a[0].Version? && a[0].v > 0 ==> r == Err(UnknownSerializationVersion(a[0].v))
    ensures r.Ok? ==> r.value.value.engines <= reg.Keys
  {
    var body :- ReadClassVersion(a);
    var e :- Entities.Load(body);
    var name :- ReadText(e.rest);
    DecodeDomainBody(reg, e.value.id, name.value, name.rest)
  }

  lemma DomainBodyRoundTrip(reg: Registry, d: Domain, rest: seq<Field>)
    requires WellFormed(reg) && d.engines <= reg.Keys
    ensures DecodeDomainBody(reg, d.id, d.name, EncodeDomainBody(d) + rest) == Ok(Decoded(d, rest))
  {
    var tail := [Time(d.createdDate), Time(d.lastUpdateDate)] + rest;
    assert EncodeDomainBody(d) + rest == EncodeEngineSet(d.engines) + tail;
    EngineSetRoundTrip(reg, d.engines, tail);
    StampsRoundTrip(d.createdDate, d.lastUpdateDate, rest);
  }

  /** All five fields of a domain survive the archive, in the order id,
      name, engines, created date, last update date. */
  lemma DomainRoundTrip(reg: Registry, d: Domain, rest: seq<Field>)
    requires WellFormed(reg) && d.engines <= reg.Keys
    ensures DecodeDomain(reg, EncodeDomain(d) + rest) == Ok(Decoded(d, rest))
  {
    var tail1 := [Text(d.name)] + (EncodeDomainBody(d) + rest);
    var a := EncodeDomain(d) + rest;
    assert a == [Version(0)] + (Entities.Save(Entity(d.id)) + tail1);
    Entities.SaveLoad(Entity(d.id), tail1);
    DomainBodyRoundTrip(reg, d, rest);
  }

  function EncodeKeywordEngine(k: KeywordEngine): seq<Field> {
    [Version(0), IdField(k.kwdId), IdField(k.engId)]
  }

  function ReadUuid(a: seq<Field>): (r: Result<Decoded<Id>, DecodeError>)
    ensures r.Ok? ==> a == [IdField(r.value.value)] + r.value.rest
  {
    var id :- ReadId(a);
    if id.value < UuidCount then Ok(Decoded(id.value as Id, id.rest)) else Err(ArchiveError)
  }

  function ReadStamp(a: seq<Field>): (r: Result<Decoded<nat>, DecodeError>)
    ensures r.Ok? ==> a == [Time(At(r.value.value))] + r.value.rest
  {
    var t :- ReadTime(a);
    if t.value.At? then Ok(Decoded(t.value.seconds, t.rest)) else Err(ArchiveError)
  }

  /** The plain structs ignore the version the archive hands them. */
  function DecodeKeywordEngine(a: seq<Field>): (r: Result<Decoded<KeywordEngine>, DecodeError>)
    ensures r.Ok? ==> |a| > 0 && a[0].Version?
    ensures r.Ok? ==> a == [a[0]] + EncodeKeywordEngine(r.value.value)[1..] + r.value.rest
  {
    var body :- SkipVersion(a);
    var k :- ReadUuid(body);
    var e :- ReadUuid(k.rest);
    Ok(Decoded(KeywordEngine(k.value, e.value), e.rest))
  }

  function EncodeRankingKey(k: RankingKey): seq<Field> {
    [Version(0), IdField(k.kwdId), IdField(k.engId), Time(At(k.date))]
  }

  function DecodeRankingKey(a: seq<Field>): (r: Result<Decoded<RankingKey>, DecodeError>)
    ensures r.Ok? ==> |a| > 0 && a[0].Version?
    ensures r.Ok? ==> a == [a[0]] + EncodeRankingKey(r.value.value)[1..] + r.value.rest
  {
    var body :- SkipVersion(a);
    var k :- ReadUuid(body);
    var e :- ReadUuid(k.rest);
    var date :- ReadStamp(e.rest);
    Ok(Decoded(RankingKey(k.value, e.value, date.value), date.rest))
  }

  function EncodeRanking(r: Ranking): seq<Field> {
    [Version(0), Time(At(r.date)), Int(r.rank), Text(r.pageUrl)]
  }

  function DecodeRanking(a: seq<Field>): (r: Result<Decoded<Ranking>, DecodeError>)
    ensures r.Ok? ==> |a| > 0 && a[0].Version?
    ensures r.Ok? ==> a == [a[0]] + EncodeRanking(r.value.value)[1..] + r.value.rest
  {
    var body :- SkipVersion(a);
    var date :- ReadStamp(body);
    var rank :- ReadInt(date.rest);
    var url :- ReadText(rank.rest);
    Ok(Decoded(Ranking(date.value, rank.value, url.value), url.rest))
  }

  /** The three plain records decode to what was encoded, and the version
      in front of them does not matter. */
  lemma PlainRoundTrips(ke: KeywordEngine, rk: RankingKey, r: Ranking, v: nat, rest: seq<Field>)
    ensures DecodeKeywordEngine([Version(v)] + EncodeKeywordEngine(ke)[1..] + rest) == Ok(Decoded(ke, rest))
    ensures DecodeRankingKey([Version(v)] + EncodeRankingKey(rk)[1..] + rest) == Ok(Decoded(rk, rest))
    ensures DecodeRanking([Version(v)] + EncodeRanking(r)[1..] + rest) == Ok(Decoded(r, rest))
  {
    var a1 := [Version(v)] + EncodeKeywordEngine(ke)[1..] + rest;
    assert a1[1..] == [IdField(ke.kwdId)] + ([IdField(ke.engId)] + rest);
    var a2 := [Version(v)] + EncodeRankingKey(rk)[1..] + rest;
    assert a2[1..] == [IdField(rk.kwdId)] + ([IdField(rk.engId)] + ([Time(At(rk.date))] + rest));
    var a3 := [Version(v)] + EncodeRanking(r)[1..] + rest;
    assert a3[1..] == [Time(At(r.date))] + ([Int(r.rank)] + ([Text(r.pageUrl)] + rest));
  }
}
