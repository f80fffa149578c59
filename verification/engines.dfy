/**
  Search engines: the fixed registry keyed by engine id, the serializable
  reference a domain keeps to an engine, and the exceptions a rank query
  can raise.
 */
module Engines {
  import opened Wrappers
  import opened Archive
  import opened Entities

  /** A rank is a C++ `int`; the query yields 1..100 or the sentinel -1. */
  type Rank = int

  const NotRanked: Rank := -1

  datatype SearchEngine = SearchEngine(id: Id, name: string, description: string, url: string)

  const GoogleComId: Id := 0x134d93aa_39c7_40c8_9834_c882b09ae93a
  const GoogleUkId: Id := 0x6d984c2d_0f13_4da0_ae7c_e7f6f5f47e74

  const GoogleCom: SearchEngine :=
    SearchEngine(GoogleComId, "google.com", "Google", "https://www.google.com")
  const GoogleUk: SearchEngine :=
    SearchEngine(GoogleUkId, "google.uk", "Google/UK", "https://www.google.co.uk")

  /** The global map from engine id to engine. */
  type Registry = map<Id, SearchEngine>

  /** Every entry is filed under its own engine's id. */
  predicate WellFormed(reg: Registry) {
    forall id :: id in reg ==> reg[id].id == id
  }

  /** `unordered_map::insert`: an id already present keeps its engine. */
  function InsertIfAbsent(reg: Registry, e: SearchEngine): (r: Registry)
    ensures r.Keys == reg.Keys + {e.id}
    ensures e.id in reg ==> r == reg
    ensures e.id !in reg ==> r[e.id] == e
    ensures forall id :: id in reg ==> r[id] == reg[id]
  {
    if e.id in reg then reg else reg[e.id := e]
  }

  /** `init_search_engines`: registers the two Google engines. */
  function InitSearchEngines(reg: Registry): (r: Registry)
    requires WellFormed(reg)
    ensures WellFormed(r)
    ensures r.Keys == reg.Keys + {GoogleComId, GoogleUkId}
    ensures forall id :: id in reg ==> r[id] == reg[id]
    ensures reg == map[] ==> r[GoogleComId] == GoogleCom && r[GoogleUkId] == GoogleUk
  {
    InsertIfAbsent(InsertIfAbsent(reg, GoogleCom), GoogleUk)
  }

  /** The registry as the application sets it up at start. */
  function SearchEngines(): (r: Registry)
    ensures WellFormed(r)
    ensures r.Keys == {GoogleComId, GoogleUkId}
  {
    InitSearchEngines(map[])
  }

  /** Initialising twice registers nothing new and replaces nothing. */
  lemma InitIdempotent(reg: Registry)
    requires WellFormed(reg)
    ensures InitSearchEngines(InitSearchEngines(reg)) == InitSearchEngines(reg)
  {
  }

  /** A possibly-null pointer to a registered engine. */
  datatype SearchEngineRef = SearchEngineRef(engine: Option<SearchEngine>)

  /** The accessors assert a non-null engine and return its fields unchanged. */
  function RefId(r: SearchEngineRef): (id: Id)
    requires r.engine.Some?
    ensures id == r.engine.value.id
  {
    r.engine.value.id
  }

  function RefName(r: SearchEngineRef): (name: string)
    requires r.engine.Some?
    ensures name == r.engine.value.name
  {
    r.engine.value.name
  }

  function RefDescription(r: SearchEngineRef): (d: string)
    requires r.engine.Some?
    ensures d == r.engine.value.description
  {
    r.engine.value.description
  }

  function RefUrl(r: SearchEngineRef): (u: string)
    requires r.engine.Some?
    ensures u == r.engine.value.url
  {
    r.engine.value.url
  }

  /** The reference the registry holds for `id`. */
  function Resolve(reg: Registry, id: Id): (r: SearchEngineRef)
    requires id in reg
    ensures r.engine == Some(reg[id])
  {
    SearchEngineRef(Some(reg[id]))
  }

  /** The archived form of a reference: the version header, then the id. */
  function RefFields(id: Id): seq<Field> {
    [Version(0), IdField(id)]
  }

  /** `SearchEngineRef::save`: rejects a class version above 0, otherwise
      writes only the referenced engine's id. */
  function SaveRef(r: SearchEngineRef, version: nat): (a: Result<seq<Field>, DecodeError>)
    requires r.engine.Some?
    ensures version > 0 ==> a == Err(UnknownSerializationVersion(version))
    ensures version == 0 ==> a.Ok? && IdField(r.engine.value.id) in a.value
    ensures version == 0 ==> forall f :: f in a.value ==> f.Version? || f.IdField?
  {
    if version > 0 then Err(UnknownSerializationVersion(version))
    else Ok(RefFields(r.engine.value.id))
  }

  /** `SearchEngineRef::load`: reads an id and resolves it through the
      registry; `at` fails for an id that is not registered. */
  function LoadRef(reg: Registry, a: seq<Field>): (r: Result<Decoded<SearchEngineRef>, DecodeError>)
    ensures |a| > 0 && a[0].Version? && a[0].v > 0 ==>
              r == Err(UnknownSerializationVersion(a[0].v))
    ensures r.Ok? ==> && |a| >= 2 && a[1].IdField? && a[1].id < UuidCount
                      && a[1].id as Id in reg
                      && r.value.value == Resolve(reg, a[1].id as Id)
                      && r.value.rest == a[2..]
  {
    var body :- ReadClassVersion(a);
    var id :- ReadId(body);
    if id.value < UuidCount && id.value in reg then
      Ok(Decoded(Resolve(reg, id.value), id.rest))
    else if id.value < UuidCount then Err(UnknownEngine(id.value))
    else Err(ArchiveError)
  }

  /** Saving a registered engine's reference and loading it back yields the
      registry's reference for the same id. */
  lemma RefRoundTrip(reg: Registry, id: Id, rest: seq<Field>)
    requires WellFormed(reg) && id in reg
    ensures SaveRef(Resolve(reg, id), 0).Ok?
    ensures LoadRef(reg, SaveRef(Resolve(reg, id), 0).value + rest) == Ok(Decoded(Resolve(reg, id), rest))
  {
    var a := RefFields(id) + rest;
    assert a[0] == Version(0) && a[1..][0] == IdField(id);
    assert a[1..][1..] == rest;
  }

  /** An id the registry does not know fails to load, naming that id. */
  lemma UnknownIdFails(reg: Registry, id: Id, rest: seq<Field>)
    requires id !in reg
    ensures LoadRef(reg, RefFields(id) + rest) == Err(UnknownEngine(id))
  {
    var a := RefFields(id) + rest;
    assert a[0] == Version(0) && a[1..][0] == IdField(id);
  }

  /** Every exception of a rank query is a `search_exception`; the helper
      predicates give the intermediate classes. */
  datatype SearchError =
    | HttpInit
    | HttpRequestFailed(code: int)
    | ParseInit
    | ParseEnd
    | DomError
    | NextLinkNotFound
  {
    predicate IsHttpException() { HttpInit? || HttpRequestFailed? }
    predicate IsParseException() { ParseInit? || ParseEnd? }
  }
}
