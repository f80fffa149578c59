/**
  Persistent identity. Every stored object carries a 128-bit uuid fixed when
  it is made; the id is the only thing equality and hashing look at, and the
  only thing the base class writes to an archive.
 */
module Entities {
  import opened Wrappers
  import opened Archive

  /** Number of distinct uuids. */
  const UuidCount: nat := 0x1_0000_0000_0000_0000_0000_0000_0000_0000

  /** A uuid, read as the big-endian number of its 16 bytes. */
  type Id = x: nat | x < UuidCount

  /** The nil uuid (all bytes zero). */
  const NilId: Id := 0

  datatype Entity = Entity(id: Id)

  /** `Entity()`: the default constructor draws a random uuid, supplied here
      by the caller. */
  function NewEntity(uuid: Id): (e: Entity)
    ensures e.id == uuid
  {
    Entity(uuid)
  }

  /** `operator==` on entities: two objects are the same entity exactly when
      their ids agree, whatever else they hold. */
  predicate Same(a: Entity, b: Entity) {
    a.id == b.id
  }

  /** The standard hash of an entity is the uuid hash of its id; `hasher`
      stands for the uuid hash. */
  function HashOf(hasher: Id -> bv64, e: Entity): bv64 {
    hasher(e.id)
  }

  /** The hash agrees with equality, whatever the uuid hash is. */
  lemma HashConsistent(hasher: Id -> bv64, a: Entity, b: Entity)
    requires Same(a, b)
    ensures HashOf(hasher, a) == HashOf(hasher, b)
  {
  }

  /** `Entity::serialize` on save: the version header, then only the id. */
  function Save(e: Entity): (a: seq<Field>)
    ensures |a| == 2 && a[0] == Version(0)
  {
    [Version(0), IdField(e.id)]
  }

  /** `Entity::serialize` on load: a version above 0 is rejected before the
      id is read; an id outside the uuid range is not a uuid. */
  function Load(a: seq<Field>): (r: Result<Decoded<Entity>, DecodeError>)
    ensures |a| > 0 && a[0].Version? && a[0].v > 0 ==>
              r == Err(UnknownSerializationVersion(a[0].v))
    ensures r.Ok? ==> |a| >= 2 && a[0] == Version(0) && a[1] == IdField(r.value.value.id)
                      && r.value.rest == a[2..]
  {
    var body :- ReadClassVersion(a);
    var id :- ReadId(body);
    if id.value < UuidCount then Ok(Decoded(Entity(id.value), id.rest))
    else Err(ArchiveError)
  }

  /** Loading what was saved gives back the same entity and leaves the
      following fields unread. */
  lemma SaveLoad(e: Entity, rest: seq<Field>)
    ensures Load(Save(e) + rest) == Ok(Decoded(e, rest))
  {
    var a := Save(e) + rest;
    assert a[0] == Version(0) && a[1] == IdField(e.id);
    assert a[1..][1..] == rest;
  }
}
