/**
 * Where an asset lives, and how a resource is identified: by a name alone,
 * or by a name inside a namespace of the catalog.
 *
 * A `NamespaceId` is the key of the catalog's slot map, so it is a slot
 * map `Key` here; a path is a `Name`.
 */
module ResourceIds {
  import opened Wrappers
  import opened SlotKeys
  import Names

  /** `Location`: a namespace of the catalog and a name inside it. */
  datatype Location = Location(namespaceId: Key, name: Names.Name)

  /**
   * `ResourceId`: equality and hashing are on the pair of the optional
   * namespace and the name, which is datatype equality here.
   */
  datatype ResourceId = ResourceId(namespaceId: Option<Key>, name: Names.Name)

  /** `from_name`: a resource that is not an asset. */
  function FromName(name: Names.Name): (r: ResourceId)
    ensures LocationOf(r).None? && NameOf(r) == name
  {
    ResourceId(None, name)
  }

  /** `from_location`: an asset; its location can be recovered. */
  function FromLocation(location: Location): (r: ResourceId)
    ensures LocationOf(r) == Some(location) && NameOf(r) == location.name
  {
    ResourceId(Some(location.namespaceId), location.name)
  }

  /** `location`: the namespace paired with the name, when there is one. */
  function LocationOf(id: ResourceId): (r: Option<Location>)
    ensures r.Some? <==> id.namespaceId.Some?
  {
    match id.namespaceId
    case None => None
    case Some(namespaceId) => Some(Location(namespaceId, id.name))
  }

  /** `name`. */
  function NameOf(id: ResourceId): Names.Name
  {
    id.name
  }

  /** A resource id is made by exactly one of the two constructors, and made back from its parts. */
  lemma FromPartsInverse(id: ResourceId)
    ensures LocationOf(id).None? ==> id == FromName(NameOf(id))
    ensures LocationOf(id).Some? ==> id == FromLocation(LocationOf(id).value)
  {
  }

  /** Different names or locations give different resource ids, and names never coincide with assets. */
  lemma FromInjective(n1: Names.Name, n2: Names.Name, l1: Location, l2: Location)
    ensures FromName(n1) == FromName(n2) <==> n1 == n2
    ensures FromLocation(l1) == FromLocation(l2) <==> l1 == l2
    ensures FromName(n1) != FromLocation(l1)
  {
  }
}
