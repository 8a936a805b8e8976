/**
 * The `Catalog`: namespaces kept in a sparse slot map with `u16` indices;
 * a `NamespaceId` is a key of that map. Every file operation on a location
 * is the operation of the namespace the location names, or nothing when
 * that namespace is not in the catalog.
 */
module Catalogs {
  import opened Wrappers
  import opened SlotKeys
  import opened Slots
  import opened SlotEntries
  import opened SparseSlotMap
  import opened Namespaces
  import opened ResourceIds

  class Catalog {
    /** `namespaces`: a `u16` slot map. */
    const namespaces: SlotMap<Namespace>

    /** The namespaces stored in the slot map, with the slot maps of their file systems. */
    ghost function Members(): set<object>
      reads this, namespaces
    {
      (set i | 0 <= i < |namespaces.slots| && namespaces.slots[i].entry.Value? :: namespaces.slots[i].entry.value as object)
      + (set i | 0 <= i < |namespaces.slots| && namespaces.slots[i].entry.Value? :: namespaces.slots[i].entry.value.vfss as object)
    }

    /** A namespace a live id reaches is among the members. */
    lemma Member(id: Key)
      requires namespaces.Valid() && namespaces.Get(id).Some?
      ensures namespaces.Get(id).value in Members() && namespaces.Get(id).value.vfss in Members()
    {
      assert namespaces.slots[id.index].entry == Value(namespaces.Get(id).value);
    }

    /** Every namespace the catalog holds is itself valid. */
    ghost predicate Valid()
      reads this, namespaces, Members()
    {
      && namespaces.Valid() && namespaces.width == U16
      && forall id: Key :: namespaces.Get(id).Some? ==> (Member(id); namespaces.Get(id).value.Valid())
    }

    /** `new`: no namespaces. */
    constructor New()
      ensures Valid() && fresh(namespaces)
      ensures namespaces.Contents() == []
    {
      namespaces := new SlotMap<Namespace>.WithCapacity(U16, 0);
    }

    /** `with_capacity`: the same as `new`; the capacity is not observable. */
    constructor WithCapacity(capacity: nat)
      ensures Valid() && fresh(namespaces)
      ensures namespaces.Contents() == []
    {
      namespaces := new SlotMap<Namespace>.WithCapacity(U16, capacity);
    }

    /** `len`: how many namespaces the catalog holds. */
    function Len(): (r: nat)
      reads this, namespaces
      requires namespaces.Valid()
      ensures r == |namespaces.Contents()|
    {
      namespaces.Len()
    }

    /** `is_empty`: `len() == 0`, so no id reaches a namespace. */
    predicate IsEmpty()
      reads this, namespaces
      requires namespaces.Valid()
      ensures IsEmpty() <==> Len() == 0
      ensures IsEmpty() ==> forall id: Key :: GetNamespace(id).None?
    {
      namespaces.IsEmpty()
    }

    /** `get_namespace` (and `get_namespace_mut`): the namespace a live id reaches. */
    function GetNamespace(id: Key): (r: Option<Namespace>)
      reads this, namespaces
      requires namespaces.Valid()
      ensures r.Some? <==> ContainsNamespace(id)
    {
      namespaces.Get(id)
    }

    /** `contains_namespace`. */
    predicate ContainsNamespace(id: Key)
      reads this, namespaces
      requires namespaces.Valid()
    {
      namespaces.ContainsKey(id)
    }

    /** `Index`: the namespace of a live id; any other id panics with "Invalid namespace id". */
    function At(id: Key): (r: Namespace)
      reads this, namespaces
      requires namespaces.Valid() && ContainsNamespace(id)
      ensures GetNamespace(id) == Some(r)
    {
      namespaces.At(id)
    }

    /**
     * `add_namespace`: the namespace is inserted; its id was not live
     * before, reaches it now, and the catalog holds one more namespace.
     */
    method AddNamespace(namespace: Namespace) returns (id: Key)
      requires Valid() && namespace.Valid()
      requires namespaces.freeHead < |namespaces.slots| || |namespaces.slots| < IdxMax(namespaces.width)
      modifies namespaces
      ensures Valid()
      ensures old(GetNamespace(id)).None? && GetNamespace(id) == Some(namespace)
      ensures namespaces.len == old(namespaces.len) + 1
      ensures forall other: Key :: other != id ==> GetNamespace(other) == old(GetNamespace(other))
    {
      id := namespaces.Insert(namespace);
      forall k: Key | namespaces.Get(k).Some?
        ensures namespaces.Get(k).value.Valid()
      {
        if k.index != id.index {
          assert namespaces.Get(k) == old(namespaces.Get(k));
        }
      }
    }

    /**
     * `remove_namespace`: the namespace of a live id comes back, and the id
     * is no longer live; any other id gives `None`.
     */
    method RemoveNamespace(id: Key) returns (r: Option<Namespace>)
      requires Valid()
      modifies namespaces
      ensures Valid()
      ensures r == old(GetNamespace(id)) && !ContainsNamespace(id)
      ensures forall other: Key :: other != id ==> GetNamespace(other) == old(GetNamespace(other))
    {
      r := namespaces.Remove(id);
      forall k: Key | namespaces.Get(k).Some?
        ensures namespaces.Get(k).value.Valid()
      {
        assert namespaces.Get(k) == old(namespaces.Get(k));
      }
    }

    /** What a file operation on `location` may change: the namespace it names, if any. */
    ghost function Reached(location: Location): set<object>
      reads this, namespaces
      requires namespaces.Valid()
    {
      match GetNamespace(location.namespaceId)
      case None => {}
      case Some(namespace) => {namespace}
    }

    /**
     * `create`: `None` for a namespace id that is not live, which changes
     * nothing; otherwise the namespace's own `create` of the name.
     */
    method Create(location: Location, index: Option<Key>) returns (r: Option<Result<Handle, AssetError>>)
      requires Valid()
      modifies Reached(location)
      ensures Valid()
      ensures old(GetNamespace(location.namespaceId)).None? ==> r.None?
      ensures old(GetNamespace(location.namespaceId)).Some? ==>
                var namespace := old(GetNamespace(location.namespaceId)).value;
                && (r.None? <==> old(namespace.Target(index)).None?)
                && (r.None? ==> namespace.paths == old(namespace.paths))
                && (r.Some? ==> r.value == old(namespace.Target(index)).value.1.create(location.name)
                                && namespace.paths == old(namespace.paths)[location.name := old(namespace.Target(index)).value.0])
    {
      var namespace := GetNamespace(location.namespaceId);
      if namespace.None? {
        return None;
      }
      Member(location.namespaceId);
      r := namespace.value.Create(location.name, index);
    }

    /** `create_new`: as `create`, with the namespace's `create_new`. */
    method CreateNew(location: Location, index: Option<Key>) returns (r: Option<Result<Handle, AssetError>>)
      requires Valid()
      modifies Reached(location)
      ensures Valid()
      ensures old(GetNamespace(location.namespaceId)).None? ==> r.None?
      ensures old(GetNamespace(location.namespaceId)).Some? ==>
                var namespace := old(GetNamespace(location.namespaceId)).value;
                && (r.None? <==> old(namespace.Target(index)).None?)
                && (r.None? ==> namespace.paths == old(namespace.paths))
                && (r.Some? ==> r.value == old(namespace.Target(index)).value.1.createNew(location.name)
                                && namespace.paths == old(namespace.paths)[location.name := old(namespace.Target(index)).value.0])
    {
      var namespace := GetNamespace(location.namespaceId);
      if namespace.None? {
        return None;
      }
      Member(location.namespaceId);
      r := namespace.value.CreateNew(location.name, index);
    }

    /** `exists`: false for a namespace id that is not live, otherwise the namespace's `exists`. */
    predicate Exists(location: Location)
      reads this, namespaces, Members()
      requires Valid()
      ensures Exists(location) <==> ContainsNamespace(location.namespaceId) && At(location.namespaceId).Exists(location.name)
    {
      match GetNamespace(location.namespaceId)
      case None => false
      case Some(namespace) =>
        Member(location.namespaceId);
        namespace.Exists(location.name)
    }

    /** `modified`: `None` for a namespace id that is not live, otherwise the namespace's `modified`. */
    function Modified(location: Location): (r: Option<Result<Handle, AssetError>>)
      reads this, namespaces, Members()
      requires Valid()
      ensures !ContainsNamespace(location.namespaceId) ==> r.None?
      ensures ContainsNamespace(location.namespaceId) ==> r == At(location.namespaceId).Modified(location.name)
    {
      match GetNamespace(location.namespaceId)
      case None => None
      case Some(namespace) =>
        Member(location.namespaceId);
        namespace.Modified(location.name)
    }

    /** `open`: `None` for a namespace id that is not live, otherwise the namespace's `open`. */
    function Open(location: Location): (r: Option<Result<Handle, AssetError>>)
      reads this, namespaces, Members()
      requires Valid()
      ensures !ContainsNamespace(location.namespaceId) ==> r.None?
      ensures ContainsNamespace(location.namespaceId) ==> r == At(location.namespaceId).Open(location.name)
    {
      match GetNamespace(location.namespaceId)
      case None => None
      case Some(namespace) =>
        Member(location.namespaceId);
        namespace.Open(location.name)
    }

    /**
     * `remove`: `None` for a namespace id that is not live, otherwise the
     * namespace's `remove`, which drops the name's path only on success.
     */
    method Remove(location: Location) returns (r: Option<Result<(), AssetError>>)
      requires Valid()
      modifies Reached(location)
      ensures Valid()
      ensures old(GetNamespace(location.namespaceId)).None? ==> r.None?
      ensures old(GetNamespace(location.namespaceId)).Some? ==>
                var namespace := old(GetNamespace(location.namespaceId)).value;
                && (r.None? <==> old(namespace.Provider(location.name)).None? || old(namespace.Provider(location.name)).value.readonly)
                && (r.Some? ==> r.value == old(namespace.Provider(location.name)).value.remove(location.name))
                && (r.Some? && r.value.Ok? ==> namespace.paths == old(namespace.paths) - {location.name})
                && (!(r.Some? && r.value.Ok?) ==> namespace.paths == old(namespace.paths))
    {
      var namespace := GetNamespace(location.namespaceId);
      if namespace.None? {
        return None;
      }
      Member(location.namespaceId);
      r := namespace.value.Remove(location.name);
    }
  }
}
