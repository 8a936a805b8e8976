/**
 * A `Namespace`: virtual file systems kept in a sparse slot map, and a
 * table from every path they provide to the index of the file system that
 * provides it.
 *
 * A virtual file system is code the namespace only calls, so it is a
 * record of what those calls answer: whether it is read-only, its listing
 * (or the error listing it gives), and, per path, whether the file exists
 * and the outcome of `create`, `create_new`, `modified`, `open` and
 * `remove`.
 */
module Namespaces {
  import opened Wrappers
  import opened SlotKeys
  import opened Slots
  import opened SparseSlotMap
  import SlotMapDrain
  import opened Errors
  import Names

  /** `assets::ErrorKind`. */
  datatype AssetErrorKind = Io | InvalidIndex | Other

  /** How an `assets::ErrorKind` displays. */
  function ShowAssetKind(kind: AssetErrorKind): string
  {
    match kind
    case Io => "io error"
    case InvalidIndex => "invalid index error"
    case Other => "other assets error"
  }

  type AssetError = Error<AssetErrorKind>

  /** A reader, writer or timestamp handed out by a virtual file system; opaque here. */
  type Handle = nat

  /** `VirtualFileSystem`, as the answers its methods give. */
  datatype Vfs = Vfs(
    readonly: bool,
    listing: Result<seq<Names.Name>, AssetError>,
    present: Names.Name -> bool,
    create: Names.Name -> Result<Handle, AssetError>,
    createNew: Names.Name -> Result<Handle, AssetError>,
    modified: Names.Name -> Result<Handle, AssetError>,
    open: Names.Name -> Result<Handle, AssetError>,
    remove: Names.Name -> Result<(), AssetError>)

  /**
   * The path table after inserting every name of `names`, in order, with
   * the value `index`: listed names map to `index`, the others keep their
   * entry.
   */
  function MapAll(paths: map<Names.Name, Key>, names: seq<Names.Name>, index: Key): (r: map<Names.Name, Key>)
    ensures forall n :: n in r <==> n in paths || n in names
    ensures forall n :: n in names ==> r[n] == index
    ensures forall n :: n in paths && n !in names ==> r[n] == paths[n]
  {
    if names == [] then paths
    else MapAll(paths, names[..|names| - 1], index)[names[|names| - 1] := index]
  }

  /** `paths.retain(|_, i| *i != index)`. */
  function Without(paths: map<Names.Name, Key>, index: Key): (r: map<Names.Name, Key>)
    ensures forall n :: n in r <==> n in paths && paths[n] != index
    ensures forall n :: n in r ==> r[n] == paths[n]
  {
    map n | n in paths && paths[n] != index :: paths[n]
  }

  /**
   * `iter_mut().find(|vfs| !vfs.readonly())`: the first writable file
   * system in `entries`, which lists them in slot order.
   */
  function FirstWritable(entries: seq<(Key, Vfs)>): (r: Option<(Key, Vfs)>)
    ensures r.None? <==> forall i :: 0 <= i < |entries| ==> entries[i].1.readonly
    ensures r.Some? ==> exists i :: 0 <= i < |entries| && entries[i] == r.value && !r.value.1.readonly
                                    && forall j :: 0 <= j < i ==> entries[j].1.readonly
  {
    if entries == [] then None
    else if !entries[0].1.readonly then Some(entries[0])
    else
      var r := FirstWritable(entries[1..]);
      assert forall i :: 1 <= i < |entries| ==> entries[i] == entries[1..][i - 1];
      r
  }

  /** What `FirstWritable` picks from a slot map's entries is live there. */
  lemma FirstWritableLive(w: Width, s: seq<Slot<Vfs>>)
    requires SlotsWf(w, s)
    ensures var r := FirstWritable(Entries(w, s, 0));
            r.Some? ==> Lookup(w, s, r.value.0) == Some(r.value.1)
  {
    var r := FirstWritable(Entries(w, s, 0));
    if r.Some? {
      var i :| 0 <= i < |Entries(w, s, 0)| && Entries(w, s, 0)[i] == r.value;
      EntriesAreLive(w, s, 0, r.value.0, r.value.1);
    }
  }

  class Namespace {
    /** `virtual_file_systems`: a `u32` slot map. */
    const vfss: SlotMap<Vfs>
    /** `paths`: which file system provides each path. */
    var paths: map<Names.Name, Key>

    /** Every recorded path leads to a file system the namespace holds. */
    ghost predicate Valid()
      reads this, vfss
    {
      && vfss.Valid() && vfss.width == U32
      && forall n :: n in paths ==> vfss.ContainsKey(paths[n])
    }

    /** `new`: no file systems and no paths. */
    constructor New()
      ensures Valid() && fresh(vfss)
      ensures paths == map[] && vfss.Contents() == []
    {
      vfss := new SlotMap<Vfs>.WithCapacity(U32, 0);
      paths := map[];
    }

    /** `with_capacity`: the same as `new`; the capacities are not observable. */
    constructor WithCapacity(virtualFileSystems: nat, files: nat)
      ensures Valid() && fresh(vfss)
      ensures paths == map[] && vfss.Contents() == []
    {
      vfss := new SlotMap<Vfs>.WithCapacity(U32, virtualFileSystems);
      paths := map[];
    }

    /** `virtual_file_systems`: how many file systems the namespace holds. */
    function VirtualFileSystems(): (r: nat)
      reads this, vfss
      requires Valid()
      ensures r == |vfss.Contents()|
    {
      vfss.Len()
    }

    /** `files`: how many paths are recorded. */
    function Files(): (r: nat)
      reads this
      ensures r == |paths|
    {
      |paths|
    }

    /** `is_empty`: no file system, or no path. */
    predicate IsEmpty()
      reads this, vfss
      requires Valid()
    {
      VirtualFileSystems() == 0 || Files() == 0
    }

    /** Since every path leads to a held file system, the namespace is empty exactly when it records no path. */
    lemma EmptyIffNoPaths()
      requires Valid()
      ensures IsEmpty() <==> paths == map[]
    {
      if paths != map[] {
        var n :| n in paths;
        var k := paths[n];
        assert vfss.slots[k.index].Occupied(vfss.width);
        assert !vfss.IsEmpty();
      }
    }

    /** The loop of `add_virtual_file_system` and `reload`: record every listed path under `index`. */
    method InsertPaths(names: seq<Names.Name>, index: Key)
      modifies this
      ensures paths == MapAll(old(paths), names, index)
    {
      var i := 0;
      while i < |names|
        invariant 0 <= i <= |names|
        invariant paths == MapAll(old(paths), names[..i], index)
      {
        assert names[..i + 1][..i] == names[..i];
        paths := paths[names[i] := index];
        i := i + 1;
      }
      assert names[..i] == names;
    }

    /**
     * `add_virtual_file_system`. A key is created first. If the listing
     * fails, its error comes back and no file system is added (the created
     * key is left unused). Otherwise every listed path is recorded under the
     * new key, later listings overwriting earlier ones, and the file system is
     * stored there. Creating the key panics when the slot map is full.
     */
    method AddVirtualFileSystem(vfs: Vfs) returns (r: Result<Key, AssetError>)
      requires Valid()
      requires vfss.freeHead < |vfss.slots| || |vfss.slots| < IdxMax(vfss.width)
      modifies this, vfss
      ensures Valid()
      ensures vfs.listing.Err? ==> r == Err(vfs.listing.error) && paths == old(paths)
                                   && forall k: Key :: vfss.Get(k) == old(vfss.Get(k))
      ensures vfs.listing.Ok? ==>
                && r.Ok? && old(vfss.Get(r.value)).None? && vfss.Get(r.value) == Some(vfs)
                && vfss.len == old(vfss.len) + 1
                && paths == MapAll(old(paths), vfs.listing.value, r.value)
                && forall k: Key :: k.index != r.value.index ==> vfss.Get(k) == old(vfss.Get(k))
    {
      var index := vfss.CreateKey();
      match vfs.listing
      case Err(e) =>
        r := Err(e);
      case Ok(names) =>
        ghost var before := paths;
        InsertPaths(names, index);
        var inserted := vfss.InsertWithKey(index, vfs);
        // The key was created just above, so `insert_with_key` cannot refuse it
        // and the source's "could not be inserted" error does not arise.
        assert inserted.Ok?;
        r := Ok(index);
        forall n | n in paths
          ensures vfss.ContainsKey(paths[n])
        {
          if n !in names {
            assert n in before && before[n] == paths[n];
            assert paths[n].index != index.index;
          }
        }
    }

    /**
     * `remove_virtual_file_system`: every path recorded under the index is
     * dropped, and the file system is removed from the slot map and given
     * back if the index was live.
     */
    method RemoveVirtualFileSystem(index: Key) returns (r: Option<Vfs>)
      requires Valid()
      modifies this, vfss
      ensures Valid()
      ensures r == old(vfss.Get(index)) && !vfss.ContainsKey(index)
      ensures paths == Without(old(paths), index)
      ensures forall k: Key :: k != index ==> vfss.Get(k) == old(vfss.Get(k))
    {
      paths := Without(paths, index);
      r := vfss.Remove(index);
      forall n | n in paths
        ensures vfss.ContainsKey(paths[n])
      {
        assert paths[n] != index;
      }
    }

    /** `clear`: no paths and no file systems. */
    method Clear()
      requires Valid()
      modifies this, vfss
      ensures Valid() && IsEmpty()
      ensures paths == map[] && vfss.Contents() == []
      ensures forall k: Key :: vfss.Get(k) == None
    {
      paths := map[];
      SlotMapDrain.Clear(vfss);
    }

    /**
     * `reload`. An index that is not live gives an `InvalidIndex` error and
     * changes nothing. Otherwise the paths recorded under it are dropped
     * first; then a failing listing gives its error (the paths stay
     * dropped), and a successful one is recorded under the index again.
     */
    method Reload(index: Key) returns (r: Result<(), AssetError>)
      requires Valid()
      modifies this
      ensures Valid()
      ensures old(vfss.Get(index)).None? ==> r.Err? && KindOf(r.error) == InvalidIndex && paths == old(paths)
      ensures old(vfss.Get(index)).Some? ==>
                var listing := old(vfss.Get(index)).value.listing;
                && (listing.Err? ==> r == Err(listing.error) && paths == Without(old(paths), index))
                && (listing.Ok? ==> r == Ok(()) && paths == MapAll(Without(old(paths), index), listing.value, index))
    {
      var got := vfss.Get(index);
      if got.None? {
        return Err(Errors.New(InvalidIndex, Message("Could not get virtual file system for index")));
      }
      paths := Without(paths, index);
      match got.value.listing
      case Err(e) =>
        r := Err(e);
      case Ok(names) =>
        InsertPaths(names, index);
        r := Ok(());
    }

    /**
     * The file system `create` and `create_new` write to: with an index,
     * the one stored there unless it is missing or read-only; without, the
     * first writable one in slot order.
     */
    function Target(index: Option<Key>): (r: Option<(Key, Vfs)>)
      reads this, vfss
      requires Valid()
      ensures index.Some? ==>
                && (r.Some? <==> vfss.Get(index.value).Some? && !vfss.Get(index.value).value.readonly)
                && (r.Some? ==> r.value == (index.value, vfss.Get(index.value).value))
      ensures index.None? ==> r == FirstWritable(vfss.Contents())
      ensures r.Some? ==> vfss.Get(r.value.0) == Some(r.value.1) && !r.value.1.readonly
    {
      match index
      case Some(i) =>
        var got := vfss.Get(i);
        if got.Some? && !got.value.readonly then Some((i, got.value)) else None
      case None =>
        FirstWritableLive(vfss.width, vfss.slots);
        FirstWritable(Entries(vfss.width, vfss.slots, 0))
    }

    /**
     * `create`: `None` when there is no file system to write to; otherwise
     * the outcome of that file system's `create`, and the path is recorded
     * under its index whatever the outcome.
     */
    method Create(name: Names.Name, index: Option<Key>) returns (r: Option<Result<Handle, AssetError>>)
      requires Valid()
      modifies this
      ensures Valid()
      ensures r.None? <==> old(Target(index)).None?
      ensures r.None? ==> paths == old(paths)
      ensures r.Some? ==> var (i, vfs) := old(Target(index)).value;
                          r.value == vfs.create(name) && paths == old(paths)[name := i]
    {
      var target := Target(index);
      if target.None? {
        return None;
      }
      var (i, vfs) := target.value;
      r := Some(vfs.create(name));
      paths := paths[name := i];
    }

    /** `create_new`: as `create`, with the file system's `create_new`. */
    method CreateNew(name: Names.Name, index: Option<Key>) returns (r: Option<Result<Handle, AssetError>>)
      requires Valid()
      modifies this
      ensures Valid()
      ensures r.None? <==> old(Target(index)).None?
      ensures r.None? ==> paths == old(paths)
      ensures r.Some? ==> var (i, vfs) := old(Target(index)).value;
                          r.value == vfs.createNew(name) && paths == old(paths)[name := i]
    {
      var target := Target(index);
      if target.None? {
        return None;
      }
      var (i, vfs) := target.value;
      r := Some(vfs.createNew(name));
      paths := paths[name := i];
    }

    /** `get_virtual_file_system`: the file system a recorded path leads to. */
    function Provider(name: Names.Name): (r: Option<Vfs>)
      reads this, vfss
      requires Valid()
      ensures r.Some? <==> name in paths
      ensures r.Some? ==> vfss.Get(paths[name]) == Some(r.value)
    {
      if name in paths then vfss.Get(paths[name]) else None
    }

    /** `exists`: false for a path the namespace has not recorded. */
    predicate Exists(name: Names.Name)
      reads this, vfss
      requires Valid()
      ensures Exists(name) <==> name in paths && Provider(name).value.present(name)
    {
      match Provider(name)
      case None => false
      case Some(vfs) => vfs.present(name)
    }

    /** `modified`: `None` for a path the namespace has not recorded. */
    function Modified(name: Names.Name): (r: Option<Result<Handle, AssetError>>)
      reads this, vfss
      requires Valid()
      ensures r.None? <==> name !in paths
      ensures r.Some? ==> r.value == Provider(name).value.modified(name)
    {
      match Provider(name)
      case None => None
      case Some(vfs) => Some(vfs.modified(name))
    }

    /** `open`: `None` for a path the namespace has not recorded. */
    function Open(name: Names.Name): (r: Option<Result<Handle, AssetError>>)
      reads this, vfss
      requires Valid()
      ensures r.None? <==> name !in paths
      ensures r.Some? ==> r.value == Provider(name).value.open(name)
    {
      match Provider(name)
      case None => None
      case Some(vfs) => Some(vfs.open(name))
    }

    /**
     * `remove`: `None` for an unrecorded path or a read-only file system; a
     * failing removal gives its error and keeps the path; a successful one
     * drops the path.
     */
    method Remove(name: Names.Name) returns (r: Option<Result<(), AssetError>>)
      requires Valid()
      modifies this
      ensures Valid()
      ensures r.None? <==> old(Provider(name)).None? || old(Provider(name)).value.readonly
      ensures r.Some? ==> r.value == old(Provider(name)).value.remove(name)
      ensures r.Some? && r.value.Ok? ==> paths == old(paths) - {name}
      ensures !(r.Some? && r.value.Ok?) ==> paths == old(paths)
    {
      var vfs := Provider(name);
      if vfs.None? || vfs.value.readonly {
        return None;
      }
      match vfs.value.remove(name)
      case Err(e) =>
        r := Some(Err(e));
      case Ok(done) =>
        paths := paths - {name};
        r := Some(Ok(done));
    }
  }
}
