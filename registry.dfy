/**
 * The resource `Loader`: a table of declared resources, each with an
 * optional loader of its own, two default loaders, and the catalog assets
 * are read from.
 *
 * Loaders are functions from the load parameters (and, for an asset, the
 * reader the catalog opened) to the resource or an error payload. The
 * catalog is shared behind an `Arc` and only read here.
 */
module Registry {
  import opened Wrappers
  import opened SlotKeys
  import opened Errors
  import opened ErrorExt
  import opened Namespaces
  import opened Catalogs
  import opened ResourceIds
  import Names

  /** The resource crate's `ErrorKind`. */
  datatype LoadKind = Loading

  type LoadError = Error<LoadKind>

  /** A resource loader as stored: the user's loader with its error already wrapped. */
  datatype Closures<R, !P> =
    | Resource(load: P -> Result<R, LoadError>)
    | Asset(loadFrom: (P, Handle) -> Result<R, LoadError>)

  /** `Closures::new_resource`: a failure becomes "could not load asset" with the loader's error as source. */
  function NewResource<R, P(!new)>(loader: P -> Result<R, Payload>): (c: Closures<R, P>)
    ensures c.Resource? && forall p :: c.load(p) == Chain(loader(p), Loading, Message("could not load asset"))
  {
    Resource(p => Chain(loader(p), Loading, Message("could not load asset")))
  }

  /** `Closures::new_asset`: as `new_resource`, for a loader that reads the asset. */
  function NewAsset<R, P(!new)>(loader: (P, Handle) -> Result<R, Payload>): (c: Closures<R, P>)
    ensures c.Asset? && forall p, h :: c.loadFrom(p, h) == Chain(loader(p, h), Loading, Message("could not load asset"))
  {
    Asset((p: P, h: Handle) => Chain(loader(p, h), Loading, Message("could not load asset")))
  }

  /** The loader fits the id: an asset loader exactly for an id with a location. */
  predicate Fits<R, P>(id: ResourceId, loader: Closures<R, P>)
  {
    loader.Asset? <==> LocationOf(id).Some?
  }

  class Loader<R, P(!new)> {
    var catalog: Option<Catalog>
    const defaultResourceLoader: P -> Result<R, LoadError>
    const defaultAssetLoader: (P, Handle) -> Result<R, LoadError>
    var declarations: map<ResourceId, Option<Closures<R, P>>>

    /**
     * Every loader declared for an id fits it: the `declare_*` methods
     * store resource loaders for names and asset loaders for locations.
     */
    ghost predicate Valid()
      reads this
    {
      forall id :: id in declarations && declarations[id].Some? ==> Fits(id, declarations[id].value)
    }

    /**
     * `new`: no catalog, no declarations, and the given loaders, their
     * errors wrapped as `Loading`, as the defaults.
     */
    constructor New(resourceLoader: P -> Result<R, Payload>, assetLoader: (P, Handle) -> Result<R, Payload>)
      ensures Valid()
      ensures catalog.None? && declarations == map[]
      ensures forall p :: defaultResourceLoader(p) == Context(resourceLoader(p), Loading)
      ensures forall p, h :: defaultAssetLoader(p, h) == Context(assetLoader(p, h), Loading)
    {
      catalog := None;
      defaultResourceLoader := p => Context(resourceLoader(p), Loading);
      defaultAssetLoader := (p: P, h: Handle) => Context(assetLoader(p, h), Loading);
      declarations := map[];
    }

    /** `set_catalog`: the new catalog replaces the old one, which comes back. */
    method SetCatalog(c: Catalog) returns (previous: Option<Catalog>)
      modifies this
      ensures previous == old(catalog) && catalog == Some(c)
      ensures declarations == old(declarations)
    {
      previous := catalog;
      catalog := Some(c);
    }

    /** `declare_resource`: the name is declared with no loader of its own. */
    method DeclareResource(name: Names.Name) returns (id: ResourceId)
      requires Valid()
      modifies this
      ensures Valid()
      ensures id == FromName(name) && declarations == old(declarations)[id := None]
      ensures catalog == old(catalog)
    {
      id := FromName(name);
      declarations := declarations[id := None];
    }

    /** `declare_resource_with_loader`: the name is declared with its own loader. */
    method DeclareResourceWithLoader(name: Names.Name, loader: P -> Result<R, Payload>) returns (id: ResourceId)
      requires Valid()
      modifies this
      ensures Valid()
      ensures id == FromName(name) && declarations == old(declarations)[id := Some(NewResource(loader))]
      ensures catalog == old(catalog)
    {
      id := FromName(name);
      declarations := declarations[id := Some(NewResource(loader))];
    }

    /** `declare_asset`: the location is declared with no loader of its own. */
    method DeclareAsset(location: Location) returns (id: ResourceId)
      requires Valid()
      modifies this
      ensures Valid()
      ensures id == FromLocation(location) && declarations == old(declarations)[id := None]
      ensures catalog == old(catalog)
    {
      id := FromLocation(location);
      declarations := declarations[id := None];
    }

    /** `declare_asset_with_loader`: the location is declared with its own loader. */
    method DeclareAssetWithLoader(location: Location, loader: (P, Handle) -> Result<R, Payload>) returns (id: ResourceId)
      requires Valid()
      modifies this
      ensures Valid()
      ensures id == FromLocation(location) && declarations == old(declarations)[id := Some(NewAsset(loader))]
      ensures catalog == old(catalog)
    {
      id := FromLocation(location);
      declarations := declarations[id := Some(NewAsset(loader))];
    }

    /** `clear`: every declaration is removed. */
    method Clear()
      modifies this
      ensures Valid()
      ensures declarations == map[] && catalog == old(catalog)
    {
      declarations := map[];
    }

    /**
     * The loader `load` uses for a declared id: its own, else the default
     * asset loader when the id has a location, else the default resource
     * loader. It always fits the id.
     */
    function LoaderFor(id: ResourceId): (r: Closures<R, P>)
      reads this
      requires Valid() && id in declarations
      ensures Fits(id, r)
      ensures declarations[id].Some? ==> r == declarations[id].value
    {
      match declarations[id]
      case Some(loader) => loader
      case None =>
        if LocationOf(id).Some? then Asset(defaultAssetLoader) else Resource(defaultResourceLoader)
    }

    /**
     * `loader_catalog`: an undeclared id fails with "asset was not
     * declared" before a missing catalog is noticed; then a missing catalog
     * fails with "no catalog set".
     */
    function LoaderCatalog(id: ResourceId): (r: Result<(Closures<R, P>, Catalog), LoadError>)
      reads this
      requires Valid()
      ensures id !in declarations ==> r == Err(Errors.New(Loading, Message("asset was not declared")))
      ensures id in declarations && catalog.None? ==> r == Err(Errors.New(Loading, Message("no catalog set")))
      ensures id in declarations && catalog.Some? ==> r == Ok((LoaderFor(id), catalog.value))
    {
      if id !in declarations then
        Err(Errors.New(Loading, Message("asset was not declared")))
      else
        match OkOrError(catalog, Loading, Message("no catalog set"))
        case Err(e) => Err(e)
        case Ok(c) => Ok((LoaderFor(id), c))
    }

    /**
     * `load`: what `loader_catalog` chose, applied. A resource loader runs
     * on the parameters. An asset loader runs on what the catalog opens at
     * the id's location, which is always there because an asset loader
     * fits only an id with a location; a location the catalog does not
     * know fails with "location could not be found in catalog", and a
     * failing open fails with its error as payload.
     */
    method Load(id: ResourceId, parameters: P) returns (r: Result<R, LoadError>)
      requires Valid()
      requires catalog.Some? ==> catalog.value.Valid()
      ensures LoaderCatalog(id).Err? ==> r == Err(LoaderCatalog(id).error)
      ensures LoaderCatalog(id).Ok? && LoaderFor(id).Resource? ==> r == LoaderFor(id).load(parameters)
      ensures LoaderCatalog(id).Ok? && LoaderFor(id).Asset? ==>
                var got := catalog.value.Open(LocationOf(id).value);
                && (got.None? ==> r == Err(Errors.New(Loading, Message("location could not be found in catalog"))))
                && (got.Some? && got.value.Err? ==>
                      r == Err(Errors.New(Loading, Boxed(got.value.error, ShowAssetKind))))
                && (got.Some? && got.value.Ok? ==> r == LoaderFor(id).loadFrom(parameters, got.value.value))
    {
      var chosen := LoaderCatalog(id);
      if chosen.Err? {
        return Err(chosen.error);
      }
      var (loader, c) := chosen.value;
      match loader
      case Resource(load) =>
        r := load(parameters);
      case Asset(loadFrom) =>
        var location := LocationOf(id).value;
        var got := OkOrError(c.Open(location), Loading, Message("location could not be found in catalog"));
        if got.Err? {
          return Err(got.error);
        }
        var read := Context(MapError(got.value, ShowAssetKind), Loading);
        if read.Err? {
          return Err(read.error);
        }
        r := loadFrom(parameters, read.value);
    }
  }

  /** A foreign `Result` whose error is converted into a boxed payload (the `Into` the `?` operator applies). */
  function MapError<T>(res: Result<T, AssetError>, showKind: AssetErrorKind -> string): (r: Result<T, Payload>)
    ensures r.Ok? <==> res.Ok?
    ensures r.Ok? ==> r.value == res.value
    ensures r.Err? ==> r.error == Boxed(res.error, showKind)
  {
    match res
    case Ok(v) => Ok(v)
    case Err(e) => Err(Boxed(e, showKind))
  }
}
