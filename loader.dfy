/**
 * TmxLoader.readMap and readTileset: the loader object keeps the map under
 * construction in its `tiledMap` field and, while the map loads, the tilesets by
 * first global id in its `tilesetPerFirstGid` field. readMap checks the root,
 * fixes the dimensions, applies the map attributes and properties, loads
 * every tileset and then every layer, and drops the registry.
 */
module Loader {
  import opened Results
  import opened JavaText
  import opened Dom
  import opened Folds
  import opened FloorMap
  import opened Tiled
  import opened GidResolver
  import opened PropertyReader
  import opened TilePayload
  import opened LayerReader
  import opened TilesetReader
  import opened ObjectReader

  /**
   * What the loader reaches outside the document: the asset key's folder,
   * loading an external tileset through the asset manager (null when it
   * fails), loading an image's texture, and Base64 decoding with inflation.
   */
  datatype Env = Env(
    folder: string,
    externalTileset: string -> Option<Tileset>,
    loads: ImageLoader,
    decode: Decoder)

  // ---------------------------------------------------------------------------
  // readTileset

  /**
   * The first id and the tileset a `tileset` element describes (null when an
   * external one fails to load). An inline tileset's tile size defaults to
   * the current map's.
   */
  function TilesetOf(t: Node, current: Option<TiledMap>, env: Env): Result<(int, Option<Tileset>)>
  {
    var firstGid :- IntAttribute(t, "firstgid", 1);
    match AttributeValue(t, "source")
    case Some(source) => Ok((firstGid, env.externalTileset(env.folder + source)))
    case None =>
      var mapTileWidth := if current.Some? then current.value.tileWidth else 0;
      var mapTileHeight := if current.Some? then current.value.tileHeight else 0;
      var tileset :- InlineTilesetOf(t, mapTileWidth, mapTileHeight, env.loads);
      Ok((firstGid, Some(tileset)))
  }

  /** Whether a `tileset` element yields a tileset, given that its attributes parse. */
  predicate Provides(t: Node, env: Env)
  {
    match AttributeValue(t, "source")
    case Some(source) => env.externalTileset(env.folder + source).Some?
    case None => true
  }

  // ---------------------------------------------------------------------------
  // The phases of readMap

  /** Both root attributes, or the exception parsing one of them throws. */
  function MapSizeOf(root: Node): Result<(int, int)>
  {
    var width :- IntAttribute(root, "width", 0);
    var height :- IntAttribute(root, "height", 0);
    Ok((width, height))
  }

  /** One `dimensions` element of the document: only one whose parent is the root counts. */
  function DimensionStep(current: Option<TiledMap>, d: Located): Result<Option<TiledMap>>
  {
    if d.depth != 1 then Ok(current)
    else
      var width :- IntAttribute(d.node, "width", 0);
      var height :- IntAttribute(d.node, "height", 0);
      Ok(if width > 0 && height > 0 then Some(NewMap(width, height)) else current)
  }

  function DimensionStepFn(): (Option<TiledMap>, Located) -> Result<Option<TiledMap>>
  {
    (current, d) => DimensionStep(current, d)
  }

  /** The map field once the size is settled, starting from whatever it held before. */
  function DimensionsOf(root: Node, current: Option<TiledMap>, width: int, height: int): Walked<Option<TiledMap>>
  {
    if width > 0 && height > 0 then Walked(Some(NewMap(width, height)), None)
    else Walk(ElementsByTagName(root, "dimensions", 0), current, DimensionStepFn())
  }

  /** The root's other attributes, each applied only when present (sizes: only when positive). */
  function MapAttributesOf(root: Node, m: TiledMap): Result<TiledMap>
  {
    var tileWidth :- IntAttribute(root, "tilewidth", 0);
    var tileHeight :- IntAttribute(root, "tileheight", 0);
    var hexSideLength :- IntAttribute(root, "hexsidelength", 0);
    var orientation := AttributeValue(root, "orientation");
    var staggerAxis := AttributeValue(root, "staggeraxis");
    var staggerIndex := AttributeValue(root, "staggerindex");
    var background := AttributeValue(root, "backgroundcolor");
    Ok(m.(
      orientation := if orientation.Some? then UpperCase(orientation.value) else ORTHOGONAL,
      tileWidth := if tileWidth > 0 then tileWidth else m.tileWidth,
      tileHeight := if tileHeight > 0 then tileHeight else m.tileHeight,
      hexSideLength := if hexSideLength > 0 then hexSideLength else m.hexSideLength,
      staggerAxis := if staggerAxis.Some? then staggerAxis else m.staggerAxis,
      staggerIndex := if staggerIndex.Some? then staggerIndex else m.staggerIndex,
      backgroundColor := if background.Some? then background else m.backgroundColor))
  }

  /** The map and the registry while tilesets load. */
  datatype Assembly = Assembly(tiledMap: TiledMap, registry: Registry)

  function TilesetStep(env: Env, a: Assembly, l: Located): Result<Assembly>
  {
    var (firstGid, tileset) :- TilesetOf(l.node, Some(a.tiledMap), env);
    Ok(Assembly(AddTileset(a.tiledMap, tileset), if tileset.Some? then Register(a.registry, tileset.value, firstGid) else a.registry))
  }

  function TilesetStepFn(env: Env): (Assembly, Located) -> Result<Assembly>
  {
    (a, l) => TilesetStep(env, a, l)
  }

  /**
   * What `readTileset` returns and what the registry becomes: the tileset (or
   * none) as `TilesetOf` reads it, registered under its first gid when there is
   * one; registering into a missing registry throws, and an error leaves the
   * registry as it was.
   */
  function TilesetRead(t: Node, current: Option<TiledMap>, registry: Option<Registry>, env: Env)
    : (r: (Result<Option<Tileset>>, Option<Registry>))
    ensures r.0.Err? || r.0 == Ok(None) ==> r.1 == registry
    ensures r.0.Ok? && r.0.value.Some? ==>
      registry.Some? && r.1.Some? && r.0.value.value in ToMap(r.1.value).Values
  {
    match TilesetOf(t, current, env)
    case Err(e) => (Err(e), registry)
    case Ok((firstGid, tileset)) =>
      if tileset.None? then (Ok(None), registry)
      else if registry.None? then (Err(NullReference), None)
      else
        var registered := Register(registry.value, tileset.value, firstGid);
        assert ToMap(registered)[firstGid] == tileset.value;
        (Ok(tileset), Some(registered))
  }

  /** With a registry present, `TilesetRead` is the walk's step. */
  lemma TilesetReadIsStep(env: Env, a: Assembly, l: Located)
    ensures var (r, reg) := TilesetRead(l.node, Some(a.tiledMap), Some(a.registry), env);
      match TilesetStep(env, a, l)
      case Err(e) => r == Err(e)
      case Ok(next) => r.Ok? && reg == Some(next.registry) && next.tiledMap == AddTileset(a.tiledMap, r.value)
  {
  }

  /** Every `tileset` element of the document, at any depth, in document order. */
  function TilesetsOf(root: Node, m: TiledMap, env: Env): Walked<Assembly>
  {
    Walk(ElementsByTagName(root, "tileset", 0), Assembly(m, []), TilesetStepFn(env))
  }

  /** One child of the root: `layer` and `objectgroup` (exact names) add a layer. */
  function LayerStep(reg: Registry, env: Env, m: TiledMap, child: Node): Result<TiledMap>
  {
    if NodeName(child) == "layer" then
      var layer :- TileLayerOf(child, m.width, m.height, reg, env.decode);
      Ok(AddLayer(m, Tiles(layer)))
    else if NodeName(child) == "objectgroup" then
      var group :- ObjectLayerOf(child, m.width, m.height, reg);
      Ok(AddLayer(m, Objects(group)))
    else Ok(m)
  }

  function LayerStepFn(reg: Registry, env: Env): (TiledMap, Node) -> Result<TiledMap>
  {
    (m, child) => LayerStep(reg, env, m, child)
  }

  function LayersOf(root: Node, m: TiledMap, reg: Registry, env: Env): Walked<TiledMap>
  {
    Walk(Children(root), m, LayerStepFn(reg, env))
  }

  /** The loader's two fields after readMap, and the exception it threw, if any. */
  datatype Loaded = Loaded(tiledMap: Option<TiledMap>, registry: Option<Registry>, error: Option<LoadError>)

  /**
   * The map field once the root is checked, the size settled and the root's
   * attributes and properties applied, starting from whatever the field held
   * before; the field keeps every change made before an exception.
   */
  function PreparedOf(root: Node, current: Option<TiledMap>): (r: Walked<Option<TiledMap>>)
    ensures r.error.None? ==> r.state.Some?
  {
    if NodeName(root) != "map" then Walked(current, Some(NotAMap))
    else match MapSizeOf(root)
      case Err(e) => Walked(current, Some(e))
      case Ok((width, height)) =>
        var dims := DimensionsOf(root, current, width, height);
        if dims.error.Some? then dims
        else if dims.state.None? then Walked(None, Some(NoDimensions))
        else match MapAttributesOf(root, dims.state.value)
          case Err(e) => Walked(dims.state, Some(e))
          case Ok(m) =>
            match PropertiesOf(Children(root), m.properties)
            case Err(e) => Walked(Some(m), Some(e))
            case Ok(props) => Walked(Some(m.(properties := props)), None)
  }

  /**
   * readMap on a document whose root is `root`, with the loader's fields
   * holding `current` and `registry` beforehand: the tilesets are loaded
   * into a fresh registry, then the layers resolve against it, and then the
   * registry is dropped.
   */
  function ReadMapOf(root: Node, current: Option<TiledMap>, registry: Option<Registry>, env: Env): Loaded
  {
    var prepared := PreparedOf(root, current);
    if prepared.error.Some? then Loaded(prepared.state, registry, prepared.error)
    else
      var tilesets := TilesetsOf(root, prepared.state.value, env);
      if tilesets.error.Some? then Loaded(Some(tilesets.state.tiledMap), Some(tilesets.state.registry), tilesets.error)
      else
        var layers := LayersOf(root, tilesets.state.tiledMap, tilesets.state.registry, env);
        if layers.error.Some? then Loaded(Some(layers.state), Some(tilesets.state.registry), layers.error)
        else Loaded(Some(layers.state), None, None)
  }

  // ---------------------------------------------------------------------------
  // The loader object

  class TmxLoader {
    const env: Env
    var tiledMap: Option<TiledMap>
    var tilesetPerFirstGid: Option<Registry>

    constructor(env: Env)
      ensures this.env == env && tiledMap.None? && tilesetPerFirstGid.None?
    {
      this.env := env;
      tiledMap := None;
      tilesetPerFirstGid := None;
    }

    /**
     * readTileset: reads the element and registers a non-null tileset under
     * its first id; with no registry to put it in, the put dereferences null.
     */
    method ReadTileset(t: Node) returns (r: Result<Option<Tileset>>)
      modifies this
      ensures tiledMap == old(tiledMap)
      ensures (r, tilesetPerFirstGid) == TilesetRead(t, old(tiledMap), old(tilesetPerFirstGid), env)
    {
      var source := AttributeValue(t, "source");
      var firstGid :- IntAttribute(t, "firstgid", 1);
      var tileset: Option<Tileset>;
      if source.Some? {
        tileset := env.externalTileset(env.folder + source.value);
      } else {
        var mapTileWidth := if tiledMap.Some? then tiledMap.value.tileWidth else 0;
        var mapTileHeight := if tiledMap.Some? then tiledMap.value.tileHeight else 0;
        var header :- InlineHeader(t, mapTileWidth, mapTileHeight);
        var read :- ReadTilesetChildren(Children(t), header, env.loads);
        tileset := Some(read);
      }
      if tileset.Some? {
        if tilesetPerFirstGid.None? {
          return Err(NullReference);
        }
        tilesetPerFirstGid := Some(Register(tilesetPerFirstGid.value, tileset.value, firstGid));
      }
      r := Ok(tileset);
    }

    /** The `dimensions` fallback loop: it never breaks, so the last valid element wins. */
    method ReadDimensions(root: Node) returns (error: Option<LoadError>)
      modifies this
      ensures Walked(tiledMap, error) == Walk(ElementsByTagName(root, "dimensions", 0), old(tiledMap), DimensionStepFn())
      ensures tilesetPerFirstGid == old(tilesetPerFirstGid)
    {
      var ls := ElementsByTagName(root, "dimensions", 0);
      ghost var start := tiledMap;
      var i := 0;
      while i < |ls|
        invariant 0 <= i <= |ls|
        invariant Walk(ls[..i], start, DimensionStepFn()) == Walked(tiledMap, None)
        invariant tilesetPerFirstGid == old(tilesetPerFirstGid)
      {
        ghost var next := DimensionStep(tiledMap, ls[i]);
        assert DimensionStepFn()(tiledMap, ls[i]) == next;
        WalkStep(ls, i, start, DimensionStepFn());
        var failure := ReadDimension(ls[i]);
        if failure.Some? {
          WalkErr(ls, i + 1, start, DimensionStepFn());
          return failure;
        }
        i := i + 1;
      }
      assert ls[..i] == ls;
      error := None;
    }

    /** One `dimensions` element: only a child of the root counts, and only a positive pair replaces the map. */
    method ReadDimension(item: Located) returns (failure: Option<LoadError>)
      modifies this
      ensures match DimensionStep(old(tiledMap), item)
        case Ok(m) => failure.None? && tiledMap == m
        case Err(e) => failure == Some(e) && tiledMap == old(tiledMap)
      ensures tilesetPerFirstGid == old(tilesetPerFirstGid)
    {
      if item.depth == 1 {
        var width := IntAttribute(item.node, "width", 0);
        if width.Err? {
          return Some(width.error);
        }
        var height := IntAttribute(item.node, "height", 0);
        if height.Err? {
          return Some(height.error);
        }
        if width.value > 0 && height.value > 0 {
          tiledMap := Some(NewMap(width.value, height.value));
        }
      }
      failure := None;
    }

    /** The tileset pass: every `tileset` element of the document, before any layer. */
    method ReadTilesets(root: Node) returns (error: Option<LoadError>)
      requires tiledMap.Some? && tilesetPerFirstGid.Some?
      modifies this
      ensures var w := Walk(ElementsByTagName(root, "tileset", 0),
                            Assembly(old(tiledMap).value, old(tilesetPerFirstGid).value), TilesetStepFn(env));
        tiledMap == Some(w.state.tiledMap) && tilesetPerFirstGid == Some(w.state.registry) && error == w.error
    {
      var ls := ElementsByTagName(root, "tileset", 0);
      ghost var start := Assembly(tiledMap.value, tilesetPerFirstGid.value);
      var i := 0;
      while i < |ls|
        invariant 0 <= i <= |ls|
        invariant tiledMap.Some? && tilesetPerFirstGid.Some?
        invariant Walk(ls[..i], start, TilesetStepFn(env)) == Walked(Assembly(tiledMap.value, tilesetPerFirstGid.value), None)
      {
        ghost var a := Assembly(tiledMap.value, tilesetPerFirstGid.value);
        ghost var next := TilesetStep(env, a, ls[i]);
        assert TilesetStepFn(env)(a, ls[i]) == next;
        TilesetReadIsStep(env, a, ls[i]);
        WalkStep(ls, i, start, TilesetStepFn(env));
        var tileset := ReadTileset(ls[i].node);
        if tileset.Err? {
          assert next == Err(tileset.error);
          WalkErr(ls, i + 1, start, TilesetStepFn(env));
          return Some(tileset.error);
        }
        tiledMap := Some(AddTileset(tiledMap.value, tileset.value));
        assert next == Ok(Assembly(tiledMap.value, tilesetPerFirstGid.value));
        i := i + 1;
      }
      assert ls[..i] == ls;
      error := None;
    }

    /** The layer pass over the root's children, resolving against the full registry. */
    method ReadLayers(root: Node) returns (error: Option<LoadError>)
      requires tiledMap.Some? && tilesetPerFirstGid.Some?
      modifies this
      ensures var w := LayersOf(root, old(tiledMap).value, old(tilesetPerFirstGid).value, env);
        tiledMap == Some(w.state) && error == w.error
      ensures tilesetPerFirstGid == old(tilesetPerFirstGid)
    {
      var children := Children(root);
      var reg := tilesetPerFirstGid.value;
      ghost var start := tiledMap.value;
      var i := 0;
      while i < |children|
        invariant 0 <= i <= |children|
        invariant tiledMap.Some? && tilesetPerFirstGid == Some(reg)
        invariant Walk(children[..i], start, LayerStepFn(reg, env)) == Walked(tiledMap.value, None)
      {
        var child := children[i];
        WalkStep(children, i, start, LayerStepFn(reg, env));
        if NodeName(child) == "layer" {
          var layer := ReadTileLayer(child, tiledMap.value.width, tiledMap.value.height, reg, env.decode);
          if layer.Err? {
            WalkErr(children, i + 1, start, LayerStepFn(reg, env));
            return Some(layer.error);
          }
          tiledMap := Some(AddLayer(tiledMap.value, Tiles(layer.value)));
        } else if NodeName(child) == "objectgroup" {
          var group := ReadObjectLayer(child, tiledMap.value.width, tiledMap.value.height, reg);
          if group.Err? {
            WalkErr(children, i + 1, start, LayerStepFn(reg, env));
            return Some(group.error);
          }
          tiledMap := Some(AddLayer(tiledMap.value, Objects(group.value)));
        }
        i := i + 1;
      }
      assert children[..i] == children;
      error := None;
    }

    /** readMap, on the document whose root element is `root`. */
    method ReadMap(root: Node) returns (error: Option<LoadError>)
      modifies this
      ensures Loaded(tiledMap, tilesetPerFirstGid, error) == ReadMapOf(root, old(tiledMap), old(tilesetPerFirstGid), env)
    {
      if NodeName(root) != "map" {
        return Some(NotAMap);
      }
      var width := IntAttribute(root, "width", 0);
      if width.Err? {
        return Some(width.error);
      }
      var height := IntAttribute(root, "height", 0);
      if height.Err? {
        return Some(height.error);
      }
      if width.value > 0 && height.value > 0 {
        tiledMap := Some(NewMap(width.value, height.value));
      } else {
        error := ReadDimensions(root);
        if error.Some? {
          return;
        }
      }
      if tiledMap.None? {
        return Some(NoDimensions);
      }
      var attributes := MapAttributesOf(root, tiledMap.value);
      if attributes.Err? {
        return Some(attributes.error);
      }
      tiledMap := Some(attributes.value);
      var props := ReadProperties(Children(root), tiledMap.value.properties);
      if props.Err? {
        return Some(props.error);
      }
      tiledMap := Some(tiledMap.value.(properties := props.value));
      tilesetPerFirstGid := Some([]);
      error := ReadTilesets(root);
      if error.Some? {
        return;
      }
      error := ReadLayers(root);
      if error.Some? {
        return;
      }
      tilesetPerFirstGid := None;
    }
  }
}
