/**
 * What readMap promises about the map it builds: the root and dimension
 * rules, the attribute defaults, every tileset registered before any layer
 * is read, and one layer per `layer` or `objectgroup` child, in order.
 */
module MapRules {
  import opened Results
  import opened Dom
  import opened Folds
  import opened FloorMap
  import opened Tiled
  import opened GidResolver
  import opened PropertyReader
  import opened Loader

  /** The size given by the last node whose width and height both parse to positive numbers. */
  function LastValidDims(ds: seq<Node>): Option<(int, int)>
  {
    if ds == [] then None
    else
      var d := ds[|ds| - 1];
      match (IntAttribute(d, "width", 0), IntAttribute(d, "height", 0))
      case (Ok(w), Ok(h)) => if w > 0 && h > 0 then Some((w, h)) else LastValidDims(ds[..|ds| - 1])
      case _ => LastValidDims(ds[..|ds| - 1])
  }

  /** The first ids of the `tileset` elements that yield a tileset, in document order. */
  function RegisteredFirstGids(ls: seq<Located>, env: Env): seq<int>
  {
    if ls == [] then []
    else RegisteredFirstGids(ls[..|ls| - 1], env) + RegisteredFirstGid(ls[|ls| - 1].node, env)
  }

  /** The first id one `tileset` element registers: none when it yields no tileset. */
  function RegisteredFirstGid(t: Node, env: Env): seq<int>
  {
    match IntAttribute(t, "firstgid", 1)
    case Ok(g) => if Provides(t, env) then [g] else []
    case Err(_) => []
  }

  /** The children named exactly `layer` or `objectgroup`, in order. */
  function LayerElements(cs: seq<Node>): seq<Node>
  {
    if cs == [] then []
    else
      var c := cs[|cs| - 1];
      LayerElements(cs[..|cs| - 1]) + if NodeName(c) == "layer" || NodeName(c) == "objectgroup" then [c] else []
  }

  /** Everything of a map but its tilesets and layers. */
  function Header(m: TiledMap): TiledMap
  {
    m.(tilesets := [], layers := [])
  }

  // ---------------------------------------------------------------------------
  // The dimensions fallback

  /**
   * The `dimensions` loop leaves the size of the last valid element whose
   * parent is the root, and leaves the field alone when there is none.
   */
  lemma {:induction false} DimensionWalk(ls: seq<Located>, current: Option<TiledMap>)
    ensures Walk(ls, current, DimensionStepFn()).error.None? ==>
      Walk(ls, current, DimensionStepFn()).state ==
        match LastValidDims(AtDepthOne(ls))
        case Some((w, h)) => Some(NewMap(w, h))
        case None => current
    ensures LastValidDims(AtDepthOne(ls)) == None ==> Walk(ls, current, DimensionStepFn()).state == current
  {
    if ls != [] {
      var p := ls[..|ls| - 1];
      var l := ls[|ls| - 1];
      DimensionWalk(p, current);
      var w := Walk(p, current, DimensionStepFn());
      assert DimsAgree(w, AtDepthOne(p), current);
      assert DimensionStepFn()(w.state, l) == DimensionStep(w.state, l);
      assert Walk(ls, current, DimensionStepFn()) == NextDims(w, l);
      assert AtDepthOne(ls) == AtDepthOne(p) + (if l.depth == 1 then [l.node] else []);
      DimensionWalkStep(w, l, AtDepthOne(p), current);
    }
  }

  /** The two facts `DimensionWalk` states, for a walked state and the candidates seen so far. */
  ghost predicate DimsAgree(w: Walked<Option<TiledMap>>, a: seq<Node>, current: Option<TiledMap>)
  {
    && (w.error.None? ==>
         w.state == match LastValidDims(a) case Some((x, y)) => Some(NewMap(x, y)) case None => current)
    && (LastValidDims(a) == None ==> w.state == current)
  }

  /** One more element of the dimensions walk. */
  function NextDims(w: Walked<Option<TiledMap>>, l: Located): Walked<Option<TiledMap>>
  {
    if w.error.Some? then w
    else match DimensionStep(w.state, l)
      case Ok(s) => Walked(s, None)
      case Err(e) => Walked(w.state, Some(e))
  }

  lemma DimensionWalkStep(w: Walked<Option<TiledMap>>, l: Located, a: seq<Node>, current: Option<TiledMap>)
    requires DimsAgree(w, a, current)
    ensures DimsAgree(NextDims(w, l), a + (if l.depth == 1 then [l.node] else []), current)
  {
    if l.depth == 1 {
      LastValidSnoc(a, l.node);
    } else {
      assert a + [] == a;
    }
  }

  /** One more candidate: it wins when valid, otherwise the earlier ones decide. */
  lemma LastValidSnoc(a: seq<Node>, n: Node)
    ensures LastValidDims(a + [n]) ==
      match (IntAttribute(n, "width", 0), IntAttribute(n, "height", 0))
      case (Ok(w), Ok(h)) => if w > 0 && h > 0 then Some((w, h)) else LastValidDims(a)
      case _ => LastValidDims(a)
  {
    assert (a + [n])[..|a|] == a;
  }

  // ---------------------------------------------------------------------------
  // The tileset and layer passes

  /** The tileset pass changes nothing of the map but appending tilesets. */
  lemma {:induction false} TilesetWalkAppends(ls: seq<Located>, a: Assembly, env: Env)
    ensures var w := Walk(ls, a, TilesetStepFn(env));
      Header(w.state.tiledMap) == Header(a.tiledMap) &&
      w.state.tiledMap.layers == a.tiledMap.layers &&
      a.tiledMap.tilesets <= w.state.tiledMap.tilesets
  {
    if ls != [] {
      var p := ls[..|ls| - 1];
      TilesetWalkAppends(p, a, env);
      var w := Walk(p, a, TilesetStepFn(env));
      if w.error.None? {
        assert TilesetStepFn(env)(w.state, ls[|ls| - 1]) == TilesetStep(env, w.state, ls[|ls| - 1]);
      }
    }
  }

  /**
   * A tileset pass without an exception registers exactly the first ids of
   * the elements that yield a tileset, and adds each such tileset to the map.
   */
  lemma {:induction false} TilesetWalkRegisters(ls: seq<Located>, a: Assembly, env: Env)
    requires Walk(ls, a, TilesetStepFn(env)).error.None?
    ensures var w := Walk(ls, a, TilesetStepFn(env));
      ToMap(w.state.registry).Keys == ToMap(a.registry).Keys + (set g | g in RegisteredFirstGids(ls, env)) &&
      |w.state.tiledMap.tilesets| == |a.tiledMap.tilesets| + |RegisteredFirstGids(ls, env)|
  {
    if ls != [] {
      var p := ls[..|ls| - 1];
      var l := ls[|ls| - 1];
      var w := Walk(p, a, TilesetStepFn(env));
      assert w.error.None?;
      TilesetWalkRegisters(p, a, env);
      assert TilesetStepFn(env)(w.state, l) == TilesetStep(env, w.state, l);
      TilesetStepRegisters(env, w.state, l);
    }
  }

  /** One step of the tileset pass registers `RegisteredFirstGid` and adds as many tilesets. */
  lemma TilesetStepRegisters(env: Env, a: Assembly, l: Located)
    requires TilesetStep(env, a, l).Ok?
    ensures var next := TilesetStep(env, a, l).value;
      ToMap(next.registry).Keys == ToMap(a.registry).Keys + (set g | g in RegisteredFirstGid(l.node, env)) &&
      |next.tiledMap.tilesets| == |a.tiledMap.tilesets| + |RegisteredFirstGid(l.node, env)|
  {
    var r := TilesetOf(l.node, Some(a.tiledMap), env);
    assert r.Ok?;
    var (g, ts) := r.value;
    assert IntAttribute(l.node, "firstgid", 1) == Ok(g);
    assert ts.Some? <==> Provides(l.node, env);
    if ts.Some? {
      assert RegisteredFirstGid(l.node, env) == [g];
      assert ToMap(Register(a.registry, ts.value, g)).Keys == ToMap(a.registry).Keys + {g};
    } else {
      assert RegisteredFirstGid(l.node, env) == [];
    }
  }

  /**
   * The layer pass only appends layers: one per `layer` or `objectgroup`
   * child, in order, a tile layer exactly for `layer`.
   */
  lemma {:induction false} LayerWalk(cs: seq<Node>, m: TiledMap, reg: Registry, env: Env)
    ensures var w := Walk(cs, m, LayerStepFn(reg, env));
      Header(w.state) == Header(m) && w.state.tilesets == m.tilesets && m.layers <= w.state.layers
    ensures var w := Walk(cs, m, LayerStepFn(reg, env));
      w.error.None? ==>
        |w.state.layers| == |m.layers| + |LayerElements(cs)| &&
        forall k :: 0 <= k < |LayerElements(cs)| ==>
          (w.state.layers[|m.layers| + k].Tiles? <==> NodeName(LayerElements(cs)[k]) == "layer")
  {
    if cs != [] {
      var p := cs[..|cs| - 1];
      var c := cs[|cs| - 1];
      LayerWalk(p, m, reg, env);
      var w := Walk(p, m, LayerStepFn(reg, env));
      if w.error.None? {
        assert LayerStepFn(reg, env)(w.state, c) == LayerStep(reg, env, w.state, c);
        var r := LayerStep(reg, env, w.state, c);
        if r.Ok? && (NodeName(c) == "layer" || NodeName(c) == "objectgroup") {
          assert LayerElements(cs) == LayerElements(p) + [c];
          assert r.value.layers == w.state.layers + [r.value.layers[|w.state.layers|]];
          forall k | 0 <= k < |LayerElements(cs)|
            ensures r.value.layers[|m.layers| + k].Tiles? <==> NodeName(LayerElements(cs)[k]) == "layer"
          {
            if k < |LayerElements(p)| {
              assert LayerElements(cs)[k] == LayerElements(p)[k];
              assert r.value.layers[|m.layers| + k] == w.state.layers[|m.layers| + k];
            }
          }
        } else if r.Ok? {
          assert LayerElements(cs) == LayerElements(p);
        }
      }
    }
  }

  /**
   * A map that loads completely was prepared without an exception, and the
   * two passes only appended tilesets and layers to it.
   */
  lemma Assembled(root: Node, current: Option<TiledMap>, registry: Option<Registry>, env: Env)
    requires ReadMapOf(root, current, registry, env).error.None?
    ensures PreparedOf(root, current).error.None?
    ensures var p := PreparedOf(root, current).state.value;
      var m := ReadMapOf(root, current, registry, env).tiledMap.value;
      var ls := ElementsByTagName(root, "tileset", 0);
      Header(m) == Header(p) &&
      p.tilesets <= m.tilesets && |m.tilesets| == |p.tilesets| + |RegisteredFirstGids(ls, env)| &&
      p.layers <= m.layers && |m.layers| == |p.layers| + |LayerElements(Children(root))|
  {
    var p := PreparedOf(root, current).state.value;
    var ts := TilesetsOf(root, p, env);
    TilesetWalkAppends(ElementsByTagName(root, "tileset", 0), Assembly(p, []), env);
    TilesetWalkRegisters(ElementsByTagName(root, "tileset", 0), Assembly(p, []), env);
    LayerWalk(Children(root), ts.state.tiledMap, ts.state.registry, env);
  }

  // ---------------------------------------------------------------------------
  // readMap

  /** A root element not named exactly `map` is rejected before anything changes. */
  lemma NotAMapRejected(root: Node, current: Option<TiledMap>, registry: Option<Registry>, env: Env)
    requires NodeName(root) != "map"
    ensures ReadMapOf(root, current, registry, env) == Loaded(current, registry, Some(NotAMap))
  {
  }

  /**
   * With positive sizes on the root, a new map of that size is made, and
   * the other attributes take their defaults when absent; a whole load
   * leaves the registry dropped, every yielded tileset and one layer per
   * layer element.
   */
  lemma RootSizeWins(root: Node, current: Option<TiledMap>, registry: Option<Registry>, env: Env, width: int, height: int)
    requires MapSizeOf(root) == Ok((width, height)) && width > 0 && height > 0
    requires ReadMapOf(root, current, registry, env).error.None?
    ensures var r := ReadMapOf(root, current, registry, env);
      var m := r.tiledMap.value;
      r.registry.None? &&
      m.width == width && m.height == height &&
      (AttributeValue(root, "orientation").None? ==> m.orientation == ORTHOGONAL) &&
      (IntAttribute(root, "tilewidth", 0).Ok? && IntAttribute(root, "tilewidth", 0).value <= 0 ==> m.tileWidth == 0) &&
      (IntAttribute(root, "tilewidth", 0).Ok? && IntAttribute(root, "tilewidth", 0).value > 0 ==>
        m.tileWidth == IntAttribute(root, "tilewidth", 0).value) &&
      |m.tilesets| == |RegisteredFirstGids(ElementsByTagName(root, "tileset", 0), env)| &&
      |m.layers| == |LayerElements(Children(root))|
  {
    Assembled(root, current, registry, env);
    PreparedAttributes(root, current, width, height);
  }

  /** With a positive size on the root, the prepared map is a new map of that size with the root's attributes. */
  lemma PreparedAttributes(root: Node, current: Option<TiledMap>, width: int, height: int)
    requires MapSizeOf(root) == Ok((width, height)) && width > 0 && height > 0
    requires PreparedOf(root, current).error.None?
    ensures var p := PreparedOf(root, current).state.value;
      p.width == width && p.height == height && p.tilesets == [] && p.layers == [] &&
      (AttributeValue(root, "orientation").None? ==> p.orientation == ORTHOGONAL) &&
      (IntAttribute(root, "tilewidth", 0).Ok? && IntAttribute(root, "tilewidth", 0).value <= 0 ==> p.tileWidth == 0) &&
      (IntAttribute(root, "tilewidth", 0).Ok? && IntAttribute(root, "tilewidth", 0).value > 0 ==>
        p.tileWidth == IntAttribute(root, "tilewidth", 0).value)
  {
    assert NodeName(root) == "map";
    var d := NewMap(width, height);
    assert DimensionsOf(root, current, width, height) == Walked(Some(d), None);
    var a := MapAttributesOf(root, d);
    assert a.Ok?;
    var p := PreparedOf(root, current).state.value;
    assert p == a.value.(properties := p.properties);
  }

  /**
   * Without positive sizes on the root, the last `dimensions` child of the
   * root with positive sizes decides the size; with none, the map the field
   * already held keeps its size.
   */
  lemma DimensionsFallback(root: Node, current: Option<TiledMap>, registry: Option<Registry>, env: Env,
                           width: int, height: int)
    requires root.Element? && MapSizeOf(root) == Ok((width, height)) && !(width > 0 && height > 0)
    requires ReadMapOf(root, current, registry, env).error.None?
    ensures var m := ReadMapOf(root, current, registry, env).tiledMap.value;
      match LastValidDims(ChildElementsNamed(root.children, "dimensions"))
      case Some((w, h)) => m.width == w && m.height == h
      case None => current.Some? && m.width == current.value.width && m.height == current.value.height
  {
    Assembled(root, current, registry, env);
    var p := PreparedOf(root, current).state.value;
    var m := ReadMapOf(root, current, registry, env).tiledMap.value;
    assert Header(m) == Header(p);
    PreparedSize(root, current, width, height);
    var ls := ElementsByTagName(root, "dimensions", 0);
    assert DimensionsOf(root, current, width, height) == Walk(ls, current, DimensionStepFn());
    DirectChildrenOfRoot(root, "dimensions");
    DimensionWalk(ls, current);
  }

  /** Preparing keeps the size the size step settled on. */
  lemma PreparedSize(root: Node, current: Option<TiledMap>, width: int, height: int)
    requires MapSizeOf(root) == Ok((width, height)) && PreparedOf(root, current).error.None?
    ensures var d := DimensionsOf(root, current, width, height);
      var p := PreparedOf(root, current).state.value;
      d.error.None? && d.state.Some? && p.width == d.state.value.width && p.height == d.state.value.height
  {
    var d := DimensionsOf(root, current, width, height);
    assert NodeName(root) == "map";
    assert d.error.None? && d.state.Some?;
    var m := MapAttributesOf(root, d.state.value);
    assert m.Ok?;
    assert m.value.width == d.state.value.width && m.value.height == d.state.value.height;
  }

  /** With no size on the root, no valid `dimensions` child and no earlier map, readMap throws and leaves no map. */
  lemma NoDimensionsRejected(root: Node, registry: Option<Registry>, env: Env, width: int, height: int)
    requires root.Element? && MapSizeOf(root) == Ok((width, height)) && !(width > 0 && height > 0)
    requires LastValidDims(ChildElementsNamed(root.children, "dimensions")) == None
    ensures ReadMapOf(root, None, registry, env).error.Some?
    ensures ReadMapOf(root, None, registry, env).tiledMap.None?
    ensures ReadMapOf(root, None, registry, env).registry == registry
  {
    DirectChildrenOfRoot(root, "dimensions");
    DimensionWalk(ElementsByTagName(root, "dimensions", 0), None);
  }

  /**
   * The map field is never cleared: when a loader that built a map before
   * reads a document with no size at all, it carries on with the old map,
   * keeping its size, tilesets, layers and property names, and appending.
   */
  lemma StaleMapReused(root: Node, old_: TiledMap, registry: Option<Registry>, env: Env, width: int, height: int)
    requires root.Element? && MapSizeOf(root) == Ok((width, height)) && !(width > 0 && height > 0)
    requires LastValidDims(ChildElementsNamed(root.children, "dimensions")) == None
    requires ReadMapOf(root, Some(old_), registry, env).error.None?
    ensures var m := ReadMapOf(root, Some(old_), registry, env).tiledMap.value;
      m.width == old_.width && m.height == old_.height &&
      old_.tilesets <= m.tilesets && old_.layers <= m.layers && old_.properties.Keys <= m.properties.Keys
  {
    Assembled(root, Some(old_), registry, env);
    DirectChildrenOfRoot(root, "dimensions");
    DimensionWalk(ElementsByTagName(root, "dimensions", 0), Some(old_));
    var attrs := MapAttributesOf(root, old_).value;
    PropertiesKeepKeys(Children(root), attrs.properties);
  }

  /**
   * Tilesets are loaded first: every layer, wherever it stands in the
   * document, is read against a registry holding the first id of every
   * `tileset` element that yields a tileset, including later ones.
   */
  lemma LayersSeeEveryTileset(root: Node, current: Option<TiledMap>, registry: Option<Registry>, env: Env)
    requires ReadMapOf(root, current, registry, env).error.None?
    ensures PreparedOf(root, current).error.None?
    ensures var t := TilesetsOf(root, PreparedOf(root, current).state.value, env).state;
      ToMap(t.registry).Keys == (set g | g in RegisteredFirstGids(ElementsByTagName(root, "tileset", 0), env)) &&
      ReadMapOf(root, current, registry, env).tiledMap == Some(LayersOf(root, t.tiledMap, t.registry, env).state)
  {
    var p := PreparedOf(root, current).state.value;
    TilesetWalkRegisters(ElementsByTagName(root, "tileset", 0), Assembly(p, []), env);
  }
}
