/**
 * readTileset, readTile and the part of readImage that can fail. An inline
 * tileset reads its children in order: the first `image` that yields a
 * texture becomes the tileset image, whose tiles the tileset then holds,
 * and later ones are skipped; a `tile` is added, unless a tileset image is
 * present and its id does not exceed maxTileId, in which case it only
 * replaces the properties of the tile already there.
 */
module TilesetReader {
  import opened Results
  import opened Dom
  import opened JavaInt
  import opened Folds
  import opened JavaText
  import opened Tiled
  import opened PropertyReader

  /**
   * Whether readImage produces a texture for an `image` element, and if so
   * how many tiles Tileset.setTexture cuts it into: asset loading, image
   * decoding and the image's pixel size are outside this model.
   */
  type ImageLoader = Node -> Option<nat>

  /** The first child with exactly the given name. */
  function FirstNamed(cs: seq<Node>, name: string): (r: Option<Node>)
    ensures r.Some? ==> r.value in cs && NodeName(r.value) == name
    ensures r.None? ==> forall i :: 0 <= i < |cs| ==> NodeName(cs[i]) != name
  {
    if cs == [] then None
    else if NodeName(cs[0]) == name then Some(cs[0])
    else FirstNamed(cs[1..], name)
  }

  /**
   * An image without `source` whose first `data` child has a first child
   * that is not text: readImage trims its null character data.
   */
  predicate EmbeddedDataNull(t: Node)
  {
    AttributeValue(t, "source").None? &&
    var data := FirstNamed(Children(t), "data");
    data.Some? && FirstChild(data.value).Some? && NodeValue(FirstChild(data.value).value).None?
  }

  /**
   * readImage: an image without `source` reads the character data of its
   * first `data` child (a non-text first child is a null dereference); the
   * `width` and `height` attributes must be ints. The result is the texture
   * obtained, if any, as its tile count.
   */
  function ImageOf(t: Node, loads: ImageLoader): (r: Result<Option<nat>>)
    ensures r.Ok? ==> r.value == loads(t)
    ensures r.Err? <==>
      EmbeddedDataNull(t) || IntAttribute(t, "width", 0).Err? || IntAttribute(t, "height", 0).Err?
    ensures EmbeddedDataNull(t) ==> r == Err(NullReference)
    ensures !EmbeddedDataNull(t) && IntAttribute(t, "width", 0).Err? ==> r == Err(IntAttribute(t, "width", 0).error)
  {
    var embedded :-
      if AttributeValue(t, "source").Some? then Ok(())
      else match FirstNamed(Children(t), "data")
        case None => Ok(())
        case Some(data) =>
          if FirstChild(data).Some? && NodeValue(FirstChild(data).value).None? then Err(NullReference)
          else Ok(());
    var width :- IntAttribute(t, "width", 0);
    var height :- IntAttribute(t, "height", 0);
    Ok(loads(t))
  }

  /** An image with a `source` and int `width` and `height` is read: the result is what the loader makes of it. */
  lemma ImageReadable(t: Node, loads: ImageLoader, w: int, h: int)
    requires AttributeValue(t, "source").Some?
    requires IsInt32(w) && AttributeValue(t, "width") == Some(FormatInt(w))
    requires IsInt32(h) && AttributeValue(t, "height") == Some(FormatInt(h))
    ensures ImageOf(t, loads) == Ok(loads(t))
  {
    IntAttributeFormatted(t, "width", 0, w);
    IntAttributeFormatted(t, "height", 0, h);
  }

  // ---------------------------------------------------------------------------
  // readTile

  /** One child of a `tile` element: an `image` becomes the tile's image. */
  function TileChildStep(loads: ImageLoader, tile: Tile, child: Node): Result<Tile>
  {
    if EqualsIgnoreCase("image", NodeName(child)) then
      var texture :- ImageOf(child, loads);
      Ok(tile.(image := Some(child)))
    else Ok(tile)
  }

  function TileChildStepFn(loads: ImageLoader): (Tile, Node) -> Result<Tile>
  {
    (tile, child) => TileChildStep(loads, tile, child)
  }

  /** readTile: id (default -1), terrain, properties, then the image children. */
  function TileOf(t: Node, loads: ImageLoader): Result<Tile>
  {
    var id :- IntAttribute(t, "id", -1);
    var terrain := if AttributeValue(t, "terrain").Some? then Some(0) else None;
    var props :- PropertiesOf(Children(t), map[]);
    Fold(Children(t), Tile(id, terrain, props, None), TileChildStepFn(loads))
  }

  /** The last `image` child, whose texture the tile ends up drawing. */
  function LastImage(cs: seq<Node>): Option<Node>
  {
    if cs == [] then None
    else if EqualsIgnoreCase("image", NodeName(cs[|cs| - 1])) then Some(cs[|cs| - 1])
    else LastImage(cs[..|cs| - 1])
  }

  lemma {:induction false} TileImagesFold(cs: seq<Node>, tile: Tile, loads: ImageLoader)
    requires Fold(cs, tile, TileChildStepFn(loads)).Ok?
    ensures Fold(cs, tile, TileChildStepFn(loads)).value ==
      if LastImage(cs).Some? then tile.(image := LastImage(cs)) else tile
  {
    if cs != [] {
      TileImagesFold(cs[..|cs| - 1], tile, loads);
    }
  }

  /**
   * A tile as readTile builds it: the `id` attribute or -1, a terrain exactly
   * when `terrain` is present, the properties of its children, and its last
   * `image` child.
   */
  lemma TileRead(t: Node, loads: ImageLoader)
    requires TileOf(t, loads).Ok?
    ensures var tile := TileOf(t, loads).value;
      && tile.id == IntAttribute(t, "id", -1).value
      && (AttributeValue(t, "id").None? ==> tile.id == -1)
      && (tile.terrain.Some? <==> AttributeValue(t, "terrain").Some?)
      && tile.properties == PropertiesOf(Children(t), map[]).value
      && tile.image == LastImage(Children(t))
  {
    var id := IntAttribute(t, "id", -1).value;
    var terrain := if AttributeValue(t, "terrain").Some? then Some(0) else None;
    var props := PropertiesOf(Children(t), map[]).value;
    TileImagesFold(Children(t), Tile(id, terrain, props, None), loads);
  }

  method ReadTile(t: Node, loads: ImageLoader) returns (r: Result<Tile>)
    ensures r == TileOf(t, loads)
  {
    var id :- IntAttribute(t, "id", -1);
    var terrainStr := AttributeValue(t, "terrain");
    var terrain: Option<int> := None;
    if terrainStr.Some? {
      terrain := Some(0);
    }
    var children := Children(t);
    var props :- ReadProperties(children, map[]);
    var tile := Tile(id, terrain, props, None);
    ghost var start := tile;
    var i := 0;
    while i < |children|
      invariant 0 <= i <= |children|
      invariant Fold(children[..i], start, TileChildStepFn(loads)) == Ok(tile)
    {
      var child := children[i];
      FoldStep(children, i, start, TileChildStepFn(loads));
      if EqualsIgnoreCase("image", NodeName(child)) {
        var image := ImageOf(child, loads);
        if image.Err? {
          FoldErr(children, i + 1, start, TileChildStepFn(loads));
          return Err(image.error);
        }
        tile := tile.(image := Some(child));
      }
      i := i + 1;
    }
    assert children[..i] == children;
    r := Ok(tile);
  }

  // ---------------------------------------------------------------------------
  // readTileset

  datatype Building = Building(tileset: Tileset, hasTilesetImage: bool)

  /** One child of an inline `tileset` element. */
  function TilesetChildStep(loads: ImageLoader, b: Building, child: Node): Result<Building>
  {
    if EqualsIgnoreCase("image", NodeName(child)) then
      if b.hasTilesetImage then Ok(b)
      else
        var texture :- ImageOf(child, loads);
        match texture
        case None => Ok(b)
        case Some(count) => Ok(Building(SetTexture(b.tileset, child, count), true))
    else if EqualsIgnoreCase("tile", NodeName(child)) then
      var tile :- TileOf(child, loads);
      if !b.hasTilesetImage || tile.id > b.tileset.maxTileId then
        Ok(b.(tileset := AddTile(b.tileset, tile)))
      else
        match GetTile(b.tileset, tile.id)
        case None => Err(NullReference)
        case Some(myTile) =>
          Ok(b.(tileset := b.tileset.(tiles := b.tileset.tiles[tile.id := myTile.(properties := tile.properties)])))
    else Ok(b)
  }

  function TilesetChildStepFn(loads: ImageLoader): (Building, Node) -> Result<Building>
  {
    (b, child) => TilesetChildStep(loads, b, child)
  }

  /** The tileset an inline `tileset` element describes, before any child is read. */
  function InlineHeader(t: Node, mapTileWidth: int, mapTileHeight: int): Result<Tileset>
  {
    var tileWidth :- IntAttribute(t, "tilewidth", mapTileWidth);
    var tileHeight :- IntAttribute(t, "tileheight", mapTileHeight);
    var tileSpacing :- IntAttribute(t, "spacing", 0);
    var tileMargin :- IntAttribute(t, "margin", 0);
    Ok(NewTileset(tileWidth, tileHeight, tileSpacing, tileMargin).(name := AttributeValue(t, "name")))
  }

  function InlineTilesetOf(t: Node, mapTileWidth: int, mapTileHeight: int, loads: ImageLoader): Result<Tileset>
  {
    var header :- InlineHeader(t, mapTileWidth, mapTileHeight);
    var b :- Fold(Children(t), Building(header, false), TilesetChildStepFn(loads));
    Ok(b.tileset)
  }

  /** The loop over an inline tileset's children, with the hasTilesetImage flag. */
  method ReadTilesetChildren(children: seq<Node>, header: Tileset, loads: ImageLoader) returns (r: Result<Tileset>)
    ensures r.Err? <==> Fold(children, Building(header, false), TilesetChildStepFn(loads)).Err?
    ensures r.Err? ==> r.error == Fold(children, Building(header, false), TilesetChildStepFn(loads)).error
    ensures r.Ok? ==> r.value == Fold(children, Building(header, false), TilesetChildStepFn(loads)).value.tileset
  {
    var tileset := header;
    var hasTilesetImage := false;
    ghost var start := Building(header, false);
    var i := 0;
    while i < |children|
      invariant 0 <= i <= |children|
      invariant Fold(children[..i], start, TilesetChildStepFn(loads)) == Ok(Building(tileset, hasTilesetImage))
    {
      var child := children[i];
      FoldStep(children, i, start, TilesetChildStepFn(loads));
      var nodeName := NodeName(child);
      if EqualsIgnoreCase("image", nodeName) {
        if !hasTilesetImage {
          var image := ImageOf(child, loads);
          if image.Err? {
            FoldErr(children, i + 1, start, TilesetChildStepFn(loads));
            return Err(image.error);
          }
          if image.value.Some? {
            hasTilesetImage := true;
            tileset := SetTexture(tileset, child, image.value.value);
          }
        }
      } else if EqualsIgnoreCase("tile", nodeName) {
        var tile := ReadTile(child, loads);
        if tile.Err? {
          FoldErr(children, i + 1, start, TilesetChildStepFn(loads));
          return Err(tile.error);
        }
        if !hasTilesetImage || tile.value.id > tileset.maxTileId {
          tileset := AddTile(tileset, tile.value);
        } else {
          var myTile := GetTile(tileset, tile.value.id);
          if myTile.None? {
            FoldErr(children, i + 1, start, TilesetChildStepFn(loads));
            return Err(NullReference);
          }
          tileset := tileset.(tiles := tileset.tiles[tile.value.id := myTile.value.(properties := tile.value.properties)]);
        }
      }
      i := i + 1;
    }
    assert children[..i] == children;
    r := Ok(tileset);
  }

  // ---------------------------------------------------------------------------
  // Properties of the inline rule

  /** Once a tileset image is accepted, further `image` children change nothing. */
  lemma LaterImageSkipped(loads: ImageLoader, b: Building, child: Node)
    requires b.hasTilesetImage && EqualsIgnoreCase("image", NodeName(child))
    ensures TilesetChildStep(loads, b, child) == Ok(b)
  {
  }

  /** Without a tileset image every readable `tile` child is added under its id. */
  lemma TileAddedWithoutImage(loads: ImageLoader, b: Building, child: Node)
    requires !b.hasTilesetImage && !EqualsIgnoreCase("image", NodeName(child))
    requires EqualsIgnoreCase("tile", NodeName(child)) && TileOf(child, loads).Ok?
    ensures TilesetChildStep(loads, b, child) == Ok(b.(tileset := AddTile(b.tileset, TileOf(child, loads).value)))
  {
  }

  /**
   * With a tileset image, a tile whose id does not exceed maxTileId keeps
   * the existing tile and gives it the new properties; no tile is added and
   * maxTileId is unchanged. A missing tile at that id is a null dereference.
   */
  lemma TileMergedUnderImage(loads: ImageLoader, b: Building, child: Node)
    requires b.hasTilesetImage && !EqualsIgnoreCase("image", NodeName(child))
    requires EqualsIgnoreCase("tile", NodeName(child)) && TileOf(child, loads).Ok?
    requires TileOf(child, loads).value.id <= b.tileset.maxTileId
    ensures var tile := TileOf(child, loads).value;
      var r := TilesetChildStep(loads, b, child);
      && (tile.id !in b.tileset.tiles ==> r == Err(NullReference))
      && (tile.id in b.tileset.tiles ==>
            r.Ok? && r.value.hasTilesetImage
            && r.value.tileset.tiles.Keys == b.tileset.tiles.Keys
            && r.value.tileset.maxTileId == b.tileset.maxTileId
            && r.value.tileset.tiles[tile.id] == b.tileset.tiles[tile.id].(properties := tile.properties)
            && forall k :: k in b.tileset.tiles && k != tile.id ==> r.value.tileset.tiles[k] == b.tileset.tiles[k])
  {
  }

  /**
   * The first `image` that yields a texture becomes the tileset image: the
   * tileset then holds a tile under every id the image is cut into, and
   * maxTileId is at least the last of them.
   */
  lemma ImageBringsTiles(loads: ImageLoader, b: Building, child: Node, count: nat)
    requires !b.hasTilesetImage && EqualsIgnoreCase("image", NodeName(child))
    requires ImageOf(child, loads) == Ok(Some(count))
    ensures TilesetChildStep(loads, b, child) == Ok(Building(SetTexture(b.tileset, child, count), true))
    ensures var ts := TilesetChildStep(loads, b, child).value.tileset;
      forall id :: 0 <= id < count ==> id in ts.tiles && id <= ts.maxTileId
  {
  }

  /**
   * An image of `count` tiles followed by a `tile` whose id is below `count`:
   * the tile is merged, not added. The tileset keeps the ids and maxTileId
   * the image gave it, and the tile under that id takes the new properties.
   */
  lemma ImageThenTileMerged(loads: ImageLoader, b: Building, image: Node, child: Node, count: nat)
    requires !b.hasTilesetImage && EqualsIgnoreCase("image", NodeName(image))
    requires ImageOf(image, loads) == Ok(Some(count))
    requires !EqualsIgnoreCase("image", NodeName(child)) && EqualsIgnoreCase("tile", NodeName(child))
    requires TileOf(child, loads).Ok? && 0 <= TileOf(child, loads).value.id < count
    ensures var tile := TileOf(child, loads).value;
      var textured := SetTexture(b.tileset, image, count);
      var r := Fold([image, child], b, TilesetChildStepFn(loads));
      && r.Ok? && r.value.hasTilesetImage
      && r.value.tileset.tiles.Keys == textured.tiles.Keys
      && r.value.tileset.maxTileId == textured.maxTileId
      && r.value.tileset.tiles[tile.id] == Tile(tile.id, None, tile.properties, None)
  {
    var xs := [image, child];
    assert xs[..1] == [image] && xs[..1][..0] == [];
    ImageBringsTiles(loads, b, image, count);
    var b1 := Building(SetTexture(b.tileset, image, count), true);
    assert Fold(xs[..1], b, TilesetChildStepFn(loads)) == Ok(b1);
    TileMergedUnderImage(loads, b1, child);
  }

  /** Reading an inline tileset keeps it valid: tiles filed under their ids, none above maxTileId. */
  lemma {:induction false} InlineTilesetValid(cs: seq<Node>, b: Building, loads: ImageLoader)
    requires b.tileset.Valid()
    requires Fold(cs, b, TilesetChildStepFn(loads)).Ok?
    ensures Fold(cs, b, TilesetChildStepFn(loads)).value.tileset.Valid()
  {
    if cs != [] {
      var prefix := cs[..|cs| - 1];
      InlineTilesetValid(prefix, b, loads);
      var acc := Fold(prefix, b, TilesetChildStepFn(loads)).value;
      var child := cs[|cs| - 1];
      if !EqualsIgnoreCase("image", NodeName(child)) && EqualsIgnoreCase("tile", NodeName(child)) {
        var tile := TileOf(child, loads).value;
        if !acc.hasTilesetImage || tile.id > acc.tileset.maxTileId {
          AddTileValid(acc.tileset, tile);
        }
      } else if EqualsIgnoreCase("image", NodeName(child)) && !acc.hasTilesetImage {
        var texture := ImageOf(child, loads).value;
        if texture.Some? {
          SetTextureValid(acc.tileset, child, texture.value);
        }
      }
    }
  }
}
