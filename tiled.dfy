/**
 * The objects a load produces: tiles, tilesets, tile and object layers and
 * the map. The loader mutates these objects through setters; here each is a
 * value and a setter is a function that returns the updated value.
 *
 * Tile, Tileset, TileLayer and TiledMap are outside the loader's code; the
 * behaviour of the few of their methods the loader calls
 * (`addTile`, `getTile`, `getMaxTileId`, `setTexture`, `setTileAt`,
 * `setTileInstancePropertiesAt`, `addTileset`, `addLayer`) is stated here as
 * the loader relies on it.
 */
module Tiled {
  import opened Results
  import opened Dom

  /** java.util.Properties: string keys to string values. */
  type Properties = map<string, string>

  datatype Tile = Tile(
    id: int,
    terrain: Option<int>,
    properties: Properties,
    image: Option<Node>)        // the last `image` child, whose texture the tile draws

  datatype Tileset = Tileset(
    tileWidth: int,
    tileHeight: int,
    spacing: int,
    margin: int,
    name: Option<string>,
    image: Option<Node>,        // the tileset-wide image, once one is accepted
    tiles: map<int, Tile>,
    maxTileId: int)
  {
    /** Every tile is filed under its own id, and no id exceeds maxTileId. */
    ghost predicate Valid()
    {
      forall k :: k in tiles ==> tiles[k].id == k && k <= maxTileId
    }
  }

  /** new Tileset(tileWidth, tileHeight, spacing, margin): no tiles yet. */
  function NewTileset(tileWidth: int, tileHeight: int, spacing: int, margin: int): (ts: Tileset)
    ensures ts.Valid() && ts.tiles == map[] && ts.maxTileId == -1
    ensures ts.tileWidth == tileWidth && ts.tileHeight == tileHeight
    ensures ts.spacing == spacing && ts.margin == margin
  {
    Tileset(tileWidth, tileHeight, spacing, margin, None, None, map[], -1)
  }

  /** Tileset.addTile: file the tile under its id; maxTileId tracks the largest id. */
  function AddTile(ts: Tileset, t: Tile): (ts': Tileset)
    ensures ts'.tiles == ts.tiles[t.id := t]
    ensures ts'.maxTileId >= ts.maxTileId && ts'.maxTileId >= t.id
    ensures ts'.maxTileId == ts.maxTileId || ts'.maxTileId == t.id
    ensures ts'.(tiles := ts.tiles, maxTileId := ts.maxTileId) == ts
  {
    ts.(tiles := ts.tiles[t.id := t], maxTileId := if t.id > ts.maxTileId then t.id else ts.maxTileId)
  }

  lemma AddTileValid(ts: Tileset, t: Tile)
    requires ts.Valid()
    ensures AddTile(ts, t).Valid()
    ensures GetTile(AddTile(ts, t), t.id) == Some(t)
  {
  }

  /** The tiles an image of `count` tiles is cut into: ids 0 to count - 1, no properties yet. */
  function ImageTiles(count: nat): (m: map<int, Tile>)
    ensures forall id :: id in m <==> 0 <= id < count
    ensures forall id :: id in m ==> m[id] == Tile(id, None, map[], None)
  {
    map id | 0 <= id < count :: Tile(id, None, map[], None)
  }

  /**
   * Tileset.setTexture, with setSource and setMaterial: the tileset image is
   * cut into `count` tiles, filed under ids 0 to count - 1 (replacing any
   * tile there), and maxTileId covers them.
   */
  function SetTexture(ts: Tileset, image: Node, count: nat): (ts': Tileset)
    ensures ts'.tiles.Keys == ts.tiles.Keys + ImageTiles(count).Keys
    ensures forall id :: 0 <= id < count ==> ts'.tiles[id] == Tile(id, None, map[], None)
    ensures forall id :: id in ts.tiles && !(0 <= id < count) ==> ts'.tiles[id] == ts.tiles[id]
    ensures ts'.maxTileId >= ts.maxTileId && ts'.maxTileId >= count - 1
    ensures ts'.maxTileId == ts.maxTileId || ts'.maxTileId == count - 1
    ensures ts'.image == Some(image)
  {
    ts.(image := Some(image), tiles := ts.tiles + ImageTiles(count),
        maxTileId := if count - 1 > ts.maxTileId then count - 1 else ts.maxTileId)
  }

  lemma SetTextureValid(ts: Tileset, image: Node, count: nat)
    requires ts.Valid()
    ensures SetTexture(ts, image, count).Valid()
  {
  }

  /** Tileset.getTile: the tile with that id, or null. */
  function GetTile(ts: Tileset, id: int): (r: Option<Tile>)
    ensures r.Some? <==> id in ts.tiles
    ensures r.Some? ==> r.value == ts.tiles[id]
  {
    if id in ts.tiles then Some(ts.tiles[id]) else None
  }

  /** A tile found in a valid tileset carries the id it was asked for. */
  lemma GetTileId(ts: Tileset, id: int)
    requires ts.Valid() && GetTile(ts, id).Some?
    ensures GetTile(ts, id).value.id == id && id <= ts.maxTileId
  {
  }

  // ---------------------------------------------------------------------------
  // Layers

  /** A tile grid of width*height cells in row-major order, cell (x, y) at x + y*width. */
  datatype TileLayer = TileLayer(
    name: Option<string>,
    width: nat,
    height: nat,
    cells: seq<Option<Tile>>,
    tileProperties: map<(int, int), Properties>,
    properties: Properties,
    offsetX: int,
    offsetY: int,
    visible: bool)

  predicate InGrid(width: int, height: int, x: int, y: int)
  {
    0 <= x < width && 0 <= y < height
  }

  /** TileLayer.setTileAt: writes cell (x, y); a position outside the grid is ignored. */
  function SetTileAt(cells: seq<Option<Tile>>, width: nat, height: nat, x: int, y: int, t: Option<Tile>)
    : (r: seq<Option<Tile>>)
    ensures |r| == |cells|
    ensures InGrid(width, height, x, y) && |cells| == width * height ==>
      0 <= x + y * width < |cells| && r == cells[x + y * width := t]
    ensures !InGrid(width, height, x, y) ==> r == cells
  {
    if !InGrid(width, height, x, y) then cells
    else
      CellIndex(width, height, x, y);
      if x + y * width < |cells| then cells[x + y * width := t] else cells
  }

  /** Row-major position of a cell inside the grid. */
  lemma CellIndex(width: int, height: int, x: int, y: int)
    requires InGrid(width, height, x, y)
    ensures 0 <= x + y * width < width * height
  {
    assert y * width + width == (y + 1) * width;
    assert (y + 1) * width <= height * width;
  }

  /** TileLayer.setTileInstancePropertiesAt: per-cell properties, ignored outside the grid. */
  function SetTileInstanceProperties(tp: map<(int, int), Properties>, width: nat, height: nat,
                                     x: int, y: int, p: Properties): (r: map<(int, int), Properties>)
    ensures InGrid(width, height, x, y) ==> r == tp[(x, y) := p]
    ensures !InGrid(width, height, x, y) ==> r == tp
  {
    if InGrid(width, height, x, y) then tp[(x, y) := p] else tp
  }

  /** An object of an object group; its coordinates, size and shape are not modelled. */
  datatype MapObject = MapObject(
    name: Option<string>,
    objectType: Option<string>,
    tile: Option<Tile>,
    imageSource: string,
    properties: Properties)

  datatype ObjectGroup = ObjectGroup(
    name: Option<string>,
    color: Option<string>,
    width: int,
    height: int,
    draworder: Option<string>,
    visible: bool,
    offsetX: int,
    offsetY: int,
    properties: Properties,
    objects: seq<MapObject>)

  datatype Layer = Tiles(tileLayer: TileLayer) | Objects(objectGroup: ObjectGroup)

  // ---------------------------------------------------------------------------
  // The map

  const ORTHOGONAL: string := "ORTHOGONAL"

  datatype TiledMap = TiledMap(
    width: int,
    height: int,
    orientation: string,
    tileWidth: int,
    tileHeight: int,
    hexSideLength: int,
    staggerAxis: Option<string>,
    staggerIndex: Option<string>,
    backgroundColor: Option<string>,
    properties: Properties,
    tilesets: seq<Tileset>,
    layers: seq<Layer>)

  /** new TiledMap(width, height): no tilesets, layers or properties yet. */
  function NewMap(width: int, height: int): (m: TiledMap)
    ensures m.width == width && m.height == height
    ensures m.tilesets == [] && m.layers == [] && m.properties == map[]
  {
    TiledMap(width, height, ORTHOGONAL, 0, 0, 0, None, None, None, map[], [], [])
  }

  /** TiledMap.addTileset: appends; a null tileset is not added. */
  function AddTileset(m: TiledMap, ts: Option<Tileset>): (m': TiledMap)
    ensures ts.None? ==> m' == m
    ensures ts.Some? ==> m' == m.(tilesets := m.tilesets + [ts.value])
  {
    if ts.Some? then m.(tilesets := m.tilesets + [ts.value]) else m
  }

  /** TiledMap.addLayer: appends. */
  function AddLayer(m: TiledMap, l: Layer): (m': TiledMap)
    ensures m'.layers == m.layers + [l] && m'.(layers := m.layers) == m
  {
    m.(layers := m.layers + [l])
  }
}
