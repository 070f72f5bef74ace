# TMX map loader — a verified model

This project models the core of `TmxLoader`, the jMonkeyEngine asset loader for Tiled `.tmx` maps. The loader reads a parsed XML document into a `TiledMap`:

- it checks that the root element is `map`;
- it settles the map size, from the root's `width`/`height` or from the legacy `dimensions` children of the root;
- it applies the map attributes and properties;
- it loads every `tileset` element of the document into a registry keyed by first global id (a `TreeMap<Integer, Tileset>`);
- it then reads every `layer` and `objectgroup` child, resolving each global tile id through that registry by floor lookup;
- finally it drops the registry.

A layer's `data` element is decoded in one of three encodings:

- base64, four bytes per cell, least significant first, optionally gzip- or zlib-inflated;
- csv, one integer token per cell;
- xml, one `tile` child per cell.

## How the model is built

- The DOM is a datatype of elements, attributes and text (`Dom`).
- Java's `Integer.parseInt`/`Long.parseLong` on ASCII digits, the `(int)` narrowing, and `|` and `<<` on `int` are written out (`JavaInt`). So are `trim` and `split("[\\s]*,[\\s]*")`, and `toUpperCase` and `equalsIgnoreCase` for ASCII letters (`JavaText`).
- The registry is a sorted sequence of entries with `Put` and `Floor` (`FloorMap`, `GidResolver`).
- Each child-walking loop of the source is a `method` with a loop. It is proved equal to a fold over the children (`Folds.Fold`). For the loader's own fields it is proved equal to a walk that keeps the state reached before an exception (`Folds.Walk`).
- The cell grid is an `array` filled in place.
- The loader is the class `Loader.TmxLoader`. Its fields are `tiledMap` (the source's `map`) and `tilesetPerFirstGid`. `ReadMap` and `ReadTileset` update them where the source does.
- Exceptions are `Result`/`Option` values: `LoadError`. A null dereference is `NullReference`.

`Tileset`, `Tile`, `TileLayer`, `ObjectLayer` and `TiledMap` are outside the loader's code; the loader's use of them is assumed as follows. They are datatypes whose setters behave as their names say (`Tiled`):

- `Tileset.addTile` puts the tile by id and raises `maxTileId`, which starts at -1.
- `Tileset.setTexture` cuts the tileset image into tiles with ids 0 to n - 1, replacing any tile under those ids, and raises `maxTileId` to at least n - 1. How many tiles an image holds, n, is given by the image-loading parameter.
- `TileLayer.setTileAt` and `setTileInstancePropertiesAt` ignore cells outside the grid.
- `new TileLayer(w, h)` with a negative side throws.
- `TiledMap.addTileset(null)` adds nothing.

Some behaviour of the code differs from what a reader of the format might expect. The model follows the code:

- `getAttribute` throws on a malformed number; it does not fall back to the default.
- A compression tag `none` is an unknown, non-empty tag and is an error.
- A base64 stream that ends cleanly but early gives a negative id (`-1` OR-ed in), not zero.
- A gzip or zlib stream is inflated only as far as the cells read: damage after the width*height*4 bytes the loop reads is never seen, and a damaged stream throws only when a read passes its end.
- Gzip data in an empty layer throws: the gzip buffer size width*height*4 (an int product) must be positive.
- The xml encoding's missing `gid` is -1.
- The `dimensions` fallback never breaks, so the last valid element wins, not the first.
- A tile merged under a tileset image gets the new tile's properties in place of its own, not merged into them.
- The `map` field keeps whatever was built before an exception, and a later load starts from it.

## Model

| member | source | states |
|---|---|---|
| Dom.IntAttribute | src/com/jme3/tmx/TmxLoader.java:191-210 | absent attribute gives the default; present one gives its `Integer.parseInt` value, or the exception naming the malformed text |
| Dom.IntAttributeFormatted | src/com/jme3/tmx/TmxLoader.java:203-210 | an attribute holding the decimal text of any int reads back as that int, whatever the default |
| Dom.ElementsByTagNameInOrder | src/com/jme3/tmx/TmxLoader.java:238 | the search equals the document-order listing of every element, filtered by tag: nothing missed, nothing added, in document order |
| Dom.ElementsByTagNameComplete | src/com/jme3/tmx/TmxLoader.java:238 | every element of the document with the tag is among those found |
| Dom.DirectChildrenOfRoot | src/com/jme3/tmx/TmxLoader.java:238-240 | the document-wide matches whose parent is the root are exactly the root's children with that tag, in order |
| JavaInt.ParseInt | src/com/jme3/tmx/TmxLoader.java:206 | a parsed value is a 32-bit int |
| JavaInt.ParseLong | src/com/jme3/tmx/TmxLoader.java:728 | a parsed value is a 64-bit long; its value is pinned by the two lemmas below |
| JavaInt.ParseIntFormatInt | src/com/jme3/tmx/TmxLoader.java:612 | parsing the decimal text of any int gives it back |
| JavaInt.ParseLongFormatInt | src/com/jme3/tmx/TmxLoader.java:728 | parsing the decimal text of any long gives it back |
| JavaInt.ParseLongWidensParseInt | src/com/jme3/tmx/TmxLoader.java:728 | `Long.parseLong` reads the same value as `Integer.parseInt` wherever the latter succeeds, and on int-sized values they agree |
| JavaInt.Wrap32 | src/com/jme3/tmx/TmxLoader.java:728 | the narrowing is an int congruent to the value modulo 2^32, and the identity on ints |
| JavaInt.AssembleBytes | src/com/jme3/tmx/TmxLoader.java:574-578 | four bytes OR-ed at shifts 0, 8, 16, 24 give the signed reading of their little-endian sum |
| JavaInt.AssembleTruncated | src/com/jme3/tmx/TmxLoader.java:574-578 | a last read of -1 makes the id negative whatever came before |
| JavaInt.AssembleRoundTrip | src/com/jme3/tmx/TmxLoader.java:574-578 | the four little-endian bytes of any int reassemble to it |
| JavaText.Trim | src/com/jme3/tmx/TmxLoader.java:594 | neither end of the result is a char at or below space, and a string with neither end such a char comes back unchanged |
| JavaText.TrimIsSlice | src/com/jme3/tmx/TmxLoader.java:594 | the result is the input less a leading and a trailing run of chars, every one removed at or below space |
| JavaText.UpperCase | src/com/jme3/tmx/TmxLoader.java:271 | the result equals the input ignoring case and has no lower-case letter |
| JavaText.UpperCaseUnique | src/com/jme3/tmx/TmxLoader.java:271 | that string is unique: any string equal to the input ignoring case and free of lower-case letters is its upper-cased form |
| JavaText.UpperCaseDecidesEquality | src/com/jme3/tmx/TmxLoader.java:357 | two strings are equal ignoring case exactly when their upper-cased forms are equal |
| JavaText.DropTrailingEmpty | src/com/jme3/tmx/TmxLoader.java:602 | a prefix whose last token is non-empty, dropping only empty tokens |
| JavaText.SplitJoin | src/com/jme3/tmx/TmxLoader.java:594-602 | splitting tokens joined by commas gives back the tokens |
| FloorMap.Put | src/com/jme3/tmx/TmxLoader.java:870-872 | stays sorted; keys gain the key; as a map it is the old map with the key bound to the value |
| FloorMap.Floor | src/com/jme3/tmx/TmxLoader.java:866-868 | none exactly when every key is above the id; otherwise an entry of the registry whose key is the greatest at or below the id |
| FloorMap.FloorOfMap | src/com/jme3/tmx/TmxLoader.java:866-868 | the floor read on the map view: none iff every key is above the id, else the greatest key below and its value |
| GidResolver.Register | src/com/jme3/tmx/TmxLoader.java:870-872 | the registry as a map gains the tileset under the first id, replacing any earlier one |
| GidResolver.TileForGid | src/com/jme3/tmx/TmxLoader.java:847-868 | with k the greatest registered first id at or below the id, the tile at local id gid - k (an int subtraction) of tileset k; no tile when every first id is above the id |
| GidResolver.ResolveByGreatestFirstGid | src/com/jme3/tmx/TmxLoader.java:847-868 | for a given greatest first id k at or below the id, the tile is tileset k's at local id gid - k, with no wrap-around when both are non-negative ints |
| GidResolver.ResolveBelowEveryFirstGid | src/com/jme3/tmx/TmxLoader.java:847-868 | an id below every registered first id resolves to no tile |
| GidResolver.NonPositiveGidUnresolved | src/com/jme3/tmx/TmxLoader.java:847-868 | with positive first ids, an id at or below 0 resolves to no tile |
| GidResolver.RegisterOverwrites | src/com/jme3/tmx/TmxLoader.java:870-872 | registering twice under one first id leaves only the second tileset |
| GidResolver.RegisteredTilesetServes | src/com/jme3/tmx/TmxLoader.java:847-872 | after registering, ids from the first id up to the next first id resolve into that tileset |
| Tiled.NewTileset | src/com/jme3/tmx/TmxLoader.java:346 | no tiles, maxTileId -1, the given sizes |
| Tiled.AddTile | src/com/jme3/tmx/TmxLoader.java:380 | the tile is put under its id; maxTileId becomes the larger of the old one and the id; nothing else changes |
| Tiled.AddTileValid | src/com/jme3/tmx/TmxLoader.java:380 | adding keeps every tile under its own id and not above maxTileId, and the tile is then found by id |
| Tiled.SetTileAt | src/com/jme3/tmx/TmxLoader.java:834 | inside the grid only cell x + y*width changes; outside nothing does |
| Tiled.NewMap | src/com/jme3/tmx/TmxLoader.java:236 | the given size, no tilesets, layers or properties |
| Tiled.AddLayer | src/com/jme3/tmx/TmxLoader.java:309-318 | the layer is appended and nothing else changes |
| PropertyReader.ReadProperties | src/com/jme3/tmx/TmxLoader.java:797-819 | the loop and its recursion into `properties` compute the property-reading function |
| PropertyReader.PropertiesErrStops | src/com/jme3/tmx/TmxLoader.java:797-819 | once reading throws, later children do not matter |
| PropertyReader.ValueAttributeWins | src/com/jme3/tmx/TmxLoader.java:801-813 | a named property with a `value` attribute sets that value |
| PropertyReader.TextValueFallback | src/com/jme3/tmx/TmxLoader.java:803-813 | without `value`, the trimmed first text child is stored |
| PropertyReader.NoValueNoChange | src/com/jme3/tmx/TmxLoader.java:812 | with neither, the properties are unchanged |
| PropertyReader.PropertiesAppend | src/com/jme3/tmx/TmxLoader.java:798-818 | reading a + b is reading a then b from its result |
| PropertyReader.LastWriteWins | src/com/jme3/tmx/TmxLoader.java:813 | a later property replaces the earlier value of its name |
| PropertyReader.NamelessPropertyThrows | src/com/jme3/tmx/TmxLoader.java:801-813 | a property with a value and no name throws |
| PropertyReader.PropertiesKeepKeys | src/com/jme3/tmx/TmxLoader.java:797-819 | reading never removes a property name |
| PropertyReader.StepKeepsKeys | src/com/jme3/tmx/TmxLoader.java:800-817 | one child, including a nested `properties`, never removes a property name |
| TilePayload.SetTileAtFromTileId | src/com/jme3/tmx/TmxLoader.java:833-835 | the grid becomes the cell update with the id's resolved tile |
| TilePayload.CompressionOf | src/com/jme3/tmx/TmxLoader.java:556-570 | an error exactly for a non-empty tag other than gzip/zlib (any case), naming the tag; uncompressed exactly when absent or empty |
| TilePayload.ReadByte | src/com/jme3/tmx/TmxLoader.java:575-578 | the byte at the position inside the stream, and -1 exactly past its end |
| TilePayload.FillBase64 | src/com/jme3/tmx/TmxLoader.java:572-582 | throws exactly when a read passes the end of a stream that does not end cleanly; otherwise after the nested y/x loops every cell holds the resolution of its four-byte id, in row-major order |
| TilePayload.Base64LittleEndian | src/com/jme3/tmx/TmxLoader.java:574-578 | a cell with four bytes left gets the signed little-endian reading of them |
| TilePayload.Base64Truncated | src/com/jme3/tmx/TmxLoader.java:574-578 | a cell past the end of the stream gets a negative id, which resolves to no tile when first ids are positive |
| TilePayload.Base64RoundTrip | src/com/jme3/tmx/TmxLoader.java:572-582 | the ids of the little-endian encoding of any ints are those ints |
| TilePayload.ParseTokens | src/com/jme3/tmx/TmxLoader.java:611-612 | succeeds exactly when every token parses, then with each token's value |
| TilePayload.ParseTokensFirstError | src/com/jme3/tmx/TmxLoader.java:609-616 | the exception names the first malformed token |
| TilePayload.FillCsv | src/com/jme3/tmx/TmxLoader.java:609-616 | fails exactly when a token is malformed; otherwise cell x + y*width holds token x + y*width's tile |
| TilePayload.CsvRoundTrip | src/com/jme3/tmx/TmxLoader.java:594-612 | trimming, splitting and parsing the comma-joined decimal text of any ints gives them back |
| TilePayload.FillXml | src/com/jme3/tmx/TmxLoader.java:618-634 | the cursor loop with its break fills the grid as the xml fold does, or throws its exception |
| TilePayload.XmlStoppedStays | src/com/jme3/tmx/TmxLoader.java:630-632 | once the cursor reaches the last row, later children change nothing |
| TilePayload.XmlMissingGid | src/com/jme3/tmx/TmxLoader.java:622-623 | a `tile` without `gid` writes the resolution of -1 at the cursor |
| TilePayload.XmlAdvance | src/com/jme3/tmx/TmxLoader.java:625-632 | the cursor wraps at the width into the next row, reaching the height exactly after width*height tiles |
| TilePayload.XmlRowMajor | src/com/jme3/tmx/TmxLoader.java:618-634 | after n ≤ width*height tiles, cell k < n holds tile k's resolution, other cells are untouched, and the fill stopped exactly when n = width*height |
| TilePayload.XmlSurplusIgnored | src/com/jme3/tmx/TmxLoader.java:630-632 | tiles after a full grid are ignored |
| LayerReader.ReadData | src/com/jme3/tmx/TmxLoader.java:545-635 | the `data` element fills the grid in place as the data function says, or throws its exception |
| LayerReader.ReadTileProperties | src/com/jme3/tmx/TmxLoader.java:636-648 | the `tileproperties` loop computes the fold of per-cell property maps |
| LayerReader.EmptyLayer | src/com/jme3/tmx/TmxLoader.java:527 | width*height empty cells |
| LayerReader.ReadTileLayer | src/com/jme3/tmx/TmxLoader.java:523-664 | allocating the grid and walking the children computes the tile-layer function |
| LayerReader.LayerCellsIgnoreOffset | src/com/jme3/tmx/TmxLoader.java:652-661 | offset and visibility are applied after the cells: without the `x`, `y` and `visible` attributes the layer is the same but at offset 0 and visible, and with them it takes their parsed values |
| LayerReader.LayerSizeDefaults | src/com/jme3/tmx/TmxLoader.java:524-525 | without width/height attributes the layer takes the map's size and has that many cells |
| LayerReader.LayerCellCount | src/com/jme3/tmx/TmxLoader.java:523-664 | a read layer has exactly width*height cells, its sizes the parsed attributes |
| LayerReader.FoldKeepsCellCount | src/com/jme3/tmx/TmxLoader.java:542-650 | walking the children never changes the number of cells |
| LayerReader.DataKeepsCellCount | src/com/jme3/tmx/TmxLoader.java:545-635 | any encoding keeps the number of cells |
| LayerReader.XmlKeepsCellCount | src/com/jme3/tmx/TmxLoader.java:618-634 | the xml fill keeps the number of cells |
| LayerReader.Base64ReplacesAll | src/com/jme3/tmx/TmxLoader.java:549-583 | base64 data overwrites every cell: the result does not depend on the cells before |
| LayerReader.UnknownCompressionRejected | src/com/jme3/tmx/TmxLoader.java:563-567 | an unknown compression tag on base64 text that decodes, or any csv compression tag, throws naming it |
| LayerReader.MalformedPayloadRejected | src/com/jme3/tmx/TmxLoader.java:552-581 | text that is not base64 throws whatever the compression tag; past that, the layer throws BadPayload exactly when the GZIPInputStream constructor rejects the gzip header or a read passes the end of a stream that does not end cleanly, so damage after the bytes read is accepted |
| LayerReader.GzipBufferRejected | src/com/jme3/tmx/TmxLoader.java:556-559 | gzip data throws the buffer-size exception exactly when the int product width*height*4 is not positive, so always in an empty layer |
| LayerReader.CsvCountMismatch | src/com/jme3/tmx/TmxLoader.java:604-607 | a csv token count other than height*width throws |
| LayerReader.CsvLayerRoundTrip | src/com/jme3/tmx/TmxLoader.java:584-616 | csv data (encoding `csv` in any case, no or empty compression) written from any ints fills the grid with their tiles |
| LayerReader.CsvData | src/com/jme3/tmx/TmxLoader.java:584-616 | csv data (encoding `csv` in any case, no or empty compression) with height*width tokens fills the grid with their tiles when every token parses, and otherwise throws the exception naming the first malformed token |
| LayerReader.SingleTextContent | src/com/jme3/tmx/TmxLoader.java:585 | an element with one text child has that text as its text content |
| LayerReader.Base64LayerRoundTrip | src/com/jme3/tmx/TmxLoader.java:549-583 | base64 data whose stream delivers the encoding of any ints fills the grid with their tiles, whether or not the stream then ends cleanly |
| TilesetReader.FirstNamed | src/com/jme3/tmx/TmxLoader.java:488-502 | the first child with the name, or none when no child has it |
| TilesetReader.ImageOf | src/com/jme3/tmx/TmxLoader.java:476-513 | throws exactly when the embedded `data` child's first child is not text (a null dereference, checked first), or `width` or `height` is malformed, the width's exception before the height's; otherwise the texture the image loads, if any |
| TilesetReader.ImageReadable | src/com/jme3/tmx/TmxLoader.java:480-513 | an image with a `source` and int `width` and `height` is read without an exception |
| TilesetReader.ReadTile | src/com/jme3/tmx/TmxLoader.java:415-462 | the tile loop computes the tile function |
| TilesetReader.TileRead | src/com/jme3/tmx/TmxLoader.java:415-462 | a read tile has the `id` attribute or -1, a terrain exactly when `terrain` is present, the properties of its children and its last `image` child |
| TilesetReader.ReadTilesetChildren | src/com/jme3/tmx/TmxLoader.java:350-405 | the loop with the hasTilesetImage flag computes the inline tileset fold, failing exactly when it does |
| TilesetReader.LaterImageSkipped | src/com/jme3/tmx/TmxLoader.java:358-362 | after a tileset image, another `image` changes nothing |
| TilesetReader.TileAddedWithoutImage | src/com/jme3/tmx/TmxLoader.java:377-380 | without a tileset image, a `tile` is added |
| TilesetReader.TileMergedUnderImage | src/com/jme3/tmx/TmxLoader.java:377-403 | under a tileset image, a tile with id ≤ maxTileId replaces the existing tile's properties, or throws when that id has no tile |
| TilesetReader.ImageBringsTiles | src/com/jme3/tmx/TmxLoader.java:363-372 | the first image with a texture becomes the tileset image, and the tileset then holds a tile under every id the image is cut into |
| TilesetReader.ImageThenTileMerged | src/com/jme3/tmx/TmxLoader.java:363-403 | an image followed by a `tile` whose id lies inside the image's range merges that tile: no id is added, maxTileId stays, and the tile takes the new properties |
| TilesetReader.InlineTilesetValid | src/com/jme3/tmx/TmxLoader.java:350-405 | an inline tileset keeps each tile under its own id, none above maxTileId |
| ObjectReader.ReadObjectNode | src/com/jme3/tmx/TmxLoader.java:710-781 | the object loop, stopping at the first `image`, computes the object function |
| ObjectReader.ReadImageSource | src/com/jme3/tmx/TmxLoader.java:732-775 | the child loop yields the source of the first `image` child (a relative path prefixed with the unset xmlPath), or the null dereference of a polygon or polyline without points met before it |
| ObjectReader.ReadObjectLayer | src/com/jme3/tmx/TmxLoader.java:666-708 | the object-group loop computes the object-group function |
| ObjectReader.ObjectGidNarrowed | src/com/jme3/tmx/TmxLoader.java:725-730 | an object's gid resolves as its long value narrowed to int: unchanged for ints, minus 2^32 from 2^31 to 2^32 |
| ObjectReader.ObjectsInOrder | src/com/jme3/tmx/TmxLoader.java:698-705 | the k-th object is the one read from the k-th `object` child, and there are as many objects as such children |
| Folds.FoldErr | src/com/jme3/tmx/TmxLoader.java:542-650 | an exception ends a child walk: nothing after it is visited |
| Folds.FoldAppend | src/com/jme3/tmx/TmxLoader.java:542-650 | walking a + b is walking a then b |
| Folds.WalkErr | src/com/jme3/tmx/TmxLoader.java:299-322 | after an exception the fields keep the state reached before it |
| Folds.WalkFold | src/com/jme3/tmx/TmxLoader.java:299-322 | the walk over the fields fails exactly when the fold does, with the same exception, and otherwise reaches the same state |
| Loader.PreparedOf | src/com/jme3/tmx/TmxLoader.java:222-297 | when no exception is thrown, the map field holds a map |
| Loader.TmxLoader.constructor | src/com/jme3/tmx/TmxLoader.java:64-66 | a new loader has no map and no registry |
| Loader.TilesetRead | src/com/jme3/tmx/TmxLoader.java:325-413 | an exception or a null tileset leaves the registry as it was; a tileset that is returned is in the registry afterwards |
| Loader.TilesetReadIsStep | src/com/jme3/tmx/TmxLoader.java:299-304 | with a registry present, reading one tileset is one step of the tileset pass: same exception, same registry, the returned tileset appended to the map |
| Loader.TmxLoader.ReadTileset | src/com/jme3/tmx/TmxLoader.java:325-413 | the tileset is read (external or inline) and, when non-null, registered under `firstgid` (default 1); with no registry that put throws; the map field is untouched |
| Loader.TmxLoader.ReadDimension | src/com/jme3/tmx/TmxLoader.java:241-248 | one `dimensions` element: a root child whose two sizes are positive replaces the map field by a new map of that size; a malformed size throws and leaves the field; anything else leaves it |
| Loader.TmxLoader.ReadDimensions | src/com/jme3/tmx/TmxLoader.java:238-250 | the `dimensions` loop leaves the field and exception of the dimensions walk |
| Loader.TmxLoader.ReadTilesets | src/com/jme3/tmx/TmxLoader.java:299-304 | the tileset loop leaves the fields of the tileset walk over every `tileset` element |
| Loader.TmxLoader.ReadLayers | src/com/jme3/tmx/TmxLoader.java:306-321 | the layer loop leaves the map of the layer walk and keeps the registry |
| Loader.TmxLoader.ReadMap | src/com/jme3/tmx/TmxLoader.java:222-323 | both fields and the exception are those of the readMap function of the document and the old fields |
| MapRules.DimensionWalk | src/com/jme3/tmx/TmxLoader.java:238-250 | the loop leaves a new map of the last valid root-child size, or the old field when there is none |
| MapRules.TilesetWalkAppends | src/com/jme3/tmx/TmxLoader.java:299-304 | the tileset pass only appends tilesets |
| MapRules.TilesetWalkRegisters | src/com/jme3/tmx/TmxLoader.java:299-304 | the registry's first ids are exactly those of the elements that yield a tileset, and each such tileset is added to the map |
| MapRules.TilesetStepRegisters | src/com/jme3/tmx/TmxLoader.java:299-304 | one `tileset` element adds its first id to the registry's keys, and one tileset to the map, exactly when it yields a tileset |
| MapRules.LayerWalk | src/com/jme3/tmx/TmxLoader.java:306-321 | the layer pass only appends: one layer per `layer`/`objectgroup` child in order, a tile layer exactly for `layer` |
| MapRules.Assembled | src/com/jme3/tmx/TmxLoader.java:222-323 | a complete load is the prepared map with tilesets and layers appended |
| MapRules.NotAMapRejected | src/com/jme3/tmx/TmxLoader.java:227-229 | a root not named `map` throws and changes nothing |
| MapRules.RootSizeWins | src/com/jme3/tmx/TmxLoader.java:232-236 | positive root sizes give the size; orientation defaults to ORTHOGONAL; tile width is set only when positive; the registry is dropped; tileset and layer counts match the document |
| MapRules.PreparedAttributes | src/com/jme3/tmx/TmxLoader.java:232-279 | with positive root sizes the prepared map is a new map of that size with no tilesets or layers; orientation defaults to ORTHOGONAL; tile width is taken only when positive |
| MapRules.PreparedSize | src/com/jme3/tmx/TmxLoader.java:232-297 | the attributes and properties read after the size leave the size unchanged |
| MapRules.DimensionsFallback | src/com/jme3/tmx/TmxLoader.java:237-250 | otherwise the last root `dimensions` child with positive sizes decides, or the old map's size stays |
| MapRules.NoDimensionsRejected | src/com/jme3/tmx/TmxLoader.java:252-255 | with no size anywhere and no earlier map, readMap throws and leaves no map |
| MapRules.StaleMapReused | src/com/jme3/tmx/TmxLoader.java:252-321 | with no size anywhere, a map left by an earlier load is extended: its size, tilesets, layers and property names are kept |
| MapRules.LayersSeeEveryTileset | src/com/jme3/tmx/TmxLoader.java:299-321 | every layer is read against a registry holding every yielded tileset's first id, later ones included |

## Left out

- XML parsing, the DTD entity resolver and `loadMap`'s exception swallowing. The document is an already-built tree, and `ReadMap` reports the exception it would throw.
- `load`'s dispatch on the file extension, and `loadTileSet(InputStream)` for `.tsx` files. `ReadTileset` models what that path reaches: with no registry, registering the tileset throws.
- Base64 decoding and gzip/zlib inflation. They are the parameter `decode`: `base64` gives the decoded bytes or rejects the text, and `inflate` gives the stream's bytes and whether it ends cleanly, or rejects a gzip header. Either rejection is the exception `BadPayload`. A damaged zlib header is a stream with no bytes that does not end cleanly, since InflaterInputStream reads nothing until the first `read()`. Reading past a clean end gives -1; reading past an unclean end throws `BadPayload`.
- The gzip buffer size changes no byte; only its rejection when it is not positive is modelled.
- TilePayload.FillBase64: when a read throws, the contract says nothing about the cells written before it; the layer is discarded with them.
- Asset and texture loading: `loadTileSet(String)`, `toJmeAssetPath`, `loadTexture2D`, materials and `TileGeom` sprites.
  - An external tileset is the parameter `externalTileset` applied to folder + source.
  - Whether an image yields a texture, and how many tiles a tileset image is cut into, is the parameter `loads`.
  - The exceptions of these paths are not modelled: `toJmeAssetPath` throwing when it cannot locate the asset, a malformed embedded image's base64 data, and the sprite sizing's division by the map's tile width and height.
  - Re-entrant use of the same loader by the asset manager is not modelled.
- Floating-point values: opacity, tile probability, object x/y/width/height, and polygon point parsing with `Ellipse`/`Polygon` shapes. Their parse errors are not modelled either. A `polygon`/`polyline` without `points` throws, as in the source.
- `ColorUtil.toColorRGBA`: colours are kept as their attribute text.
- `TiledMap.setOrientation` stores the upper-cased text; any validation it may do is not modelled.
- Logging, `TiledMapAppState`, `ImageHelper`, `TestPainter` and `ObjectNode.java`. A map object is the datatype `MapObject`, holding name, type, tile, image source and properties.
- Identity and aliasing between Java objects, for example the same `Tileset` object held by both the map and the registry. The model holds values.
- JavaText.UpperCase: only ASCII letters are upper-cased; Java's full Unicode case mapping is not modelled.
- JavaText.EqualsIgnoreCase: only ASCII letters compare ignoring case. Java also matches, for example, "ba\u017Fe64" with "base64"; the model does not.
- JavaInt.ParseInt: only ASCII digits are read; Java also accepts other Unicode decimal digits.
- JavaInt.ParseLong: only ASCII digits are read, as for ParseInt.
- LayerReader.ReadTileLayer: `width * height` is an unbounded product, so the 32-bit overflow of a huge layer is not modelled.
- Loader.PreparedOf: properties read into the map before a nameless property throws stay in the source's map. The model's map field does not keep them.
- File.isAbsolute is modelled as a leading `/`.
