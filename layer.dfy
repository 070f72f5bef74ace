/**
 * readTileLayer: a `layer` element becomes a TileLayer. Its attributes give
 * the size (defaulting to the map's), offset and visibility; its `data`
 * children fill the grid and its `tileproperties` children attach
 * properties to single cells. Offset and visibility are set only after all
 * children have been read.
 */
module LayerReader {
  import opened Results
  import opened JavaText
  import opened Dom
  import opened Folds
  import opened Tiled
  import opened GidResolver
  import opened PropertyReader
  import opened TilePayload

  /** What one `data` element makes of the grid. */
  function DataCells(cells: seq<Option<Tile>>, width: nat, height: nat, child: Node, reg: Registry,
                     decode: Decoder): Result<seq<Option<Tile>>>
  {
    var encoding := AttributeValue(child, "encoding");
    var comp := AttributeValue(child, "compression");
    if MatchesIgnoreCase("base64", encoding) then
      match FirstChild(child)
      case None => Ok(cells)
      case Some(cdata) =>
        match NodeValue(cdata)
        case None => Err(NullReference)
        case Some(text) => Base64Cells(Trim(text), comp, width, height, reg, decode)
    else if MatchesIgnoreCase("csv", encoding) then CsvCells(TextContent(child), comp, width, height, reg)
    else
      var c :- XmlFill(Children(child), width, height, reg, cells);
      Ok(c.cells)
  }

  /** Base64 character data, trimmed: it overwrites the whole grid, or throws. */
  function Base64Cells(enc: string, comp: Option<string>, width: nat, height: nat, reg: Registry,
                       decode: Decoder): Result<seq<Option<Tile>>>
  {
    // the text is decoded before the compression tag is looked at
    match decode.base64(enc)
    case None => Err(BadPayload)
    case Some(dec) =>
      var c :- CompressionOf(comp);
      if GzipSizeRejected(c, width, height) then Err(BadBufferSize)
      else
        match OpenStream(dec, c, decode)
        case None => Err(BadPayload)
        case Some(s) => StreamCells(s, width * height, reg)
  }

  /** The cell loop over an opened stream: n cells of four bytes each, or the exception of a read. */
  function StreamCells(s: Stream, n: nat, reg: Registry): Result<seq<Option<Tile>>>
  {
    if ReadsPastEnd(s, n) then Err(BadPayload)
    else Ok(ResolveAll(Base64Gids(s.bytes, n), reg))
  }

  /** Csv character data: one token per cell, or the compression, count or number exception. */
  function CsvCells(text: string, comp: Option<string>, width: nat, height: nat, reg: Registry)
    : Result<seq<Option<Tile>>>
  {
    if comp.Some? && comp.value != "" then Err(BadCompression(comp.value))
    else
      var tokens := SplitCsv(Trim(text));
      if |tokens| != height * width then Err(TileCountMismatch)
      else
        var gids :- ParseTokens(tokens);
        Ok(ResolveAll(gids, reg))
  }

  /** One `data` element read into the layer's grid. */
  method ReadData(grid: array<Option<Tile>>, width: nat, height: nat, child: Node, reg: Registry,
                  decode: Decoder) returns (r: Result<()>)
    requires grid.Length == width * height
    modifies grid
    ensures r.Err? <==> DataCells(old(grid[..]), width, height, child, reg, decode).Err?
    ensures r.Err? ==> r.error == DataCells(old(grid[..]), width, height, child, reg, decode).error
    ensures r.Ok? ==> grid[..] == DataCells(old(grid[..]), width, height, child, reg, decode).value
  {
    var encoding := AttributeValue(child, "encoding");
    var comp := AttributeValue(child, "compression");
    if MatchesIgnoreCase("base64", encoding) {
      var cdata := FirstChild(child);
      if cdata.Some? {
        var text := NodeValue(cdata.value);
        if text.None? {
          return Err(NullReference);
        }
        var enc := Trim(text.value);
        var dec := decode.base64(enc);
        if dec.None? {
          return Err(BadPayload);
        }
        var compression := CompressionOf(comp);
        if compression.Err? {
          return Err(compression.error);
        }
        if compression.value == Gzip {
          var len := GzipBufferSize(width, height);
          if len <= 0 {
            return Err(BadBufferSize);
          }
        }
        var stream := OpenStream(dec.value, compression.value, decode);
        if stream.None? {
          return Err(BadPayload);
        }
        r := FillBase64(grid, width, height, stream.value, reg);
        return;
      }
      r := Ok(());
    } else if MatchesIgnoreCase("csv", encoding) {
      var csvText := TextContent(child);
      if comp.Some? && comp.value != "" {
        return Err(BadCompression(comp.value));
      }
      var csvTileIds := SplitCsv(Trim(csvText));
      if |csvTileIds| != height * width {
        return Err(TileCountMismatch);
      }
      r := FillCsv(grid, width, height, csvTileIds, reg);
    } else {
      r := FillXml(grid, width, height, Children(child), reg);
    }
  }

  /** One child of a `tileproperties` element: a `tile` with x, y and its properties. */
  function TilePropertiesStep(width: nat, height: nat, tp: map<(int, int), Properties>, tpn: Node)
    : Result<map<(int, int), Properties>>
  {
    if EqualsIgnoreCase("tile", NodeName(tpn)) then
      var x :- IntAttribute(tpn, "x", -1);
      var y :- IntAttribute(tpn, "y", -1);
      var tip :- PropertiesOf(Children(tpn), map[]);
      Ok(SetTileInstanceProperties(tp, width, height, x, y, tip))
    else Ok(tp)
  }

  function TilePropertiesStepFn(width: nat, height: nat)
    : (map<(int, int), Properties>, Node) -> Result<map<(int, int), Properties>>
  {
    (tp, n) => TilePropertiesStep(width, height, tp, n)
  }

  /** The loop over a `tileproperties` element's children. */
  method ReadTileProperties(tpns: seq<Node>, width: nat, height: nat, tp: map<(int, int), Properties>)
    returns (r: Result<map<(int, int), Properties>>)
    ensures r == Fold(tpns, tp, TilePropertiesStepFn(width, height))
  {
    var acc := tp;
    var i := 0;
    while i < |tpns|
      invariant 0 <= i <= |tpns|
      invariant Fold(tpns[..i], tp, TilePropertiesStepFn(width, height)) == Ok(acc)
    {
      var tpn := tpns[i];
      FoldStep(tpns, i, tp, TilePropertiesStepFn(width, height));
      if EqualsIgnoreCase("tile", NodeName(tpn)) {
        var x := IntAttribute(tpn, "x", -1);
        var y := IntAttribute(tpn, "y", -1);
        var tip: Result<Properties> := Err(NullReference);
        if x.Ok? && y.Ok? {
          tip := ReadProperties(Children(tpn), map[]);
        }
        if x.Err? || y.Err? || tip.Err? {
          FoldErr(tpns, i + 1, tp, TilePropertiesStepFn(width, height));
          return if x.Err? then Err(x.error) else if y.Err? then Err(y.error) else Err(tip.error);
        }
        acc := SetTileInstanceProperties(acc, width, height, x.value, y.value, tip.value);
      }
      i := i + 1;
    }
    assert tpns[..i] == tpns;
    r := Ok(acc);
  }

  /** One child of the `layer` element. */
  function LayerChildStep(reg: Registry, decode: Decoder, layer: TileLayer, child: Node): Result<TileLayer>
  {
    if EqualsIgnoreCase("data", NodeName(child)) then
      var cells :- DataCells(layer.cells, layer.width, layer.height, child, reg, decode);
      Ok(layer.(cells := cells))
    else if EqualsIgnoreCase("tileproperties", NodeName(child)) then
      var tp :- Fold(Children(child), layer.tileProperties, TilePropertiesStepFn(layer.width, layer.height));
      Ok(layer.(tileProperties := tp))
    else Ok(layer)
  }

  function LayerChildStepFn(reg: Registry, decode: Decoder): (TileLayer, Node) -> Result<TileLayer>
  {
    (layer, child) => LayerChildStep(reg, decode, layer, child)
  }

  /** A layer of the given size with no tile in any cell. */
  function EmptyLayer(name: Option<string>, width: nat, height: nat, props: Properties): (l: TileLayer)
    ensures |l.cells| == width * height && forall k :: 0 <= k < |l.cells| ==> l.cells[k].None?
  {
    TileLayer(name, width, height, seq(width * height, _ => None), map[], props, 0, 0, true)
  }

  /** readTileLayer, with the map's size and the tileset registry as the loader holds them. */
  function TileLayerOf(t: Node, mapWidth: int, mapHeight: int, reg: Registry, decode: Decoder)
    : Result<TileLayer>
  {
    var layerWidth :- IntAttribute(t, "width", mapWidth);
    var layerHeight :- IntAttribute(t, "height", mapHeight);
    if layerWidth < 0 || layerHeight < 0 then Err(NegativeSize)
    else
      var offsetX :- IntAttribute(t, "x", 0);
      var offsetY :- IntAttribute(t, "y", 0);
      var visible :- IntAttribute(t, "visible", 1);
      var props :- PropertiesOf(Children(t), map[]);
      var empty := EmptyLayer(AttributeValue(t, "name"), layerWidth, layerHeight, props);
      var loaded :- Fold(Children(t), empty, LayerChildStepFn(reg, decode));
      Ok(loaded.(offsetX := offsetX, offsetY := offsetY, visible := visible == 1))
  }

  method ReadTileLayer(t: Node, mapWidth: int, mapHeight: int, reg: Registry, decode: Decoder)
    returns (r: Result<TileLayer>)
    ensures r == TileLayerOf(t, mapWidth, mapHeight, reg, decode)
  {
    var layerWidth :- IntAttribute(t, "width", mapWidth);
    var layerHeight :- IntAttribute(t, "height", mapHeight);
    if layerWidth < 0 || layerHeight < 0 {
      return Err(NegativeSize);
    }
    var grid := new Option<Tile>[layerWidth * layerHeight](_ => None);
    var offsetX :- IntAttribute(t, "x", 0);
    var offsetY :- IntAttribute(t, "y", 0);
    var visible :- IntAttribute(t, "visible", 1);
    var name := AttributeValue(t, "name");
    var props :- ReadProperties(Children(t), map[]);

    var children := Children(t);
    ghost var empty := EmptyLayer(name, layerWidth, layerHeight, props);
    assert grid[..] == empty.cells;
    var tileProps: map<(int, int), Properties> := map[];
    var i := 0;
    while i < |children|
      invariant 0 <= i <= |children|
      invariant Fold(children[..i], empty, LayerChildStepFn(reg, decode)) ==
        Ok(TileLayer(name, layerWidth, layerHeight, grid[..], tileProps, props, 0, 0, true))
    {
      var child := children[i];
      FoldStep(children, i, empty, LayerChildStepFn(reg, decode));
      if EqualsIgnoreCase("data", NodeName(child)) {
        var res := ReadData(grid, layerWidth, layerHeight, child, reg, decode);
        if res.Err? {
          FoldErr(children, i + 1, empty, LayerChildStepFn(reg, decode));
          return Err(res.error);
        }
      } else if EqualsIgnoreCase("tileproperties", NodeName(child)) {
        var res := ReadTileProperties(Children(child), layerWidth, layerHeight, tileProps);
        if res.Err? {
          FoldErr(children, i + 1, empty, LayerChildStepFn(reg, decode));
          return Err(res.error);
        }
        tileProps := res.value;
      }
      i := i + 1;
    }
    assert children[..i] == children;
    // offset and visibility are applied only now, after the cells
    r := Ok(TileLayer(name, layerWidth, layerHeight, grid[..], tileProps, props, offsetX, offsetY, visible == 1));
  }

  // ---------------------------------------------------------------------------
  // Properties of readTileLayer

  /**
   * Offset and visibility never move or change a cell: a layer reads the
   * same cells and cell properties as the same element without its `x`, `y`
   * and `visible` attributes, and only then takes those attributes.
   */
  lemma LayerCellsIgnoreOffset(t: Node, mapWidth: int, mapHeight: int, reg: Registry, decode: Decoder)
    requires t.Element? && TileLayerOf(t, mapWidth, mapHeight, reg, decode).Ok?
    ensures var bare := Element(t.tag, t.attributes - {"x", "y", "visible"}, t.children);
      var l := TileLayerOf(t, mapWidth, mapHeight, reg, decode).value;
      var b := TileLayerOf(bare, mapWidth, mapHeight, reg, decode);
      && b.Ok? && b.value == l.(offsetX := 0, offsetY := 0, visible := true)
      && l.offsetX == IntAttribute(t, "x", 0).value && l.offsetY == IntAttribute(t, "y", 0).value
      && l.visible == (IntAttribute(t, "visible", 1).value == 1)
  {
    var bare := Element(t.tag, t.attributes - {"x", "y", "visible"}, t.children);
    assert AttributeValue(bare, "width") == AttributeValue(t, "width");
    assert AttributeValue(bare, "height") == AttributeValue(t, "height");
    assert AttributeValue(bare, "name") == AttributeValue(t, "name");
    assert AttributeValue(bare, "x").None? && AttributeValue(bare, "y").None?;
    assert AttributeValue(bare, "visible").None?;
  }

  /** Without `width` and `height` attributes the layer has the map's size. */
  lemma LayerSizeDefaults(t: Node, mapWidth: int, mapHeight: int, reg: Registry, decode: Decoder)
    requires AttributeValue(t, "width").None? && AttributeValue(t, "height").None?
    requires TileLayerOf(t, mapWidth, mapHeight, reg, decode).Ok?
    ensures TileLayerOf(t, mapWidth, mapHeight, reg, decode).value.width == mapWidth
    ensures TileLayerOf(t, mapWidth, mapHeight, reg, decode).value.height == mapHeight
    ensures |TileLayerOf(t, mapWidth, mapHeight, reg, decode).value.cells| == mapWidth * mapHeight
  {
    LayerCellCount(t, mapWidth, mapHeight, reg, decode);
  }

  /** A layer always holds width*height cells. */
  lemma LayerCellCount(t: Node, mapWidth: int, mapHeight: int, reg: Registry, decode: Decoder)
    requires TileLayerOf(t, mapWidth, mapHeight, reg, decode).Ok?
    ensures var l := TileLayerOf(t, mapWidth, mapHeight, reg, decode).value;
      && |l.cells| == l.width * l.height
      && l.width == IntAttribute(t, "width", mapWidth).value
      && l.height == IntAttribute(t, "height", mapHeight).value
  {
    var w := IntAttribute(t, "width", mapWidth).value;
    var h := IntAttribute(t, "height", mapHeight).value;
    var props := PropertiesOf(Children(t), map[]).value;
    var empty := EmptyLayer(AttributeValue(t, "name"), w, h, props);
    FoldKeepsCellCount(Children(t), empty, reg, decode);
  }

  lemma {:induction false} FoldKeepsCellCount(cs: seq<Node>, layer: TileLayer, reg: Registry, decode: Decoder)
    requires |layer.cells| == layer.width * layer.height
    requires Fold(cs, layer, LayerChildStepFn(reg, decode)).Ok?
    ensures var l := Fold(cs, layer, LayerChildStepFn(reg, decode)).value;
      |l.cells| == l.width * l.height && l.width == layer.width && l.height == layer.height
  {
    if cs != [] {
      var prefix := cs[..|cs| - 1];
      FoldKeepsCellCount(prefix, layer, reg, decode);
      var acc := Fold(prefix, layer, LayerChildStepFn(reg, decode)).value;
      var child := cs[|cs| - 1];
      if EqualsIgnoreCase("data", NodeName(child)) {
        DataKeepsCellCount(acc.cells, acc.width, acc.height, child, reg, decode);
      }
    }
  }

  lemma DataKeepsCellCount(cells: seq<Option<Tile>>, width: nat, height: nat, child: Node, reg: Registry,
                           decode: Decoder)
    requires |cells| == width * height
    requires DataCells(cells, width, height, child, reg, decode).Ok?
    ensures |DataCells(cells, width, height, child, reg, decode).value| == width * height
  {
    var encoding := AttributeValue(child, "encoding");
    if !MatchesIgnoreCase("base64", encoding) && !MatchesIgnoreCase("csv", encoding) {
      XmlKeepsCellCount(Children(child), width, height, reg, cells);
    }
  }

  lemma {:induction false} XmlKeepsCellCount(cs: seq<Node>, width: nat, height: nat, reg: Registry,
                                            cells: seq<Option<Tile>>)
    requires XmlFill(cs, width, height, reg, cells).Ok?
    ensures |XmlFill(cs, width, height, reg, cells).value.cells| == |cells|
  {
    if cs != [] {
      XmlKeepsCellCount(cs[..|cs| - 1], width, height, reg, cells);
    }
  }

  /**
   * A base64 payload overwrites every one of the width*height cells: what
   * the grid held before does not matter.
   */
  lemma Base64ReplacesAll(cells: seq<Option<Tile>>, other: seq<Option<Tile>>, width: nat, height: nat,
                          child: Node, reg: Registry, decode: Decoder, text: string)
    requires MatchesIgnoreCase("base64", AttributeValue(child, "encoding"))
    requires FirstChild(child) == Some(Text(text))
    ensures DataCells(cells, width, height, child, reg, decode) == DataCells(other, width, height, child, reg, decode)
    ensures DataCells(cells, width, height, child, reg, decode).Ok? ==>
      |DataCells(cells, width, height, child, reg, decode).value| == width * height
  {
  }

  /** A base64 `data` element with character data takes the base64 branch. */
  lemma Base64Data(cells: seq<Option<Tile>>, width: nat, height: nat, child: Node, reg: Registry,
                   decode: Decoder, text: string)
    requires MatchesIgnoreCase("base64", AttributeValue(child, "encoding"))
    requires FirstChild(child) == Some(Text(text))
    ensures DataCells(cells, width, height, child, reg, decode) ==
      Base64Cells(Trim(text), AttributeValue(child, "compression"), width, height, reg, decode)
  {
  }

  /** A csv `data` element takes the csv branch. */
  lemma CsvBranch(cells: seq<Option<Tile>>, width: nat, height: nat, child: Node, reg: Registry, decode: Decoder)
    requires MatchesIgnoreCase("csv", AttributeValue(child, "encoding"))
    ensures DataCells(cells, width, height, child, reg, decode) ==
      CsvCells(TextContent(child), AttributeValue(child, "compression"), width, height, reg)
  {
    CsvIsNotBase64(AttributeValue(child, "encoding"));
  }

  /**
   * Base64 data: a compression tag other than gzip or zlib (in any case) is
   * an exception once the text has decoded; csv data: any compression tag
   * is. Neither writes a cell.
   */
  lemma UnknownCompressionRejected(cells: seq<Option<Tile>>, width: nat, height: nat, child: Node,
                                   reg: Registry, decode: Decoder, text: string, comp: string)
    requires AttributeValue(child, "compression") == Some(comp) && comp != ""
    requires MatchesIgnoreCase("base64", AttributeValue(child, "encoding")) ==>
      FirstChild(child) == Some(Text(text)) && decode.base64(Trim(text)).Some? &&
      !EqualsIgnoreCase("gzip", comp) && !EqualsIgnoreCase("zlib", comp)
    requires MatchesIgnoreCase("base64", AttributeValue(child, "encoding")) ||
             MatchesIgnoreCase("csv", AttributeValue(child, "encoding"))
    ensures DataCells(cells, width, height, child, reg, decode) == Err(BadCompression(comp))
  {
    if MatchesIgnoreCase("base64", AttributeValue(child, "encoding")) {
      Base64Data(cells, width, height, child, reg, decode, text);
    } else {
      CsvBranch(cells, width, height, child, reg, decode);
    }
  }

  /** Csv data whose token count differs from width*height is an exception. */
  lemma CsvCountMismatch(cells: seq<Option<Tile>>, width: nat, height: nat, child: Node, reg: Registry,
                         decode: Decoder)
    requires MatchesIgnoreCase("csv", AttributeValue(child, "encoding"))
    requires !MatchesIgnoreCase("base64", AttributeValue(child, "encoding"))
    requires AttributeValue(child, "compression") in {None, Some("")}
    requires |SplitCsv(Trim(TextContent(child)))| != width * height
    ensures DataCells(cells, width, height, child, reg, decode) == Err(TileCountMismatch)
  {
    CsvBranch(cells, width, height, child, reg, decode);
  }

  /** Csv data as a writer emits it fills cell k with the tile of the k-th id. */
  lemma CsvLayerRoundTrip(cells: seq<Option<Tile>>, width: nat, height: nat, child: Node, reg: Registry,
                          decode: Decoder, gs: seq<int>)
    requires |gs| == width * height && |gs| >= 1 && forall i :: 0 <= i < |gs| ==> JavaInt.IsInt32(gs[i])
    requires child.Element? && child.children == [Text(CsvText(gs))]
    requires MatchesIgnoreCase("csv", AttributeValue(child, "encoding"))
    requires AttributeValue(child, "compression") in {None, Some("")}
    ensures DataCells(cells, width, height, child, reg, decode) == Ok(ResolveAll(gs, reg))
  {
    var tokens := SplitCsv(Trim(TextContent(child)));
    assert ParseTokens(tokens) == Ok(gs) && |tokens| == height * width by {
      SingleTextContent(child, CsvText(gs));
      CsvRoundTrip(gs);
    }
    CsvData(cells, width, height, child, reg, decode);
  }

  lemma CsvData(cells: seq<Option<Tile>>, width: nat, height: nat, child: Node, reg: Registry, decode: Decoder)
    requires MatchesIgnoreCase("csv", AttributeValue(child, "encoding"))
    requires AttributeValue(child, "compression") in {None, Some("")}
    ensures var tokens := SplitCsv(Trim(TextContent(child)));
      |tokens| == height * width ==>
        DataCells(cells, width, height, child, reg, decode) ==
          match ParseTokens(tokens)
          case Ok(gs) => Ok(ResolveAll(gs, reg))
          case Err(e) => Err(e)
  {
    CsvBranch(cells, width, height, child, reg, decode);
  }

  /** No encoding tag matches both "csv" and "base64", whatever its case. */
  lemma CsvIsNotBase64(encoding: Option<string>)
    requires MatchesIgnoreCase("csv", encoding)
    ensures !MatchesIgnoreCase("base64", encoding)
  {
  }

  /**
   * Damaged base64 data throws: text that is not base64, whatever the
   * compression tag; then a stream header the inflater rejects; then a read
   * past the end of a stream that does not end cleanly. A stream that
   * delivers the width*height*4 bytes the loop reads is accepted whatever
   * follows them.
   */
  lemma MalformedPayloadRejected(cells: seq<Option<Tile>>, width: nat, height: nat, child: Node, reg: Registry,
                                 decode: Decoder, text: string)
    requires MatchesIgnoreCase("base64", AttributeValue(child, "encoding"))
    requires FirstChild(child) == Some(Text(text))
    ensures decode.base64(Trim(text)).None? ==> DataCells(cells, width, height, child, reg, decode) == Err(BadPayload)
    ensures var c := CompressionOf(AttributeValue(child, "compression"));
      decode.base64(Trim(text)).Some? && c.Ok? && !GzipSizeRejected(c.value, width, height) ==>
        var s := OpenStream(decode.base64(Trim(text)).value, c.value, decode);
        (DataCells(cells, width, height, child, reg, decode) == Err(BadPayload) <==>
         s.None? || ReadsPastEnd(s.value, width * height))
  {
    Base64Data(cells, width, height, child, reg, decode, text);
  }

  /**
   * Gzip data in a layer whose int buffer size width*height*4 is not
   * positive throws from the GZIPInputStream constructor, before a byte is
   * read; an empty layer is one such.
   */
  lemma GzipBufferRejected(cells: seq<Option<Tile>>, width: nat, height: nat, child: Node, reg: Registry,
                           decode: Decoder, text: string)
    requires MatchesIgnoreCase("base64", AttributeValue(child, "encoding"))
    requires FirstChild(child) == Some(Text(text)) && decode.base64(Trim(text)).Some?
    requires CompressionOf(AttributeValue(child, "compression")) == Ok(Gzip)
    ensures DataCells(cells, width, height, child, reg, decode) == Err(BadBufferSize) <==>
      GzipBufferSize(width, height) <= 0
    ensures width * height == 0 ==> DataCells(cells, width, height, child, reg, decode) == Err(BadBufferSize)
  {
    Base64Data(cells, width, height, child, reg, decode, text);
  }

  lemma SingleTextContent(n: Node, text: string)
    requires n.Element? && n.children == [Text(text)]
    ensures TextContent(n) == text
  {
    var cs := n.children;
    assert cs[..|cs| - 1] == [];
    assert TextContent(n) == TextContentOf(cs);
    assert TextContentOf(cs) == TextContentOf([]) + TextContent(cs[0]);
  }

  /**
   * Base64 data whose stream delivers the little-endian encoding of the ids
   * fills cell k with the k-th tile, whether or not the stream ends cleanly.
   */
  lemma Base64LayerRoundTrip(cells: seq<Option<Tile>>, width: nat, height: nat, child: Node, reg: Registry,
                             decode: Decoder, text: string, gs: seq<int>)
    requires |gs| == width * height && forall i :: 0 <= i < |gs| ==> JavaInt.IsInt32(gs[i])
    requires MatchesIgnoreCase("base64", AttributeValue(child, "encoding"))
    requires CompressionOf(AttributeValue(child, "compression")).Ok?
    requires FirstChild(child) == Some(Text(text))
    requires decode.base64(Trim(text)).Some?
    requires !GzipSizeRejected(CompressionOf(AttributeValue(child, "compression")).value, width, height)
    requires var s := OpenStream(decode.base64(Trim(text)).value,
                                 CompressionOf(AttributeValue(child, "compression")).value, decode);
      s.Some? && s.value.bytes == EncodeGids(gs)
    ensures DataCells(cells, width, height, child, reg, decode) == Ok(ResolveAll(gs, reg))
  {
    Base64Data(cells, width, height, child, reg, decode, text);
    Base64RoundTrip(gs);
  }
}
