/**
 * The cell data of a tile layer: the `data` element's three encodings
 * (base64, csv and one `tile` element per cell), each turned into global
 * ids that are resolved against the tileset registry and written into the
 * layer's row-major grid.
 */
module TilePayload {
  import opened Results
  import opened JavaInt
  import opened JavaText
  import opened Dom
  import opened Folds
  import opened Tiled
  import opened GidResolver

  type Byte = b: int | 0 <= b < 256

  datatype Compression = Uncompressed | Gzip | Zlib

  /**
   * The input stream the cell loop reads: the bytes it delivers, then either
   * a clean end (every further read gives -1) or, for a damaged gzip or zlib
   * stream, an exception on the first read past them. Inflation is lazy, so
   * damage beyond the bytes the loop reads is never seen.
   */
  datatype Stream = Stream(bytes: seq<Byte>, clean: bool)

  /**
   * Library code the base64 branch calls, outside this model and supplied by
   * the caller. `base64` is Base64.decode of the trimmed character data; None
   * is text that is not base64, which throws. `inflate` wraps the decoded
   * bytes in a GZIPInputStream or an InflaterInputStream; None is a gzip
   * header the GZIPInputStream constructor rejects, which throws. The
   * InflaterInputStream constructor reads nothing, so a damaged zlib header
   * is `Stream([], false)`, never None: it throws only on the first read.
   */
  datatype Decoder = Decoder(base64: string -> Option<seq<Byte>>,
                             inflate: (seq<Byte>, Compression) -> Option<Stream>)

  /** The stream the cells are read from: uncompressed data is read from the decoded bytes themselves. */
  function OpenStream(dec: seq<Byte>, c: Compression, decode: Decoder): Option<Stream>
  {
    if c == Uncompressed then Some(Stream(dec, true)) else decode.inflate(dec, c)
  }

  /** The buffer size handed to GZIPInputStream: width * height * 4 in int arithmetic. */
  function GzipBufferSize(width: int, height: int): int
  {
    Wrap32(Wrap32(width * height) * 4)
  }

  /** GZIPInputStream's constructor rejects a buffer size that is not positive. */
  predicate GzipSizeRejected(c: Compression, width: int, height: int)
  {
    c == Gzip && GzipBufferSize(width, height) <= 0
  }

  /** Reading four bytes for each of `cells` cells passes the end of a stream that does not end cleanly. */
  predicate ReadsPastEnd(s: Stream, cells: nat)
  {
    !s.clean && |s.bytes| < 4 * cells
  }

  /** Every cell of the grid gets the tile its global id resolves to. */
  function ResolveAll(gids: seq<int>, reg: Registry): (cells: seq<Option<Tile>>)
    ensures |cells| == |gids|
    ensures forall k :: 0 <= k < |gids| ==> cells[k] == TileForGid(reg, gids[k])
  {
    seq(|gids|, k requires 0 <= k < |gids| => TileForGid(reg, gids[k]))
  }

  /**
   * setTileAtFromTileId on the layer's grid: resolve the id, then
   * TileLayer.setTileAt, which ignores a position outside the grid.
   */
  method SetTileAtFromTileId(grid: array<Option<Tile>>, width: nat, height: nat, y: int, x: int,
                             tileId: int, reg: Registry)
    requires grid.Length == width * height
    modifies grid
    ensures grid[..] == SetTileAt(old(grid[..]), width, height, x, y, TileForGid(reg, tileId))
  {
    var tile := TileForGid(reg, tileId);
    if InGrid(width, height, x, y) {
      CellIndex(width, height, x, y);
      grid[x + y * width] := tile;
    }
  }

  // ---------------------------------------------------------------------------
  // base64

  /** The compression attribute of a base64 payload: gzip or zlib in any case, or none. */
  function CompressionOf(comp: Option<string>): (r: Result<Compression>)
    ensures r.Err? <==>
      (comp.Some? && comp.value != "" &&
       !EqualsIgnoreCase("gzip", comp.value) && !EqualsIgnoreCase("zlib", comp.value))
    ensures r.Err? ==> r.error == BadCompression(comp.value)
    ensures r == Ok(Uncompressed) <==> comp.None? || comp.value == ""
  {
    if MatchesIgnoreCase("gzip", comp) then Ok(Gzip)
    else if MatchesIgnoreCase("zlib", comp) then Ok(Zlib)
    else if comp.Some? && comp.value != "" then Err(BadCompression(comp.value))
    else Ok(Uncompressed)
  }

  /** InputStream.read: the byte at position p, or -1 once the stream is exhausted. */
  function ReadByte(bytes: seq<Byte>, p: nat): (r: int)
    ensures IsReadResult(r)
    ensures r == -1 <==> p >= |bytes|
    ensures p < |bytes| ==> r == bytes[p]
  {
    if p < |bytes| then bytes[p] else -1
  }

  /** Four reads from position p OR-ed together, least significant first. */
  function WordAt(bytes: seq<Byte>, p: nat): int
  {
    AssembleWord(ReadByte(bytes, p), ReadByte(bytes, p + 1), ReadByte(bytes, p + 2), ReadByte(bytes, p + 3))
  }

  /** The id of the k-th cell: the word at its four bytes. */
  function CellGid(bytes: seq<Byte>, k: nat): int
  {
    WordAt(bytes, 4 * k)
  }

  lemma CellGidAt(bytes: seq<Byte>, k: nat, p: nat)
    requires p == 4 * k
    ensures CellGid(bytes, k) == AssembleWord(ReadByte(bytes, p), ReadByte(bytes, p + 1),
                                              ReadByte(bytes, p + 2), ReadByte(bytes, p + 3))
  {
    assert CellGid(bytes, k) == WordAt(bytes, p);
  }

  function Base64Gids(bytes: seq<Byte>, n: nat): (gids: seq<int>)
    ensures |gids| == n
  {
    seq(n, k requires 0 <= k < n => CellGid(bytes, k))
  }

  /** The four `tileId |= read() << s` statements of one cell. */
  method ReadCellWord(bytes: seq<Byte>, p: nat) returns (tileId: int)
    ensures tileId == WordAt(bytes, p)
  {
    tileId := 0;
    tileId := Or32(tileId, ReadByte(bytes, p));
    tileId := Or32(tileId, Shl32(ReadByte(bytes, p + 1), 8));
    tileId := Or32(tileId, Shl32(ReadByte(bytes, p + 2), 16));
    tileId := Or32(tileId, Shl32(ReadByte(bytes, p + 3), 24));
  }

  /** The base64 loops: y outer, x inner, each cell takes the next four bytes. */
  method FillBase64(grid: array<Option<Tile>>, width: nat, height: nat, s: Stream, reg: Registry)
    returns (r: Result<()>)
    requires grid.Length == width * height
    modifies grid
    ensures r.Err? <==> ReadsPastEnd(s, width * height)
    ensures r.Err? ==> r.error == BadPayload
    ensures r.Ok? ==> grid[..] == ResolveAll(Base64Gids(s.bytes, width * height), reg)
  {
    var bytes := s.bytes;
    var p := 0;
    ghost var cell := 0;
    var y := 0;
    while y < height
      invariant 0 <= y <= height
      invariant cell == y * width && p == 4 * cell && cell <= grid.Length
      invariant !s.clean ==> p <= |bytes|
      invariant forall k :: 0 <= k < cell ==> grid[..][k] == TileForGid(reg, CellGid(bytes, k))
    {
      var x := 0;
      ghost var rowStart := y * width;
      NextRow(width, y);
      assert rowStart + width <= grid.Length by { MulLe(y + 1, height, width); }
      while x < width
        invariant 0 <= x <= width
        invariant cell == rowStart + x && p == 4 * cell
        invariant !s.clean ==> p <= |bytes|
        invariant forall k :: 0 <= k < cell ==> grid[..][k] == TileForGid(reg, CellGid(bytes, k))
      {
        if !s.clean && p + 4 > |bytes| {
          // one of this cell's reads passes the end and throws; the cell is not written
          return Err(BadPayload);
        }
        var tileId := ReadCellWord(bytes, p);
        assert tileId == CellGid(bytes, cell);
        p := p + 4;
        assert InGrid(width, height, x, y);
        assert x + y * width == cell;
        ghost var before := grid[..];
        SetTileAtFromTileId(grid, width, height, y, x, tileId, reg);
        GridExtended(before, grid[..], width, height, x, y, cell, tileId, bytes, reg);
        x := x + 1;
        cell := cell + 1;
      }
      y := y + 1;
    }
    assert cell == width * height;
    GridComplete(grid[..], bytes, reg);
    r := Ok(());
  }

  /** A grid whose every cell holds its own tile is the resolved payload. */
  lemma GridComplete(g: seq<Option<Tile>>, bytes: seq<Byte>, reg: Registry)
    requires forall k :: 0 <= k < |g| ==> g[k] == TileForGid(reg, CellGid(bytes, k))
    ensures g == ResolveAll(Base64Gids(bytes, |g|), reg)
  {
  }

  /** Writing cell `cell` with its own tile extends the written prefix by one. */
  lemma GridExtended(before: seq<Option<Tile>>, after: seq<Option<Tile>>, width: nat, height: nat,
                      x: int, y: int, cell: nat, tileId: int, bytes: seq<Byte>, reg: Registry)
    requires InGrid(width, height, x, y) && |before| == width * height && x + y * width == cell
    requires tileId == CellGid(bytes, cell)
    requires after == SetTileAt(before, width, height, x, y, TileForGid(reg, tileId))
    requires forall k :: 0 <= k < cell ==> before[k] == TileForGid(reg, CellGid(bytes, k))
    ensures forall k :: 0 <= k < cell + 1 ==> after[k] == TileForGid(reg, CellGid(bytes, k))
  {
    var t := TileForGid(reg, tileId);
    SetTileAtCell(before, width, height, x, y, cell, t);
    PrefixExtended(before, after, cell, bytes, reg);
  }

  lemma SetTileAtCell(cells: seq<Option<Tile>>, width: nat, height: nat, x: int, y: int, cell: nat, t: Option<Tile>)
    requires InGrid(width, height, x, y) && |cells| == width * height && x + y * width == cell
    ensures cell < |cells| && SetTileAt(cells, width, height, x, y, t) == cells[cell := t]
  {
    CellIndex(width, height, x, y);
  }

  lemma PrefixExtended(before: seq<Option<Tile>>, after: seq<Option<Tile>>, cell: nat, bytes: seq<Byte>, reg: Registry)
    requires cell < |before| && after == before[cell := TileForGid(reg, CellGid(bytes, cell))]
    requires forall k :: 0 <= k < cell ==> before[k] == TileForGid(reg, CellGid(bytes, k))
    ensures forall k :: 0 <= k < cell + 1 ==> after[k] == TileForGid(reg, CellGid(bytes, k))
  {
  }

  lemma NextRow(width: nat, y: nat)
    ensures width + y * width == (y + 1) * width
  {
  }

  // ---------------------------------------------------------------------------
  // csv

  /** Integer.parseInt of every token in order; the first malformed token is the exception. */
  function ParseTokens(ts: seq<string>): (r: Result<seq<int>>)
    ensures r.Ok? <==> forall i :: 0 <= i < |ts| ==> ParseInt(ts[i]).Some?
    ensures r.Ok? ==> |r.value| == |ts| && forall i :: 0 <= i < |ts| ==> Some(r.value[i]) == ParseInt(ts[i])
  {
    if ts == [] then Ok([])
    else
      match ParseInt(ts[0])
      case None => Err(BadNumber(ts[0]))
      case Some(v) =>
        var rest :- ParseTokens(ts[1..]);
        assert forall i :: 1 <= i < |ts| ==> ts[i] == ts[1..][i - 1];
        Ok([v] + rest)
  }

  /** The exception names the first token that is not an int. */
  lemma {:induction false} ParseTokensFirstError(ts: seq<string>, i: nat)
    requires i < |ts| && ParseInt(ts[i]).None?
    requires forall j :: 0 <= j < i ==> ParseInt(ts[j]).Some?
    ensures ParseTokens(ts) == Err(BadNumber(ts[i]))
  {
    if i > 0 {
      assert forall j :: 0 <= j < i - 1 ==> ts[1..][j] == ts[j + 1];
      ParseTokensFirstError(ts[1..], i - 1);
    }
  }

  /** The csv loops: cell (x, y) takes token x + y*width. */
  method FillCsv(grid: array<Option<Tile>>, width: nat, height: nat, tokens: seq<string>, reg: Registry)
    returns (r: Result<()>)
    requires grid.Length == width * height && |tokens| == width * height
    modifies grid
    ensures r.Err? <==> ParseTokens(tokens).Err?
    ensures r.Err? ==> r.error == ParseTokens(tokens).error
    ensures r.Ok? ==> grid[..] == ResolveAll(ParseTokens(tokens).value, reg)
  {
    ghost var cell := 0;
    var y := 0;
    while y < height
      invariant 0 <= y <= height
      invariant cell == y * width && cell <= grid.Length
      invariant forall k :: 0 <= k < cell ==>
        ParseInt(tokens[k]).Some? && grid[k] == TileForGid(reg, ParseInt(tokens[k]).value)
    {
      var x := 0;
      ghost var rowStart := y * width;
      NextRow(width, y);
      assert rowStart + width <= grid.Length by { MulLe(y + 1, height, width); }
      while x < width
        invariant 0 <= x <= width
        invariant cell == rowStart + x
        invariant forall k :: 0 <= k < cell ==>
          ParseInt(tokens[k]).Some? && grid[k] == TileForGid(reg, ParseInt(tokens[k]).value)
      {
        assert InGrid(width, height, x, y);
        CellIndex(width, height, x, y);
        var sTileId := tokens[x + y * width];
        var tileId := ParseInt(sTileId);
        if tileId.None? {
          ParseTokensFirstError(tokens, cell);
          return Err(BadNumber(sTileId));
        }
        ghost var before := grid[..];
        SetTileAtFromTileId(grid, width, height, y, x, tileId.value, reg);
        assert grid[..] == before[cell := TileForGid(reg, tileId.value)];
        forall k | 0 <= k <= cell
          ensures ParseInt(tokens[k]).Some? && grid[k] == TileForGid(reg, ParseInt(tokens[k]).value)
        {
          assert grid[k] == grid[..][k];
        }
        x := x + 1;
        cell := cell + 1;
      }
      y := y + 1;
    }
    assert cell == grid.Length;
    r := Ok(());
  }

  // ---------------------------------------------------------------------------
  // one `tile` element per cell

  /** The cursor of the tile-element loop; `stopped` once y has reached the height. */
  datatype Cursor = Cursor(x: int, y: int, cells: seq<Option<Tile>>, stopped: bool)

  function XmlStep(width: nat, height: nat, reg: Registry, c: Cursor, n: Node): Result<Cursor>
  {
    if c.stopped || !EqualsIgnoreCase("tile", NodeName(n)) then Ok(c)
    else
      var gid :- IntAttribute(n, "gid", -1);
      var cells := SetTileAt(c.cells, width, height, c.x, c.y, TileForGid(reg, gid));
      if c.x + 1 == width then Ok(Cursor(0, c.y + 1, cells, c.y + 1 == height))
      else Ok(Cursor(c.x + 1, c.y, cells, c.y == height))
  }

  function XmlStepFn(width: nat, height: nat, reg: Registry): (Cursor, Node) -> Result<Cursor>
  {
    (c, n) => XmlStep(width, height, reg, c, n)
  }

  /** The grid after walking the `data` element's children from cell (0, 0). */
  function XmlFill(children: seq<Node>, width: nat, height: nat, reg: Registry, cells: seq<Option<Tile>>)
    : Result<Cursor>
  {
    Fold(children, Cursor(0, 0, cells, false), XmlStepFn(width, height, reg))
  }

  /** A stopped cursor stays where it is: the loop has been left. */
  lemma {:induction false} XmlStoppedStays(cs: seq<Node>, i: nat, width: nat, height: nat, reg: Registry,
                                          cells: seq<Option<Tile>>)
    requires i <= |cs|
    requires XmlFill(cs[..i], width, height, reg, cells).Ok? && XmlFill(cs[..i], width, height, reg, cells).value.stopped
    ensures XmlFill(cs, width, height, reg, cells) == XmlFill(cs[..i], width, height, reg, cells)
    decreases |cs| - i
  {
    if i < |cs| {
      FoldStep(cs, i, Cursor(0, 0, cells, false), XmlStepFn(width, height, reg));
      XmlStoppedStays(cs, i + 1, width, height, reg, cells);
    } else {
      assert cs[..i] == cs;
    }
  }

  /** One child of the loop: skipped, thrown on, or written to (x, y) with the cursor moved on. */
  lemma XmlStepCases(width: nat, height: nat, reg: Registry, x: int, y: int, cells: seq<Option<Tile>>, n: Node)
    ensures !EqualsIgnoreCase("tile", NodeName(n)) ==>
      XmlStep(width, height, reg, Cursor(x, y, cells, false), n) == Ok(Cursor(x, y, cells, false))
    ensures EqualsIgnoreCase("tile", NodeName(n)) && IntAttribute(n, "gid", -1).Err? ==>
      XmlStep(width, height, reg, Cursor(x, y, cells, false), n) == Err(IntAttribute(n, "gid", -1).error)
    ensures EqualsIgnoreCase("tile", NodeName(n)) && IntAttribute(n, "gid", -1).Ok? ==>
      var x', y' := if x + 1 == width then 0 else x + 1, if x + 1 == width then y + 1 else y;
      var t := TileForGid(reg, IntAttribute(n, "gid", -1).value);
      XmlStep(width, height, reg, Cursor(x, y, cells, false), n) ==
        Ok(Cursor(x', y', SetTileAt(cells, width, height, x, y, t), y' == height))
  {
  }

  /** The tile-element loop, breaking once y reaches the height. */
  method FillXml(grid: array<Option<Tile>>, width: nat, height: nat, children: seq<Node>, reg: Registry)
    returns (r: Result<()>)
    requires grid.Length == width * height
    modifies grid
    ensures r.Err? <==> XmlFill(children, width, height, reg, old(grid[..])).Err?
    ensures r.Err? ==> r.error == XmlFill(children, width, height, reg, old(grid[..])).error
    ensures r.Ok? ==> grid[..] == XmlFill(children, width, height, reg, old(grid[..])).value.cells
  {
    ghost var start := grid[..];
    ghost var step := XmlStepFn(width, height, reg);
    var x, y := 0, 0;
    var i := 0;
    while i < |children|
      invariant 0 <= i <= |children|
      invariant Fold(children[..i], Cursor(0, 0, start, false), step) == Ok(Cursor(x, y, grid[..], false))
    {
      var dataChild := children[i];
      FoldStep(children, i, Cursor(0, 0, start, false), step);
      XmlStepCases(width, height, reg, x, y, grid[..], dataChild);
      if EqualsIgnoreCase("tile", NodeName(dataChild)) {
        var tileId := IntAttribute(dataChild, "gid", -1);
        if tileId.Err? {
          FoldErr(children, i + 1, Cursor(0, 0, start, false), step);
          return Err(tileId.error);
        }
        SetTileAtFromTileId(grid, width, height, y, x, tileId.value, reg);
        x := x + 1;
        if x == width {
          x := 0;
          y := y + 1;
        }
        if y == height {
          XmlStoppedStays(children, i + 1, width, height, reg, start);
          return Ok(());
        }
      }
      i := i + 1;
    }
    assert children[..i] == children;
    r := Ok(());
  }

  // ---------------------------------------------------------------------------
  // Properties of the three encodings

  /** A complete cell is the little-endian int of its four bytes. */
  lemma Base64LittleEndian(bytes: seq<Byte>, k: nat)
    requires 4 * k + 3 < |bytes|
    ensures CellGid(bytes, k) ==
      Signed32(bytes[4 * k] as int + 0x100 * (bytes[4 * k + 1] as int) + 0x1_0000 * (bytes[4 * k + 2] as int)
               + 0x100_0000 * (bytes[4 * k + 3] as int))
  {
    CellGidAt(bytes, k, 4 * k);
    AssembleBytes(bytes[4 * k], bytes[4 * k + 1], bytes[4 * k + 2], bytes[4 * k + 3]);
  }

  /**
   * A cell whose fourth byte lies past the end of the stream gets a negative
   * id (read() returns -1 and the OR sets every high bit), never zero; with
   * every first id positive that cell resolves to no tile.
   */
  lemma Base64Truncated(bytes: seq<Byte>, k: nat, reg: Registry)
    requires 4 * k + 3 >= |bytes|
    ensures CellGid(bytes, k) < 0
    ensures (forall f :: f in FloorMap.ToMap(reg) ==> f > 0) ==> TileForGid(reg, CellGid(bytes, k)).None?
  {
    AssembleTruncated(ReadByte(bytes, 4 * k), ReadByte(bytes, 4 * k + 1), ReadByte(bytes, 4 * k + 2));
    if forall f :: f in FloorMap.ToMap(reg) ==> f > 0 {
      NonPositiveGidUnresolved(reg, CellGid(bytes, k));
    }
  }

  /** The bytes a writer emits for the ids: four per id, least significant first. */
  function EncodeGids(gs: seq<int>): (bytes: seq<Byte>)
    ensures |bytes| == 4 * |gs|
  {
    seq(4 * |gs|, i requires 0 <= i < 4 * |gs| => ByteOf(gs[i / 4], i % 4))
  }

  lemma EncodeGidsAt(gs: seq<int>, k: nat, j: nat)
    requires k < |gs| && j < 4
    ensures EncodeGids(gs)[4 * k + j] == ByteOf(gs[k], j)
  {
    var i := 4 * k + j;
    assert i / 4 == k && i % 4 == j;
  }

  /** Decoding what a writer encoded gives the ids back, cell by cell. */
  lemma Base64RoundTrip(gs: seq<int>)
    requires forall i :: 0 <= i < |gs| ==> IsInt32(gs[i])
    ensures Base64Gids(EncodeGids(gs), |gs|) == gs
  {
    var bytes := EncodeGids(gs);
    forall k | 0 <= k < |gs| ensures CellGid(bytes, k) == gs[k] {
      EncodedCell(gs, k);
    }
  }

  lemma EncodedCell(gs: seq<int>, k: nat)
    requires k < |gs| && IsInt32(gs[k])
    ensures CellGid(EncodeGids(gs), k) == gs[k]
  {
    EncodeGidsAt(gs, k, 0);
    EncodeGidsAt(gs, k, 1);
    EncodeGidsAt(gs, k, 2);
    EncodeGidsAt(gs, k, 3);
    CellOfBytes(EncodeGids(gs), k, gs[k]);
  }

  /** Four bytes that are the bytes of `g`, least significant first, make the cell `g`. */
  lemma CellOfBytes(bytes: seq<Byte>, k: nat, g: int)
    requires IsInt32(g) && 4 * k + 3 < |bytes|
    requires bytes[4 * k] == ByteOf(g, 0) && bytes[4 * k + 1] == ByteOf(g, 1)
    requires bytes[4 * k + 2] == ByteOf(g, 2) && bytes[4 * k + 3] == ByteOf(g, 3)
    ensures CellGid(bytes, k) == g
  {
    CellGidAt(bytes, k, 4 * k);
    AssembleRoundTrip(g);
  }

  /** The csv text a writer emits for the ids. */
  function CsvText(gs: seq<int>): string
    requires |gs| >= 1
  {
    JoinCommas(seq(|gs|, i requires 0 <= i < |gs| => FormatInt(gs[i])))
  }

  lemma FormatIntPlain(n: int)
    ensures PlainToken(FormatInt(n))
    ensures !IsTrimmed(FormatInt(n)[0]) && !IsTrimmed(FormatInt(n)[|FormatInt(n)| - 1])
  {
    FormatIntShape(n);
    var t := FormatInt(n);
    assert IsDigit(t[0]) || t[0] == '-';
    forall i | 0 <= i < |t| ensures t[i] != ',' {
      assert IsDigit(t[i]) || t[i] == '-';
    }
  }

  /** Splitting and parsing the text a writer emits gives the ids back. */
  lemma CsvRoundTrip(gs: seq<int>)
    requires |gs| >= 1 && forall i :: 0 <= i < |gs| ==> IsInt32(gs[i])
    ensures ParseTokens(SplitCsv(Trim(CsvText(gs)))) == Ok(gs)
  {
    var ts := seq(|gs|, i requires 0 <= i < |gs| => FormatInt(gs[i]));
    forall i | 0 <= i < |ts| ensures PlainToken(ts[i]) && ParseInt(ts[i]) == Some(gs[i]) {
      FormatIntPlain(gs[i]);
      ParseIntFormatInt(gs[i]);
    }
    assert Trim(CsvText(gs)) == JoinCommas(ts) by { CsvTextTrimmed(gs, ts); }
    SplitJoin(ts);
    ParsedAll(ts, gs);
  }

  lemma CsvTextTrimmed(gs: seq<int>, ts: seq<string>)
    requires |gs| >= 1 && ts == seq(|gs|, i requires 0 <= i < |gs| => FormatInt(gs[i]))
    ensures Trim(CsvText(gs)) == JoinCommas(ts)
  {
    var j := JoinCommas(ts);
    assert CsvText(gs) == j;
    assert forall i :: 0 <= i < |ts| ==> ts[i] != "" by {
      forall i | 0 <= i < |ts| ensures ts[i] != "" {
        FormatIntShape(gs[i]);
      }
    }
    JoinCommasEnds(ts);
    assert !IsTrimmed(j[0]) by {
      FormatIntPlain(gs[0]);
    }
    assert !IsTrimmed(j[|j| - 1]) by {
      FormatIntPlain(gs[|gs| - 1]);
    }
  }

  lemma ParsedAll(ts: seq<string>, gs: seq<int>)
    requires |ts| == |gs| && forall i :: 0 <= i < |ts| ==> ParseInt(ts[i]) == Some(gs[i])
    ensures ParseTokens(ts) == Ok(gs)
  {
    var r := ParseTokens(ts);
    assert r.Ok?;
    assert r.value == gs;
  }

  /** A `tile` element without a `gid` attribute writes the tile id -1 resolves to. */
  lemma XmlMissingGid(width: nat, height: nat, reg: Registry, c: Cursor, n: Node)
    requires !c.stopped && n.Element? && EqualsIgnoreCase("tile", n.tag) && "gid" !in n.attributes
    ensures XmlStep(width, height, reg, c, n).Ok?
    ensures XmlStep(width, height, reg, c, n).value.cells ==
      SetTileAt(c.cells, width, height, c.x, c.y, TileForGid(reg, -1))
  {
  }

  /** The ids of the `tile` children in order (a missing gid is -1), or the first malformed one. */
  function TileGids(cs: seq<Node>): Result<seq<int>>
  {
    if cs == [] then Ok([])
    else
      var gs :- TileGids(cs[..|cs| - 1]);
      var n := cs[|cs| - 1];
      if EqualsIgnoreCase("tile", NodeName(n)) then
        var g :- IntAttribute(n, "gid", -1);
        Ok(gs + [g])
      else Ok(gs)
  }

  lemma MulLe(a: int, b: int, w: nat)
    requires a <= b
    ensures a * w <= b * w
  {
  }

  lemma NextRowInt(y: int, width: int)
    ensures (y + 1) * width == y * width + width
  {
  }

  /** The cursor after a step from a position inside the grid. */
  lemma XmlAdvance(width: nat, height: nat, c: Cursor, n: nat)
    requires width > 0 && height > 0
    requires 0 <= c.x < width && 0 <= c.y && c.x + c.y * width == n && n < width * height
    ensures c.y < height
    ensures c.x + 1 == width ==> (c.y + 1) * width == n + 1 && (c.y + 1 == height <==> n + 1 == width * height)
    ensures c.x + 1 < width ==> n + 1 < width * height
  {
    var row := c.y * width;
    var next := (c.y + 1) * width;
    var all := height * width;
    assert all == width * height;
    if c.y >= height {
      MulLe(height, c.y, width);
      assert false;
    }
    NextRowInt(c.y, width);
    assert next == row + width;
    MulLe(c.y + 1, height, width);
    assert next <= all;
    if c.x + 1 == width && c.y + 1 < height {
      MulLe(c.y + 2, height, width);
      NextRowInt(c.y + 1, width);
      assert next + width <= all;
    }
  }

  /**
   * Row-major filling: while the grid has room, the i-th `tile` child
   * writes cell i (x = i mod width, y = i div width) and every cell not yet
   * reached keeps its value; the loop stops exactly when all width*height
   * cells have been written. Other children do not move the cursor.
   */
  lemma {:induction false} XmlRowMajor(cs: seq<Node>, width: nat, height: nat, reg: Registry,
                                       cells: seq<Option<Tile>>, gs: seq<int>)
    requires width > 0 && height > 0 && |cells| == width * height
    requires TileGids(cs) == Ok(gs) && |gs| <= width * height
    ensures XmlFill(cs, width, height, reg, cells).Ok?
    ensures var c := XmlFill(cs, width, height, reg, cells).value;
      && |c.cells| == width * height
      && 0 <= c.x < width && 0 <= c.y && c.x + c.y * width == |gs|
      && (c.stopped <==> |gs| == width * height)
      && (forall k :: 0 <= k < |gs| ==> c.cells[k] == TileForGid(reg, gs[k]))
      && (forall k :: |gs| <= k < width * height ==> c.cells[k] == cells[k])
  {
    if cs != [] {
      var n := cs[|cs| - 1];
      var prefix := cs[..|cs| - 1];
      var gs' := TileGids(prefix).value;
      XmlRowMajor(prefix, width, height, reg, cells, gs');
      var c := XmlFill(prefix, width, height, reg, cells).value;
      assert XmlStepFn(width, height, reg)(c, n) == XmlStep(width, height, reg, c, n);
      assert XmlFill(cs, width, height, reg, cells) == XmlStep(width, height, reg, c, n);
      if EqualsIgnoreCase("tile", NodeName(n)) {
        var g := IntAttribute(n, "gid", -1).value;
        assert gs == gs' + [g];
        XmlTileStep(width, height, reg, c, n, g, |gs'|);
      }
    }
  }

  /** A `tile` child read while the grid has room writes cell m and moves the cursor on by one. */
  lemma XmlTileStep(width: nat, height: nat, reg: Registry, c: Cursor, n: Node, g: int, m: nat)
    requires width > 0 && height > 0 && |c.cells| == width * height
    requires 0 <= c.x < width && 0 <= c.y && c.x + c.y * width == m && m < width * height && !c.stopped
    requires EqualsIgnoreCase("tile", NodeName(n)) && IntAttribute(n, "gid", -1) == Ok(g)
    ensures XmlStep(width, height, reg, c, n).Ok?
    ensures var c' := XmlStep(width, height, reg, c, n).value;
      && c'.cells == c.cells[m := TileForGid(reg, g)]
      && 0 <= c'.x < width && 0 <= c'.y && c'.x + c'.y * width == m + 1
      && (c'.stopped <==> m + 1 == width * height)
  {
    XmlAdvance(width, height, c, m);
    var t := TileForGid(reg, g);
    assert InGrid(width, height, c.x, c.y);
    assert SetTileAt(c.cells, width, height, c.x, c.y, t) == c.cells[m := t];
  }

  /** Once every cell is written, surplus children are not read at all. */
  lemma XmlSurplusIgnored(a: seq<Node>, b: seq<Node>, width: nat, height: nat, reg: Registry,
                          cells: seq<Option<Tile>>)
    requires XmlFill(a, width, height, reg, cells).Ok? && XmlFill(a, width, height, reg, cells).value.stopped
    ensures XmlFill(a + b, width, height, reg, cells) == XmlFill(a, width, height, reg, cells)
  {
    assert (a + b)[..|a|] == a;
    XmlStoppedStays(a + b, |a|, width, height, reg, cells);
  }
}
