/**
 * readObjectLayer and readObjectNode: an `objectgroup` element becomes an
 * object group whose `object` children become map objects. An object's
 * `gid` is parsed as a long, narrowed to int and resolved to a tile; its
 * first `image` child gives the image source.
 */
module ObjectReader {
  import opened Results
  import opened JavaInt
  import opened JavaText
  import opened Dom
  import opened Folds
  import opened Tiled
  import opened GidResolver
  import opened PropertyReader

  /** File.isAbsolute for a Unix path. */
  predicate IsAbsolutePath(path: string)
  {
    |path| > 0 && path[0] == '/'
  }

  /**
   * The scan over an object's children up to its first `image` child: the
   * image's `source` gives the image source. A relative path is prefixed
   * with the loader's xmlPath field, which nothing ever assigns, so string
   * concatenation writes "null". A `polygon` or `polyline` child met before
   * it without a `points` attribute makes the tokenizer dereference null.
   */
  function ImageSourceOf(cs: seq<Node>, current: string): (r: Result<string>)
  {
    if cs == [] then Ok(current)
    else if EqualsIgnoreCase("image", NodeName(cs[0])) then
      match AttributeValue(cs[0], "source")
      case None => Ok(current)
      case Some(source) => Ok(if IsAbsolutePath(source) then source else "null" + source)
    else if EqualsIgnoreCase("ellipse", NodeName(cs[0])) then ImageSourceOf(cs[1..], current)
    else if (EqualsIgnoreCase("polygon", NodeName(cs[0])) || EqualsIgnoreCase("polyline", NodeName(cs[0])))
      && AttributeValue(cs[0], "points").None? then Err(NullReference)
    else ImageSourceOf(cs[1..], current)
  }

  /** A child that is not an image, and is an ellipse or not a polygon or polyline without points, is passed over. */
  lemma ImageSourceSkip(cs: seq<Node>, i: nat)
    requires i < |cs| && !EqualsIgnoreCase("image", NodeName(cs[i]))
    requires EqualsIgnoreCase("ellipse", NodeName(cs[i])) ||
      !((EqualsIgnoreCase("polygon", NodeName(cs[i])) || EqualsIgnoreCase("polyline", NodeName(cs[i])))
        && AttributeValue(cs[i], "points").None?)
    ensures ImageSourceOf(cs[i..], "") == ImageSourceOf(cs[i + 1..], "")
  {
    assert cs[i..][0] == cs[i] && cs[i..][1..] == cs[i + 1..];
  }

  /** readObjectNode. */
  function ObjectNodeOf(node: Node, reg: Registry): Result<MapObject>
  {
    var tile :-
      match AttributeValue(node, "gid")
      case None => Ok(None)
      case Some(gid) =>
        match ParseLong(gid)
        case None => Err(BadNumber(gid))
        case Some(v) => Ok(Some(TileForGid(reg, Wrap32(v))));
    var imageSource :- ImageSourceOf(Children(node), "");
    var props :- PropertiesOf(Children(node), map[]);
    Ok(MapObject(AttributeValue(node, "name"), AttributeValue(node, "type"),
                 if tile.Some? then tile.value else None, imageSource, props))
  }

  method ReadObjectNode(node: Node, reg: Registry) returns (r: Result<MapObject>)
    ensures r == ObjectNodeOf(node, reg)
  {
    var tile: Option<Tile> := None;
    var gid := AttributeValue(node, "gid");
    if gid.Some? {
      var v := ParseLong(gid.value);
      if v.None? {
        return Err(BadNumber(gid.value));
      }
      tile := TileForGid(reg, Wrap32(v.value));
    }
    assert tile == if gid.Some? then TileForGid(reg, Wrap32(ParseLong(gid.value).value)) else None;
    var children := Children(node);
    var imageSource :- ReadImageSource(children);
    var props :- ReadProperties(children, map[]);
    r := Ok(MapObject(AttributeValue(node, "name"), AttributeValue(node, "type"), tile, imageSource, props));
  }

  /** The scan of readObjectNode over the children, up to the first `image`. */
  method ReadImageSource(children: seq<Node>) returns (r: Result<string>)
    ensures r == ImageSourceOf(children, "")
  {
    ghost var image := ImageSourceOf(children, "");
    var imageSource := "";
    var i := 0;
    while i < |children|
      invariant 0 <= i <= |children|
      invariant ImageSourceOf(children[i..], "") == image
      invariant imageSource == ""
    {
      var child := children[i];
      assert children[i..][0] == child;
      if EqualsIgnoreCase("image", NodeName(child)) {
        var source := AttributeValue(child, "source");
        if source.Some? {
          imageSource := if IsAbsolutePath(source.value) then source.value else "null" + source.value;
        }
        assert image == Ok(imageSource);
        break;
      } else if EqualsIgnoreCase("ellipse", NodeName(child)) {
      } else if EqualsIgnoreCase("polygon", NodeName(child)) || EqualsIgnoreCase("polyline", NodeName(child)) {
        if AttributeValue(child, "points").None? {
          assert image == Err(NullReference);
          return Err(NullReference);
        }
      }
      ImageSourceSkip(children, i);
      i := i + 1;
    }
    return Ok(imageSource);
  }

  function ObjectStep(reg: Registry, objects: seq<MapObject>, child: Node): Result<seq<MapObject>>
  {
    if EqualsIgnoreCase("object", NodeName(child)) then
      var o :- ObjectNodeOf(child, reg);
      Ok(objects + [o])
    else Ok(objects)
  }

  function ObjectStepFn(reg: Registry): (seq<MapObject>, Node) -> Result<seq<MapObject>>
  {
    (objects, child) => ObjectStep(reg, objects, child)
  }

  /** readObjectLayer, with the map's size and the registry as the loader holds them. */
  function ObjectLayerOf(node: Node, mapWidth: int, mapHeight: int, reg: Registry): Result<ObjectGroup>
  {
    var width :- IntAttribute(node, "width", mapWidth);
    var height :- IntAttribute(node, "height", mapHeight);
    var visible :- IntAttribute(node, "visible", 1);
    var offsetX :- IntAttribute(node, "x", 0);
    var offsetY :- IntAttribute(node, "y", 0);
    var props :- PropertiesOf(Children(node), map[]);
    var objects :- Fold(Children(node), [], ObjectStepFn(reg));
    Ok(ObjectGroup(AttributeValue(node, "name"), AttributeValue(node, "color"), width, height,
                   AttributeValue(node, "draworder"), visible == 1, offsetX, offsetY, props, objects))
  }

  method ReadObjectLayer(node: Node, mapWidth: int, mapHeight: int, reg: Registry) returns (r: Result<ObjectGroup>)
    ensures r == ObjectLayerOf(node, mapWidth, mapHeight, reg)
  {
    var width :- IntAttribute(node, "width", mapWidth);
    var height :- IntAttribute(node, "height", mapHeight);
    var visible :- IntAttribute(node, "visible", 1);
    var offsetX :- IntAttribute(node, "x", 0);
    var offsetY :- IntAttribute(node, "y", 0);
    var children := Children(node);
    var props :- ReadProperties(children, map[]);
    var objects: seq<MapObject> := [];
    var i := 0;
    while i < |children|
      invariant 0 <= i <= |children|
      invariant Fold(children[..i], [], ObjectStepFn(reg)) == Ok(objects)
    {
      var child := children[i];
      FoldStep(children, i, [], ObjectStepFn(reg));
      if EqualsIgnoreCase("object", NodeName(child)) {
        var o := ReadObjectNode(child, reg);
        if o.Err? {
          FoldErr(children, i + 1, [], ObjectStepFn(reg));
          return Err(o.error);
        }
        objects := objects + [o.value];
      }
      i := i + 1;
    }
    assert children[..i] == children;
    r := Ok(ObjectGroup(AttributeValue(node, "name"), AttributeValue(node, "color"), width, height,
                        AttributeValue(node, "draworder"), visible == 1, offsetX, offsetY, props, objects));
  }

  /**
   * An object's gid is Long.parseLong narrowed to int: the `& 0xFFFFFFFF`
   * on an int changes nothing, so the flip flags in the high bits stay in
   * the id, which is then resolved like any other.
   */
  lemma ObjectGidNarrowed(node: Node, reg: Registry, gid: string, v: int)
    requires AttributeValue(node, "gid") == Some(gid) && ParseLong(gid) == Some(v)
    requires ObjectNodeOf(node, reg).Ok?
    ensures ObjectNodeOf(node, reg).value.tile == TileForGid(reg, Wrap32(v))
    ensures IsInt32(v) ==> ObjectNodeOf(node, reg).value.tile == TileForGid(reg, v)
    ensures TWO31 <= v < TWO32 ==> ObjectNodeOf(node, reg).value.tile == TileForGid(reg, v - TWO32)
  {
    ObjectTileOf(node, reg, gid, v);
    NarrowedTile(reg, v);
  }

  /** The tile of a long id narrowed to int, in the two ranges where the narrowing is known. */
  lemma NarrowedTile(reg: Registry, v: int)
    ensures IsInt32(v) ==> TileForGid(reg, Wrap32(v)) == TileForGid(reg, v)
    ensures TWO31 <= v < TWO32 ==> TileForGid(reg, Wrap32(v)) == TileForGid(reg, v - TWO32)
  {
    if TWO31 <= v < TWO32 {
      WrapHigh(v);
      HighGidTile(reg, v);
    }
  }

  /** Stated without the range of `v`, so that only the equality of the two ids is in play. */
  lemma HighGidTile(reg: Registry, v: int)
    requires Wrap32(v) == v - TWO32
    ensures TileForGid(reg, Wrap32(v)) == TileForGid(reg, v - TWO32)
  {
  }

  lemma ObjectTileOf(node: Node, reg: Registry, gid: string, v: int)
    requires AttributeValue(node, "gid") == Some(gid) && ParseLong(gid) == Some(v)
    requires ObjectNodeOf(node, reg).Ok?
    ensures ObjectNodeOf(node, reg).value.tile == TileForGid(reg, Wrap32(v))
  {
  }

  lemma WrapHigh(v: int)
    requires TWO31 <= v < TWO32
    ensures Wrap32(v) == v - TWO32
  {
    var r := Wrap32(v);
    assert (v - r) % TWO32 == 0;
    assert 0 < v - r < 2 * TWO32;
  }

  /** The objects are the `object` children, in document order: the k-th object is read from the k-th such child. */
  lemma {:induction false} ObjectsInOrder(cs: seq<Node>, reg: Registry)
    requires Fold(cs, [], ObjectStepFn(reg)).Ok?
    ensures var objects := Fold(cs, [], ObjectStepFn(reg)).value;
      var named := ChildElementsNamedIgnoreCase(cs, "object");
      |objects| == |named| && forall k :: 0 <= k < |named| ==> ObjectNodeOf(named[k], reg) == Ok(objects[k])
  {
    if cs != [] {
      var prefix := cs[..|cs| - 1];
      FoldStep(cs, |cs| - 1, [], ObjectStepFn(reg));
      assert cs[..|cs| - 1 + 1] == cs;
      ObjectsInOrder(prefix, reg);
    }
  }

  function ChildElementsNamedIgnoreCase(cs: seq<Node>, name: string): seq<Node>
  {
    if cs == [] then []
    else
      var last := cs[|cs| - 1];
      ChildElementsNamedIgnoreCase(cs[..|cs| - 1], name) + (if EqualsIgnoreCase(name, NodeName(last)) then [last] else [])
  }
}
