/**
 * Global tile ids. While a map loads, every tileset is registered under its
 * first global id in an ordered map; a global id resolves to the tileset
 * with the greatest first id not above it, and to that tileset's tile at the
 * local index `gid - firstGid` (a Java int subtraction).
 */
module GidResolver {
  import opened Results
  import opened JavaInt
  import opened FloorMap
  import opened Tiled

  /** The TreeMap<Integer, Tileset> tilesetPerFirstGid. */
  type Registry = r: seq<Entry<Tileset>> | Sorted(r) witness []

  /** setFirstGidForTileset: TreeMap.put. */
  function Register(reg: Registry, ts: Tileset, firstGid: int): (reg': Registry)
    ensures ToMap(reg') == ToMap(reg)[firstGid := ts]
  {
    Put(reg, firstGid, ts)
  }

  /** `k` is the greatest first id registered at or below `gid`. */
  ghost predicate IsFloorKey(reg: Registry, gid: int, k: int)
  {
    k in ToMap(reg) && k <= gid && forall k' :: k' in ToMap(reg) && k' <= gid ==> k' <= k
  }

  /** Every registered first id is above `gid`. */
  ghost predicate AllAbove(reg: Registry, gid: int)
  {
    forall k :: k in ToMap(reg) ==> k > gid
  }

  /**
   * getTileForTileGID: with `k` the greatest registered first id not above
   * `gid`, the tile at local id `gid - k` (an int subtraction) of the
   * tileset under `k`; no tile when every first id is above `gid`.
   */
  function TileForGid(reg: Registry, gid: int): (t: Option<Tile>)
    ensures AllAbove(reg, gid) ==> t.None?
    ensures forall k :: IsFloorKey(reg, gid, k) ==> t == GetTile(ToMap(reg)[k], Wrap32(gid - k))
  {
    FloorOfMap(reg, gid);
    match Floor(reg, gid)
    case None => None
    case Some(e) => GetTile(e.value, Wrap32(gid - e.key))
  }

  /**
   * Resolution read on the registry as a map: with `k` the greatest first id
   * not above `gid`, the tile is the one at local index `gid - k` of the
   * tileset under `k`; with no first id at or below `gid` there is no tile.
   */
  lemma ResolveByGreatestFirstGid(reg: Registry, gid: int, k: int)
    requires k in ToMap(reg) && k <= gid
    requires forall k' :: k' in ToMap(reg) && k' <= gid ==> k' <= k
    ensures TileForGid(reg, gid) == GetTile(ToMap(reg)[k], Wrap32(gid - k))
    ensures IsInt32(gid) && IsInt32(k) && k >= 0 ==> TileForGid(reg, gid) == GetTile(ToMap(reg)[k], gid - k)
  {
    assert IsFloorKey(reg, gid, k);
    if IsInt32(gid) && IsInt32(k) && k >= 0 {
      assert IsInt32(gid - k);
    }
  }

  lemma ResolveBelowEveryFirstGid(reg: Registry, gid: int)
    requires forall k :: k in ToMap(reg) ==> k > gid
    ensures TileForGid(reg, gid).None?
  {
    assert AllAbove(reg, gid);
  }

  /** With only positive first ids registered, no negative or zero id resolves to a tile. */
  lemma NonPositiveGidUnresolved(reg: Registry, gid: int)
    requires forall k :: k in ToMap(reg) ==> k > 0
    requires gid <= 0
    ensures TileForGid(reg, gid).None?
  {
    ResolveBelowEveryFirstGid(reg, gid);
  }

  /** Registering a first id again replaces the earlier tileset. */
  lemma RegisterOverwrites(reg: Registry, a: Tileset, b: Tileset, firstGid: int)
    ensures ToMap(Register(Register(reg, a, firstGid), b, firstGid)) == ToMap(Register(reg, b, firstGid))
  {
    var once := Register(reg, a, firstGid);
    UpdateTwice(ToMap(reg), firstGid, a, b);
    assert ToMap(Register(once, b, firstGid)) == ToMap(once)[firstGid := b];
  }

  lemma UpdateTwice<V>(m: map<int, V>, k: int, a: V, b: V)
    ensures m[k := a][k := b] == m[k := b]
  {
  }

  /**
   * A tileset registered under `firstGid` serves every id from `firstGid` up
   * to (not including) the next registered first id.
   */
  lemma RegisteredTilesetServes(reg: Registry, ts: Tileset, firstGid: int, gid: int)
    requires firstGid <= gid
    requires forall k :: k in ToMap(reg) && k != firstGid ==> k < firstGid || k > gid
    ensures TileForGid(Register(reg, ts, firstGid), gid) == GetTile(ts, Wrap32(gid - firstGid))
  {
    var reg' := Register(reg, ts, firstGid);
    ResolveByGreatestFirstGid(reg', gid, firstGid);
  }
}
