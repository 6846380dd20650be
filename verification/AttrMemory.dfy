/** Where the chunks hold the UUID and the value of each entry of the attribute table (src/nrf_hal/gatt_dm.c). */
module AttrMemory {
  import opened ChunkPool
  import opened Discovery
  import opened Uuids

  const VALUE_SIZE := 8  // sizeof(struct bt_gatt_service_val) and sizeof(struct bt_gatt_chrc)

  /** get_uuid_size, with the padding the compiler adds. */
  function UuidSize(u: Uuid): nat {
    match u
    case Uuid16(_) => 4
    case Uuid32(_) => 8
    case Uuid128(_, _) => 17
  }

  /** Bytes that are to be kept for a value in front of the UUID of entry `i`. */
  function Extra(i: nat, u: Uuid): nat {
    if i == 0 || SameUuid(u, CHRC) then VALUE_SIZE else 0
  }

  /** The UUID pointer of an entry: an offset in the chunk of the region that was handed out as number `home`. */
  datatype Place = Place(home: nat, uuidAt: int) {
    function UuidBytes(u: Uuid, handed: seq<Region>): Region
      requires home < |handed|
    {
      Region(handed[home].chunk, uuidAt, UuidSize(u))
    }

    /** What bt_gatt_dm_attr_service_val and bt_gatt_dm_attr_chrc_val find: the bytes in front of the UUID. */
    function ValueSlot(handed: seq<Region>): Region
      requires home < |handed|
    {
      Region(handed[home].chunk, uuidAt - VALUE_SIZE, VALUE_SIZE)
    }
  }

  ghost predicate Fits(p: Place, i: nat, u: Uuid, handed: seq<Region>) {
    && p.home < |handed|
    && p.uuidAt == handed[p.home].at + Extra(i, u)
    && Extra(i, u) + UuidSize(u) <= handed[p.home].len
  }

  /** Each entry has a region to itself, with room for its UUID and, where it needs one, its value. */
  ghost predicate Laid(places: seq<Place>, table: seq<Attr>, handed: seq<Region>) {
    && |places| == |table|
    && (forall i | 0 <= i < |places| :: Fits(places[i], i, table[i].uuid, handed))
    && (forall i, j | 0 <= i < j < |places| :: places[i].home < places[j].home)
  }

  /** Later regions and changed values leave everything where it is. */
  lemma StillLaid(places: seq<Place>, table: seq<Attr>, next: seq<Attr>, handed: seq<Region>, more: seq<Region>)
    requires Laid(places, table, handed) && |next| == |table|
    requires forall i | 0 <= i < |table| :: next[i].uuid == table[i].uuid
    ensures Laid(places, next, handed + more)
  {
  }

  /** A new entry in the region handed out last. */
  lemma OneMoreLaid(places: seq<Place>, table: seq<Attr>, handed: seq<Region>, p: Place, a: Attr, r: Region)
    requires Laid(places, table, handed)
    requires p.home == |handed| && Fits(p, |table|, a.uuid, handed + [r])
    ensures Laid(places + [p], table + [a], handed + [r])
  {
  }
}
