/** The bump allocator behind the discovery manager (src/nrf_hal/gatt_dm.c). */
module ChunkPool {
  import opened Bytes

  const PTR_SIZE := 4  // a 32-bit target
  const CHUNK_DATA_SIZE := 128 - PTR_SIZE - PTR_SIZE
  const DATA_ALIGN := 4

  /** Bytes `at .. at + len` of the data of chunk number `chunk`; a negative `at` lies before that data. */
  datatype Region = Region(chunk: nat, at: int, len: nat) {
    ghost predicate Disjoint(other: Region) {
      chunk != other.chunk || at + len <= other.at || other.at + other.len <= at
    }

    ghost predicate Contains(other: Region) {
      chunk == other.chunk && at <= other.at && other.at + other.len <= at + len
    }
  }

  function RoundUp(n: nat): (r: nat)
    ensures n <= r < n + DATA_ALIGN && r % DATA_ALIGN == 0
  {
    var q := (n + DATA_ALIGN - 1) / DATA_ALIGN;
    assert (n + DATA_ALIGN - 1) % DATA_ALIGN == n + DATA_ALIGN - 1 - 4 * q;
    q * DATA_ALIGN
  }

  /** Live chunks are numbered from `first` on; every region handed out is aligned, lies inside one live chunk,
      below the fill level `used` of the last one, and is disjoint from the others. */
  ghost predicate Sound(chunks: seq<nat>, first: nat, used: nat, handed: seq<Region>) {
    && used <= CHUNK_DATA_SIZE && used % DATA_ALIGN == 0
    && (forall i | 0 <= i < |chunks| :: chunks[i] == first + i)
    && (forall i | 0 <= i < |handed| ::
          && handed[i].chunk in chunks
          && 0 <= handed[i].at && handed[i].at % DATA_ALIGN == 0
          && handed[i].at + handed[i].len <= CHUNK_DATA_SIZE
          && (handed[i].chunk == chunks[|chunks| - 1] ==> handed[i].at + handed[i].len <= used))
    && (forall i, j | 0 <= i < j < |handed| :: handed[i].Disjoint(handed[j]))
  }

  /** The chunk list and the fill level of its last chunk. `handed` are the regions returned since the last
      release; chunks are numbered in the order they were allocated. */
  class Pool {
    var chunkList: seq<nat>
    var curChunkLen: nat
    ghost var handed: seq<Region>
    var taken: nat  // chunks got from the heap so far; numbers the next one
    var freed: nat  // chunks given back

    ghost predicate Valid()
      reads this
    {
      taken == freed + |chunkList| && Sound(chunkList, freed, curChunkLen, handed)
    }

    constructor ()
      ensures Valid() && chunkList == [] && handed == []
    {
      chunkList, curChunkLen, handed, taken, freed := [], 0, [], 0, 0;
    }

    /** A new chunk is needed for `len` bytes. */
    predicate NeedsChunk(len: nat)
      reads this
    {
      chunkList == [] || curChunkLen + RoundUp(len) > CHUNK_DATA_SIZE
    }

    /** There is room for `len` bytes, in the last chunk or in the one k_calloc would give. */
    predicate HasRoom(len: nat, callocOk: bool)
      reads this
    {
      !NeedsChunk(len) || callocOk
    }

    /** The same for `len` bytes allocated right behind `first` others. */
    predicate HasRoomBehind(first: nat, len: nat, callocOk: bool)
      reads this
    {
      (if NeedsChunk(first) then 0 else curChunkLen) + RoundUp(first) + RoundUp(len) <= CHUNK_DATA_SIZE || callocOk
    }

    /** user_data_alloc: an aligned region inside one chunk, disjoint from every region handed out since the last
        release (Valid). It fails exactly when a chunk is needed and there is none, and then changes nothing. */
    method Alloc(len: nat, callocOk: bool) returns (r: Option<Region>)
      requires Valid() && len <= CHUNK_DATA_SIZE
      modifies this
      ensures Valid()
      ensures r.Some? <==> old(HasRoom(len, callocOk))
      ensures r.Some? ==>
                (chunkList == old(chunkList) <==> old(chunkList) != [] && old(curChunkLen) + r.value.len <= 120)
      ensures (old(chunkList) != [] && old(curChunkLen) + RoundUp(len) <= 120) || callocOk ==> r.Some?
      ensures r.None? ==> chunkList == old(chunkList) && curChunkLen == old(curChunkLen) && handed == old(handed)
      ensures r.Some? ==> && chunkList == old(chunkList) + (if old(NeedsChunk(len)) then [old(taken)] else [])
                          && r.value == Region(chunkList[|chunkList| - 1],
                                               if old(NeedsChunk(len)) then 0 else old(curChunkLen), RoundUp(len))
                          && curChunkLen == r.value.at + r.value.len && handed == old(handed) + [r.value]
      ensures freed == old(freed)
    {
      var size := RoundUp(len);
      if chunkList == [] || curChunkLen + size > CHUNK_DATA_SIZE {
        if !callocOk {
          return None;
        }
        chunkList := chunkList + [taken];
        taken := taken + 1;
        curChunkLen := 0;
      }
      r := Some(Region(chunkList[|chunkList| - 1], curChunkLen, size));
      curChunkLen := curChunkLen + size;
      handed := handed + [r.value];
    }

    /** sys_slist_init on a list that is already empty: nothing is lost. */
    method Reset()
      requires Valid() && chunkList == []
      modifies this
      ensures Valid() && chunkList == [] && taken == old(taken) && freed == old(freed)
    {
      chunkList, curChunkLen := [], 0;
    }

    /** svc_attr_memory_release: every chunk goes back to the heap. */
    method Release()
      requires Valid()
      modifies this
      ensures Valid() && chunkList == [] && handed == [] && curChunkLen == 0 && taken == old(taken)
    {
      handed := [];
      while chunkList != []
        invariant Valid() && handed == [] && taken == old(taken)
        decreases |chunkList|
      {
        chunkList := chunkList[1..];
        freed := freed + 1;
      }
      curChunkLen := 0;
    }
  }

  /** Any part of one region is disjoint from every other region. */
  lemma PlacedApart(pool: Pool, i: nat, j: nat, part: Region)
    requires pool.Valid() && i < |pool.handed| && j < |pool.handed| && i != j
    requires pool.handed[i].Contains(part)
    ensures part.Disjoint(pool.handed[j])
  {
    if i < j {
      assert pool.handed[i].Disjoint(pool.handed[j]);
    } else {
      assert pool.handed[j].Disjoint(pool.handed[i]);
    }
  }
}
