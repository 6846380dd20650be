/** Status notifications: a list of (id, length, value) entries (src/gopro_packet.c). */
module Status {
  import opened Bytes

  const STATUS_ENCODING: byte := 10
  const STATUS_VIDEO_NUM: byte := 39
  const STATUS_BAT_PERCENT: byte := 70
  const REG_STATUS: byte := 0x53
  const REG_STATUS_NOTIFY: byte := 0x93

  /** The part of `gopro_state` that status messages change, with the recording LED they switch. */
  datatype CameraStatus = CameraStatus(record: byte, videoCount: uint32, battery: byte, recordLed: bool)

  datatype Entry = Entry(id: byte, length: byte, value: seq<byte>) {
    /** Encoding and battery are one byte, whatever their length byte says; other values are as long as that. */
    ghost predicate WellFormed() {
      |value| == if id in {STATUS_ENCODING, STATUS_BAT_PERCENT} then 1 else length
    }

    function Encode(): seq<byte> {
      [id, length] + value
    }
  }

  ghost predicate AllWellFormed(es: seq<Entry>) {
    forall i | 0 <= i < |es| :: es[i].WellFormed()
  }

  ghost function EncodeAll(es: seq<Entry>): seq<byte>
    requires AllWellFormed(es)
  {
    if es == [] then [] else es[0].Encode() + EncodeAll(es[1..])
  }

  /** What one entry means. */
  ghost function Apply(s: CameraStatus, e: Entry): CameraStatus
    requires e.WellFormed()
  {
    if e.id == STATUS_ENCODING then s.(record := e.value[0], recordLed := e.value[0] > 0)
    else if e.id == STATUS_VIDEO_NUM then s.(videoCount := BigEndian(e.value) % TWO32)
    else if e.id == STATUS_BAT_PERCENT then s.(battery := e.value[0])
    else s
  }

  ghost function Fold(s: CameraStatus, es: seq<Entry>): CameraStatus
    requires AllWellFormed(es)
    decreases |es|
  {
    if es == [] then s else Fold(Apply(s, es[0]), es[1..])
  }

  /** Value bytes the parser takes for an entry with length byte `n`. */
  function Used(id: byte, n: byte): nat {
    if id in {STATUS_ENCODING, STATUS_BAT_PERCENT} then 1 else n
  }

  /** The entry loop on arbitrary memory: status, position, and the counter it stops with. */
  ghost function Walk(mem: Memory, at: nat, left: int, s: CameraStatus): (CameraStatus, nat, int)
    decreases left
  {
    if left <= 0 then (s, at, left)
    else
      var used := Used(mem(at), mem(at + 1));
      Walk(mem, at + 2 + used, left - 2 - used, Apply(s, Entry(mem(at), mem(at + 1), Slice(mem, at + 2, used))))
  }

  /** On every input, what the counter loses the position gains. */
  lemma {:induction false} WalkConserves(mem: Memory, at: nat, left: int, s: CameraStatus)
    ensures Walk(mem, at, left, s).1 + Walk(mem, at, left, s).2 == at + left
    decreases left
  {
    if left > 0 {
      var used := Used(mem(at), mem(at + 1));
      var e := Entry(mem(at), mem(at + 1), Slice(mem, at + 2, used));
      WalkConserves(mem, at + 2 + used, left - 2 - used, Apply(s, e));
    }
  }

  class CameraState {
    var record: byte
    var videoCount: uint32
    var battery: byte
    var recordLed: bool

    ghost function Abs(): CameraStatus
      reads this
    {
      CameraStatus(record, videoCount, battery, recordLed)
    }

    /** The accumulation loop for the video count. */
    method ReadVideoCount(mem: Memory, at: nat, n: byte)
      modifies this`videoCount
      ensures videoCount == BigEndian(Slice(mem, at, n)) % TWO32
    {
      videoCount := 0;
      for i := 0 to n
        invariant videoCount == BigEndian(Slice(mem, at, i)) % TWO32
      {
        ghost var prefix := Slice(mem, at, i);
        assert Slice(mem, at, i + 1)[..i] == prefix;
        AppendDigit(BigEndian(prefix), mem(at + i));
        videoCount := (videoCount * 256 + mem(at + i)) % TWO32;
      }
    }

    method SetEncoding(value: byte)
      modifies this`record, this`recordLed
      ensures record == value && recordLed == (value > 0)
    {
      record := value;
      if record > 0 {
        recordLed := true;
      } else {
        recordLed := false;
      }
    }

    /** One turn of the entry loop: how many value bytes it takes depends on the id. */
    method ParseEntry(mem: Memory, at: nat) returns (used: nat)
      modifies this
      ensures used == Used(mem(at), mem(at + 1))
      ensures Abs() == Apply(old(Abs()), Entry(mem(at), mem(at + 1), Slice(mem, at + 2, used)))
    {
      var id, idLen := mem(at), mem(at + 1);
      match id {
        case 10 =>
          SetEncoding(mem(at + 2));
          used := 1;
        case 39 =>
          ReadVideoCount(mem, at + 2, idLen);
          used := idLen;
        case 70 =>
          battery := mem(at + 2);
          used := 1;
        case _ =>
          used := idLen;
      }
    }

    /** gopro_parse_query_status_notify. It ends on every input, since the counter loses at least 2 per entry. */
    method ParseNotify(mem: Memory, length: uint16) returns (ret: int, at: nat)
      modifies this
      ensures mem(0) !in {REG_STATUS, REG_STATUS_NOTIFY} || mem(1) != 0 ==> ret == -1 && Abs() == old(Abs())
      ensures mem(0) in {REG_STATUS, REG_STATUS_NOTIFY} && mem(1) == 0 ==>
                var walk := Walk(mem, 2, length - 3, old(Abs()));
                ret == 0 && Abs() == walk.0 && at == walk.1
      ensures mem(0) in {REG_STATUS, REG_STATUS_NOTIFY} && mem(1) == 0 ==>
                (at > length <==> Walk(mem, 2, length - 3, old(Abs())).2 < -1)
    {
      var totalDataLen: int := length;
      var id, result := mem(0), mem(1);
      at := 2;
      if id != REG_STATUS_NOTIFY && id != REG_STATUS {
        return -1, at;
      }
      if result != 0 {
        return -1, at;
      }
      totalDataLen := totalDataLen - 3;
      while totalDataLen > 0
        invariant Walk(mem, at, totalDataLen, Abs()) == Walk(mem, 2, length - 3, old(Abs()))
        decreases totalDataLen
      {
        var used := ParseEntry(mem, at);
        at, totalDataLen := at + 2 + used, totalDataLen - 2 - used;
      }
      WalkConserves(mem, 2, length - 3, old(Abs()));
      ret := 0;
    }

    /** gopro_parse_query_status_reply: one entry, whatever id and result precede it. */
    method ParseReply(mem: Memory) returns (ret: int)
      modifies this
      ensures ret == 0
      ensures var used := Used(mem(2), mem(3));
              Abs() == Apply(old(Abs()), Entry(mem(2), mem(3), Slice(mem, 4, used)))
    {
      var statusId, statusLen := mem(2), mem(3);
      match statusId {
        case 39 => ReadVideoCount(mem, 4, statusLen);
        case 70 => battery := mem(4);
        case 10 => SetEncoding(mem(4));
        case _ =>
      }
      ret := 0;
    }
  }

  /** One step of a 32-bit accumulator is one more digit of the number, modulo 2^32. */
  lemma AppendDigit(v: nat, d: byte)
    ensures (v % TWO32 * 256 + d) % TWO32 == (v * 256 + d) % TWO32
  {
    var q := v / TWO32;
    assert v * 256 + d == v % TWO32 * 256 + d + 256 * q * TWO32;
    ModPlusMultiple(v % TWO32 * 256 + d, 256 * q);
  }

  lemma ModPlusMultiple(x: nat, k: nat)
    ensures (x + k * TWO32) % TWO32 == x % TWO32
  {
  }

  lemma {:induction false} EntryInMemory(mem: Memory, at: nat, e: Entry, rest: seq<byte>)
    requires Holds(mem, at, e.Encode() + rest)
    ensures mem(at) == e.id && mem(at + 1) == e.length && Slice(mem, at + 2, |e.value|) == e.value
    ensures Holds(mem, at + 2 + |e.value|, rest)
  {
    assert e.Encode() + rest == [e.id] + ([e.length] + (e.value + rest));
    HoldsSplit(mem, at, [e.id], [e.length] + (e.value + rest));
    HoldsSplit(mem, at + 1, [e.length], e.value + rest);
    HoldsSplit(mem, at + 2, e.value, rest);
  }

  /** On a well-formed list the loop applies exactly the entries and stops exactly at the end of the buffer, with
      its counter one below the bytes left throughout. One stray byte behind the list changes nothing. */
  lemma {:induction false} WalkIsFold(mem: Memory, at: nat, es: seq<Entry>, s: CameraStatus, stray: nat)
    requires AllWellFormed(es) && Holds(mem, at, EncodeAll(es)) && stray <= 1
    ensures Walk(mem, at, |EncodeAll(es)| + stray - 1, s) == (Fold(s, es), at + |EncodeAll(es)|, stray - 1)
    decreases |es|
  {
    if es != [] {
      var e, rest := es[0], EncodeAll(es[1..]);
      EntryInMemory(mem, at, e, rest);
      WalkIsFold(mem, at + 2 + |e.value|, es[1..], Apply(s, e), stray);
    }
  }

  /** A notification message as ParseNotify sees it. */
  lemma NotifyIsFold(mem: Memory, es: seq<Entry>, s: CameraStatus, id: byte)
    requires AllWellFormed(es) && id in {REG_STATUS, REG_STATUS_NOTIFY}
    requires Holds(mem, 0, [id, 0] + EncodeAll(es))
    ensures Walk(mem, 2, |[id, 0] + EncodeAll(es)| - 3, s) == (Fold(s, es), |[id, 0] + EncodeAll(es)|, -1)
  {
    HoldsSplit(mem, 0, [id, 0], EncodeAll(es));
    WalkIsFold(mem, 2, es, s, 0);
  }

  /** A reply with one entry sets what a notification with that entry sets. */
  lemma ReplyAgreesWithNotify(mem: Memory, e: Entry, s: CameraStatus, id: byte)
    requires e.WellFormed() && id in {REG_STATUS, REG_STATUS_NOTIFY}
    requires Holds(mem, 0, [id, 0] + e.Encode())
    ensures var used := Used(mem(2), mem(3));
            && Apply(s, Entry(mem(2), mem(3), Slice(mem, 4, used))) == Apply(s, e)
            && Walk(mem, 2, |[id, 0] + e.Encode()| - 3, s).0 == Apply(s, e)
  {
    assert EncodeAll([e]) == e.Encode();
    NotifyIsFold(mem, [e], s, id);
    HoldsSplit(mem, 0, [id, 0], e.Encode());
    assert e.Encode() + [] == e.Encode();
    EntryInMemory(mem, 2, e, []);
    assert Fold(s, [e]) == Apply(s, e);
  }

  /** Each field ends up with the value of its last entry, and keeps its old value when it has none. */
  lemma {:induction false} LastEntryWins(s: CameraStatus, es: seq<Entry>, id: byte, k: int)
    requires AllWellFormed(es) && -1 <= k < |es|
    requires k >= 0 ==> es[k].id == id
    requires forall i | k < i < |es| :: es[i].id != id
    ensures var t := Fold(s, es);
            && (id == STATUS_ENCODING ==>
                  if k == -1 then t.record == s.record && t.recordLed == s.recordLed
                  else t.record == es[k].value[0] && t.recordLed == (t.record > 0))
            && (id == STATUS_VIDEO_NUM ==>
                  t.videoCount == if k == -1 then s.videoCount else BigEndian(es[k].value) % TWO32)
            && (id == STATUS_BAT_PERCENT ==>
                  t.battery == if k == -1 then s.battery else es[k].value[0])
    decreases |es|
  {
    if es != [] {
      LastEntryWins(Apply(s, es[0]), es[1..], id, if k > 0 then k - 1 else -1);
    }
  }
}
