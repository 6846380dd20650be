/** Frame headers and the packet reassembler (src/gopro_packet.c). */
module Reassembler {
  import opened Bytes

  const FRAME_SIZE := 20

  /** A frame buffer: `len` bytes of `data` are meaningful, the rest is whatever the memory held. */
  datatype Cmd = Cmd(len: nat, cmdType: uint32, data: seq<byte>) {
    predicate Valid() {
      |data| == FRAME_SIZE && len <= FRAME_SIZE
    }

    /** The bytes that travel over the air. */
    function Wire(): seq<byte>
      requires Valid()
    {
      data[..len]
    }
  }

  datatype FrameType = Bits5 | Bits13 | Bits16 | Continuation | Invalid

  function GetType(c: Cmd): FrameType
    requires c.Valid()
  {
    if c.data[0] >= 0x80 then Continuation
    else match (c.data[0] / 32) % 4
      case 0 => Bits5
      case 1 => Bits13
      case 2 => Bits16
      case _ => Invalid
  }

  /** Index of the first byte after the header; a continuation has a one-byte header. */
  function HeaderLen(c: Cmd): nat
    requires c.Valid()
  {
    match GetType(c)
    case Bits5 => 1
    case Bits13 => 2
    case Bits16 => 3
    case Continuation => 1
    case Invalid => 0
  }

  /** The declared message length; -1 when the header declares none. */
  function GetLen(c: Cmd): (total: int)
    requires c.Valid()
    ensures -1 <= total < 0x1_0000
    ensures total == -1 <==> GetType(c) in {Continuation, Invalid}
  {
    match GetType(c)
    case Bits5 => c.data[0] as int % 32
    case Bits13 => c.data[0] as int % 32 * 256 + c.data[1] as int
    case Bits16 => c.data[1] as int * 256 + c.data[2] as int
    case Continuation => -1
    case Invalid => -1
  }

  /** The two bytes of a 13-bit header, read back. */
  lemma LengthReadsBack(n: nat)
    requires n < 8192
    ensures n / 256 % 32 == n / 256
    ensures var high := 32 + n / 256 % 32; 32 <= high < 64 && high / 32 == 1 && high % 32 * 256 + n % 256 == n
  {
  }

  /** The three start headers read back: a 5-bit, 13-bit or 16-bit length written into a header is the length declared,
      and the header is as long as its kind says. */
  lemma HeadersReadBack(c: Cmd, n: nat)
    requires c.Valid()
    ensures GetType(c) == Invalid <==> 96 <= c.data[0] < 128
    ensures GetType(c) == Continuation <==> 128 <= c.data[0]
    ensures n < 32 && c.data[0] == n ==> GetType(c) == Bits5 && GetLen(c) == n && HeaderLen(c) == 1
    ensures n < 8192 && c.data[0] == 32 + n / 256 && c.data[1] == n % 256 ==>
              GetType(c) == Bits13 && GetLen(c) == n && HeaderLen(c) == 2
    ensures n < 0x1_0000 && 64 <= c.data[0] < 96 && c.data[1] == n / 256 && c.data[2] == n % 256 ==>
              GetType(c) == Bits16 && GetLen(c) == n && HeaderLen(c) == 3
  {
    assert n / 256 * 256 + n % 256 == n;
    if n < 8192 {
      LengthReadsBack(n);
    }
  }

  /** Where the data behind feature and action starts in a start frame. */
  function DataIndex(c: Cmd): nat
    requires c.Valid()
  {
    if GetType(c) == Invalid then 0 else HeaderLen(c) + 2
  }

  /** Feature and action bytes of a start frame; an unknown header leaves both at zero. */
  function GetFeature(c: Cmd): (byte, byte)
    requires c.Valid()
  {
    if GetType(c).Continuation? || GetType(c).Invalid? then (0, 0)
    else (c.data[HeaderLen(c)], c.data[HeaderLen(c) + 1])
  }

  /** Bytes of the message carried by one frame. */
  function Payload(c: Cmd): seq<byte>
    requires c.Valid() && HeaderLen(c) <= c.len
  {
    c.data[HeaderLen(c)..c.len]
  }

  /** In a start frame, feature and action are the first two bytes of the message, and the data index leads behind
      them. */
  lemma StartFields(c: Cmd)
    requires c.Valid() && GetType(c) in {Bits5, Bits13, Bits16} && HeaderLen(c) + 2 <= c.len
    ensures GetFeature(c) == (Payload(c)[0], Payload(c)[1])
    ensures DataIndex(c) <= c.len && c.data[DataIndex(c)..c.len] == Payload(c)[2..]
  {
  }

  /** One call of gopro_packet_parse. */
  datatype Delivery = Delivery(packetType: byte, feature: byte, action: byte,
                               totalLen: uint32, packetLen: uint32, data: seq<byte>)

  /** What the reassembler is in the middle of: nothing, or a message of which `got` has arrived. */
  datatype Session =
    | Idle
    | Open(packetType: byte, feature: byte, action: byte, total: uint32, got: seq<byte>)

  /** Frames that do not make the original read or write outside its buffers: the header is there, a first
      payload fits the declared length, and nothing allocates the 4 GiB an unknown header asks for. */
  ghost predicate Acceptable(c: Cmd, allocOk: bool) {
    && c.Valid()
    && 1 <= c.len
    && HeaderLen(c) <= c.len
    && (GetType(c).Invalid? ==> !allocOk)
    && (!GetType(c).Continuation? && allocOk && GetLen(c) > 0 ==> c.len - HeaderLen(c) <= GetLen(c))
  }

  /** A session whose last byte has arrived is delivered and closed. */
  function Settle(s: Session): (Session, seq<Delivery>)
    requires s.Open?
  {
    if |s.got| == s.total
    then (Idle, [Delivery(s.packetType, s.feature, s.action, s.total, Sub32(s.total, 2), s.got)])
    else (s, [])
  }

  /** A continuation's payload joins the session, unless there is none or it would overflow. */
  function Extend(s: Session, payload: seq<byte>): (Session, seq<Delivery>) {
    if s.Idle? || |s.got| + |payload| > s.total then (Idle, [])
    else Settle(s.(got := s.got + payload))
  }

  /** One frame: a start frame replaces the session, a continuation extends, completes or overflows it. */
  function Step(s: Session, c: Cmd, allocOk: bool): (Session, seq<Delivery>)
    requires Acceptable(c, allocOk)
  {
    if GetType(c).Continuation? then Extend(s, Payload(c))
    else if !allocOk || GetLen(c) == 0 then (Idle, [])
    else Settle(Open(c.cmdType % 256, GetFeature(c).0, GetFeature(c).1, GetLen(c), Payload(c)))
  }

  /** memcpy of `src[from..from+n]` to `dst[at..]`. */
  method CopyBytes(dst: array<byte>, at: nat, src: seq<byte>, from: nat, n: nat)
    requires at + n <= dst.Length && from + n <= |src|
    modifies dst
    ensures dst[..at] == old(dst[..at])
    ensures dst[at..at + n] == src[from..from + n]
    ensures dst[at + n..] == old(dst[at + n..])
  {
    for i := 0 to n
      invariant dst[..at] == old(dst[..at])
      invariant dst[at..at + i] == src[from..from + i]
      invariant dst[at + n..] == old(dst[at + n..])
    {
      dst[at + i] := src[from + i];
      assert dst[at..at + i + 1] == dst[at..at + i] + [src[from + i]];
    }
  }

  /** A zeroed buffer of `size` bytes that starts with `payload`. */
  method NewBuffer(size: nat, payload: seq<byte>) returns (buffer: array<byte>)
    requires |payload| <= size
    ensures fresh(buffer) && buffer.Length == size
    ensures buffer[..|payload|] == payload && buffer[|payload|..] == Zeros(size - |payload|)
  {
    buffer := new byte[size](_ => 0);
    CopyBytes(buffer, 0, payload, 0, |payload|);
  }

  /** The global `gopro_packet`, updated in place frame by frame. */
  class PacketBuffer {
    var totalLen: uint32
    var packetLen: uint32
    var pktLen: uint32
    var dataLen: uint32
    var savedLen: uint32
    var pktStartIndex: byte
    var dataStartIndex: byte
    var packetType: byte
    var feature: byte
    var action: byte
    var data: array?<byte>

    var delivered: seq<Delivery>  // calls of gopro_packet_parse, in order
    ghost var allocations: nat
    ghost var frees: nat

    ghost predicate Valid()
      reads this, data
    {
      && allocations == frees + (if data == null then 0 else 1)
      && (data != null ==>
            && data.Length == totalLen
            && savedLen < totalLen < 0x1_0000
            && packetLen == Sub32(totalLen, 2)
            && data[savedLen..] == Zeros(totalLen - savedLen))
    }

    ghost function Abs(): Session
      requires Valid()
      reads this, data
    {
      if data == null then Idle else Open(packetType, feature, action, totalLen, data[..savedLen])
    }

    constructor ()
      ensures Valid() && Abs() == Idle && delivered == []
    {
      totalLen, packetLen, pktLen, dataLen, savedLen := 0, 0, 0, 0, 0;
      pktStartIndex, dataStartIndex, packetType, feature, action := 0, 0, 0, 0, 0;
      data, delivered := null, [];
      allocations, frees := 0, 0;
    }

    method Free()
      requires data != null
      modifies this`data, this`frees
      ensures data == null && frees == old(frees) + 1
    {
      frees := frees + 1;
      data := null;
    }

    /** gopro_packet_parse is called on the full buffer, which is then freed. */
    method DeliverAndFree()
      requires data != null && data.Length == totalLen
      modifies this`data, this`frees, this`delivered
      ensures data == null && frees == old(frees) + 1
      ensures delivered == old(delivered) +
                           [Delivery(packetType, feature, action, totalLen, packetLen, old(data[..]))]
    {
      delivered := delivered + [Delivery(packetType, feature, action, totalLen, packetLen, data[..])];
      Free();
    }

    /** gopro_packet_build. `allocOk` is the answer of k_malloc, should it be asked. */
    method Build(c: Cmd, allocOk: bool)
      requires Valid() && Acceptable(c, allocOk)
      modifies this, data
      ensures Valid() && (data == null || data == old(data) || fresh(data))
      ensures Abs() == Step(old(Abs()), c, allocOk).0
      ensures delivered == old(delivered) + Step(old(Abs()), c, allocOk).1
    {
      if GetType(c) == Continuation {
        dataStartIndex, dataLen := 1, c.len - 1;
        if data == null {
          return;
        }
        if (dataLen + savedLen) % TWO32 > totalLen {
          Free();
          return;
        }
        Append(c);
      } else {
        if data != null {
          Free();
        }
        Start(c, allocOk);
      }
    }

    /** The continuation branch, once the payload is known to fit. */
    method Append(c: Cmd)
      requires Valid() && Acceptable(c, true) && GetType(c) == Continuation
      requires data != null && dataStartIndex == 1 && dataLen == c.len - 1 && savedLen + dataLen <= totalLen
      modifies this, data
      ensures Valid() && (data == null || data == old(data))
      ensures Abs() == Extend(old(Abs()), Payload(c)).0
      ensures delivered == old(delivered) + Extend(old(Abs()), Payload(c)).1
    {
      ghost var before := Abs();
      ghost var tail := data[savedLen + dataLen..];
      assert tail == Zeros(totalLen - savedLen - dataLen) by {
        assert tail == data[savedLen..][dataLen..];
      }
      CopyBytes(data, savedLen, c.data, dataStartIndex, dataLen);
      savedLen := savedLen + dataLen;
      assert data[..savedLen] == before.got + Payload(c);
      if savedLen == totalLen {
        assert data[..] == data[..savedLen];
        DeliverAndFree();
      }
    }

    /** The fields a start frame sets, after the memset of the whole structure. */
    method ReadHeader(c: Cmd)
      requires c.Valid() && 1 <= c.len && HeaderLen(c) <= c.len
      modifies this`totalLen, this`packetLen, this`pktLen, this`dataLen, this`savedLen, this`pktStartIndex,
               this`dataStartIndex, this`packetType, this`feature, this`action
      ensures packetType == c.cmdType % 256 && (feature, action) == GetFeature(c)
      ensures totalLen == ToUint32(GetLen(c)) && packetLen == Sub32(totalLen, 2)
      ensures savedLen == 0 && pktStartIndex == HeaderLen(c) && pktLen == c.len - HeaderLen(c)
      ensures dataStartIndex == DataIndex(c) && dataLen == Sub32(c.len, DataIndex(c))
    {
      savedLen := 0;
      packetType := c.cmdType % 256;
      feature, action := GetFeature(c).0, GetFeature(c).1;
      dataStartIndex := DataIndex(c);
      dataLen := Sub32(c.len, dataStartIndex);
      pktStartIndex, pktLen := HeaderLen(c), c.len - HeaderLen(c);
      totalLen := ToUint32(GetLen(c));
      packetLen := Sub32(totalLen, 2);
    }

    /** The start-frame branch, once a forgotten buffer has been freed. */
    method Start(c: Cmd, allocOk: bool)
      requires Valid() && Acceptable(c, allocOk) && GetType(c) != Continuation && data == null
      modifies this
      ensures Valid() && (data == null || fresh(data))
      ensures Abs() == Step(Idle, c, allocOk).0
      ensures delivered == old(delivered) + Step(Idle, c, allocOk).1
    {
      ReadHeader(c);
      if totalLen == 0 || !allocOk {
        return;
      }
      data := NewBuffer(totalLen, c.data[pktStartIndex..pktStartIndex + pktLen]);
      allocations := allocations + 1;
      savedLen := pktLen;
      assert data[..savedLen] == Payload(c);
      if savedLen == totalLen {
        assert data[..] == data[..savedLen];
        DeliverAndFree();
      }
    }
  }
}
