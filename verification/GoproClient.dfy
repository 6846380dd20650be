/** The BLE client: writes to the four characteristics and notifications from them (src/gopro_client.c). */
module GoproClient {
  import opened Bytes
  import opened Reassembler

  const CMD := 0
  const SETTINGS := 1
  const QUERY := 2
  const NET := 3
  const CHANNELS := 4

  /** The write-pending bits, and the handles last put into the write parameters. */
  datatype Flags = Flags(pending: seq<bool>, handles: seq<uint16>) {
    predicate Valid() {
      |pending| == CHANNELS && |handles| == CHANNELS
    }
  }

  datatype SendResult = Accepted | NotConnected | Unsupported | Already | HostError(code: int)

  /** bt_gopro_client_send; `host` is the answer of bt_gatt_write. */
  function Send(f: Flags, writeHandles: seq<uint16>, connected: bool, cmdType: uint32, host: int): (Flags, SendResult)
    requires f.Valid() && |writeHandles| == CHANNELS
  {
    if !connected then (f, NotConnected)
    else if cmdType >= CHANNELS then (f, Unsupported)
    else if f.pending[cmdType] then (f, Already)
    else
      var named := f.(handles := f.handles[cmdType := writeHandles[cmdType]]);
      if host == 0 then (named.(pending := f.pending[cmdType := true]), Accepted) else (named, HostError(host))
  }

  /** The channel a completed write belongs to, in the order the handles are compared; -1 for none. */
  function ChannelOf(handles: seq<uint16>, handle: uint16): int
    requires |handles| == CHANNELS
  {
    if handle == handles[SETTINGS] then SETTINGS
    else if handle == handles[CMD] then CMD
    else if handle == handles[QUERY] then QUERY
    else if handle == handles[NET] then NET
    else -1
  }

  /** Every answer of a send, and what it leaves behind: without a connection, on an unknown channel or with a write
      under way nothing changes; the bit is set exactly when the host takes the write. */
  lemma {:induction false} SendAnswered(f: Flags, wh: seq<uint16>, connected: bool, cmdType: uint32, host: int)
    requires f.Valid() && |wh| == CHANNELS
    ensures var (g, r) := Send(f, wh, connected, cmdType, host);
            var free := connected && cmdType < 4 && !f.pending[cmdType];
            && (r == NotConnected <==> !connected)
            && (r == Unsupported <==> connected && cmdType >= 4)
            && (r == Already <==> connected && cmdType < 4 && f.pending[cmdType])
            && (r == Accepted <==> free && host == 0)
            && (r == HostError(host) <==> free && host != 0)
            && (!free ==> g == f)
            && (free ==> g.pending == f.pending[cmdType := host == 0] && g.handles == f.handles[cmdType := wh[cmdType]])
  {
  }

  /** Which channel a report is for: one whose last write used the handle, if there is any; of several the settings
      channel, then commands, queries, network. */
  lemma {:induction false} ChannelReported(handles: seq<uint16>, handle: uint16)
    requires |handles| == CHANNELS
    ensures var ch := ChannelOf(handles, handle);
            && (ch == -1 <==> handle !in handles)
            && (ch != -1 ==> 0 <= ch < 4 && handles[ch] == handle)
            && (ch == 0 ==> handles[1] != handle)
            && (ch == 2 ==> handle !in {handles[1], handles[0]})
            && (ch == 3 ==> handle !in {handles[1], handles[0], handles[2]})
  {
    assert handle in handles <==> exists i | 0 <= i < 4 :: handles[i] == handle;
  }

  /** A frame with the first 20 bytes of `data`. */
  ghost predicate Notified(c: Cmd, data: seq<byte>) {
    c.Valid() && c.Wire() == if |data| > FRAME_SIZE then data[..FRAME_SIZE] else data
  }

  class Client {
    var connected: bool
    const writeHandles: seq<uint16>
    const notifyHandles: seq<uint16>
    var pending: seq<bool>
    var paramHandles: seq<uint16>
    var writeSem: nat  // ble_write_sem, at most 1
    var requests: seq<(nat, seq<byte>)>  // writes taken by the host: channel and bytes

    predicate Valid()
      reads this
    {
      && |writeHandles| == |notifyHandles| == |pending| == |paramHandles| == CHANNELS
      && writeSem <= 1
    }

    ghost function Abs(): Flags
      reads this
    {
      Flags(pending, paramHandles)
    }

    constructor (writeHandles: seq<uint16>, notifyHandles: seq<uint16>)
      requires |writeHandles| == |notifyHandles| == CHANNELS
      ensures Valid() && Abs() == Flags([false, false, false, false], [0, 0, 0, 0])
      ensures this.writeHandles == writeHandles && this.notifyHandles == notifyHandles && requests == []
    {
      connected := false;
      this.writeHandles, this.notifyHandles := writeHandles, notifyHandles;
      pending, paramHandles := [false, false, false, false], [0, 0, 0, 0];
      writeSem, requests := 0, [];
    }

    /** bt_gopro_client_send. */
    method SendCmd(c: Cmd, host: int) returns (r: SendResult)
      requires Valid() && c.Valid()
      modifies this`pending, this`paramHandles, this`requests
      ensures Valid() && (Abs(), r) == Send(old(Abs()), writeHandles, connected, c.cmdType, host)
      ensures !connected ==> r == NotConnected && Abs() == old(Abs()) && requests == old(requests)
      ensures r == Accepted <==> connected && c.cmdType < 4 && !old(pending)[c.cmdType] && host == 0
      ensures requests == old(requests) + if r == Accepted then [(c.cmdType as nat, c.Wire())] else []
    {
      if !connected {
        return NotConnected;
      }
      if c.cmdType >= CHANNELS {
        return Unsupported;
      }
      var handleIndex: nat := c.cmdType;
      if pending[handleIndex] {
        return Already;
      }
      pending := pending[handleIndex := true];
      paramHandles := paramHandles[handleIndex := writeHandles[handleIndex]];
      if host != 0 {
        pending := pending[handleIndex := false];
        assert pending == old(pending);
        return HostError(host);
      }
      requests := requests + [(handleIndex, c.data[..c.len])];
      return Accepted;
    }

    /** on_sent_data: the pending bit of the handle's channel is cleared and the semaphore given. */
    method OnSentData(handle: uint16)
      requires Valid()
      modifies this`pending, this`writeSem
      ensures Valid()
      ensures var ch := ChannelOf(paramHandles, handle);
              if ch == -1 then pending == old(pending) && writeSem == old(writeSem)
              else pending == old(pending)[ch := false] && writeSem == 1
    {
      if handle == paramHandles[SETTINGS] {
        pending := pending[SETTINGS := false];
      } else if handle == paramHandles[CMD] {
        pending := pending[CMD := false];
      } else if handle == paramHandles[QUERY] {
        pending := pending[QUERY := false];
      } else if handle == paramHandles[NET] {
        pending := pending[NET := false];
      } else {
        return;
      }
      writeSem := 1;
    }

    /** on_notify_received with data: the notification of a known handle becomes a frame for the reassembler, cut
        off at 20 bytes; any other is dropped. */
    method OnNotify(valueHandle: uint16, data: seq<byte>, packet: PacketBuffer, allocOk: bool)
      returns (ghost c: Option<Cmd>)
      requires Valid() && packet.Valid()
      requires forall f: Cmd | Notified(f, data) :: Acceptable(f, allocOk)
      modifies packet, packet.data
      ensures packet.Valid()
      ensures c.None? <==> valueHandle !in notifyHandles
      ensures c.None? ==> packet.Abs() == old(packet.Abs()) && packet.delivered == old(packet.delivered)
      ensures c.Some? ==>
                && Notified(c.value, data) && c.value.cmdType < CHANNELS
                && c.value.len == (if |data| > 20 then 20 else |data|) && c.value.data[..c.value.len] <= data
                && notifyHandles[c.value.cmdType] == valueHandle && valueHandle !in notifyHandles[..c.value.cmdType]
                && packet.Abs() == Step(old(packet.Abs()), c.value, allocOk).0
                && packet.delivered == old(packet.delivered) + Step(old(packet.Abs()), c.value, allocOk).1
    {
      var cmdType: nat := 0xFF;
      var i := 0;
      while i < CHANNELS
        invariant i <= CHANNELS && cmdType == 0xFF && valueHandle !in notifyHandles[..i]
      {
        if valueHandle == notifyHandles[i] {
          cmdType := i;
          break;
        }
        i := i + 1;
      }
      if cmdType == 0xFF {
        assert notifyHandles[..i] == notifyHandles;
        return None;
      }
      var len := if |data| > FRAME_SIZE then FRAME_SIZE else |data|;
      var buffer := new byte[FRAME_SIZE];
      CopyBytes(buffer, 0, data, 0, len);
      var cmd := Cmd(len, cmdType, buffer[..]);
      assert cmd.Wire() == buffer[0..len] == data[0..len];
      packet.Build(cmd, allocOk);
      c := Some(cmd);
    }
  }
}
