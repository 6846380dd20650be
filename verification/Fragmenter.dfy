/** Cutting buffers into frames (src/gopro_protobuf.c). */
module Fragmenter {
  import opened Bytes
  import opened Reassembler
  import opened Reassembly

  const GP_CNTRL_HANDLE_END: uint32 := 4
  const CONTROL_TYPE: uint32 := 0xFF

  /** gopro_cmd_validator: control commands always pass, others need a connection, a length and a channel. */
  predicate Validator(c: Cmd, connected: bool) {
    c.cmdType == CONTROL_TYPE || (connected && c.len <= FRAME_SIZE && c.cmdType < GP_CNTRL_HANDLE_END)
  }

  /** The zbus channel `gopro_cmd_chan`: everything offered to it, and which of that it took. */
  class CommandChannel {
    var connected: bool
    var offered: seq<Cmd>
    var taken: seq<bool>

    ghost predicate Valid()
      reads this
    {
      |taken| == |offered| && forall i | 0 <= i < |taken| :: taken[i] ==> Validator(offered[i], connected)
    }

    constructor (connected: bool)
      ensures Valid() && this.connected == connected && offered == []
    {
      this.connected, offered, taken := connected, [], [];
    }

    /** zbus_chan_pub without waiting: refused by a busy channel, and by the validator unless the command is for the
        firmware itself, or connected, at most 20 bytes long and for one of the four channels. */
    method Publish(c: Cmd) returns (busy: bool)
      requires Valid()
      modifies this`offered, this`taken
      ensures Valid() && offered == old(offered) + [c]
      ensures taken == old(taken) + [!busy && (c.cmdType == 0xFF || (connected && c.len <= 20 && c.cmdType < 4))]
    {
      busy := *;
      offered, taken := offered + [c], taken + [Validator(c, connected) && !busy];
    }
  }

  // ---- what goes over the air ----

  /** Continuation frames for `rest`, the first of them numbered `n`. */
  function ContinuationWires(rest: seq<byte>, n: nat): seq<seq<byte>> {
    if rest == [] then []
    else
      var k := Min(19, |rest|);
      [[0x80 + n % 16] + rest[..k]] + ContinuationWires(rest[k..], n + 1)
  }

  /** A message too long for one frame: a 13-bit start frame and continuations. */
  function LongWires(body: seq<byte>): seq<seq<byte>>
    requires 18 <= |body|
  {
    [[32 + |body| / 256 % 32, |body| % 256] + body[..18]] + ContinuationWires(body[18..], 0)
  }

  /** The frames of gopro_send_big_data. */
  function BigDataWires(feature: byte, action: byte, payload: seq<byte>): seq<seq<byte>> {
    var body := [feature, action] + payload;
    if |payload| <= 17 then [[|body| % 32] + body]
    else if |payload| < 8191 then LongWires(body)
    else []
  }

  /** The frames of gopro_send_buf; a buffer that fits one frame is already framed. */
  function BufferWires(data: seq<byte>): seq<seq<byte>> {
    if |data| <= 20 then [data] else if |data| < 8191 then LongWires(data) else []
  }

  ghost predicate OnWire(cs: seq<Cmd>, kind: uint32, wires: seq<seq<byte>>) {
    && |cs| == |wires|
    && forall i | 0 <= i < |cs| :: cs[i].Valid() && cs[i].cmdType == kind && cs[i].Wire() == wires[i]
  }

  // ---- the fragmenters ----

  /** Fills the reused frame buffer with `header` and `chunk`, leaves older bytes behind them, and publishes. */
  method SendFrame(channel: CommandChannel, frame: array<byte>, kind: uint32, header: seq<byte>, chunk: seq<byte>)
    returns (ghost c: Cmd)
    requires channel.Valid() && frame.Length == FRAME_SIZE && |header| + |chunk| <= FRAME_SIZE
    modifies channel`offered, channel`taken, frame
    ensures channel.Valid() && channel.offered == old(channel.offered) + [c]
    ensures c.Valid() && c.cmdType == kind && c.Wire() == header + chunk
  {
    CopyBytes(frame, 0, header, 0, |header|);
    CopyBytes(frame, |header|, chunk, 0, |chunk|);
    var cmd := Cmd(|header| + |chunk|, kind, frame[..]);
    assert cmd.Wire() == frame[..|header|] + frame[|header|..|header| + |chunk|];
    var _ := channel.Publish(cmd);
    c := cmd;
  }

  /** The 8-bit packet counter wraps, the nibble it contributes does not notice. */
  lemma NibbleOfCounter(n: nat)
    ensures n % 256 % 16 == n % 16 && (n % 256 + 1) % 256 == (n + 1) % 256
  {
    var q, r := n / 256, n % 256;
    assert n == 256 * q + r;
    var k := r / 16;
    assert r == 16 * k + r % 16;
    SameRemainder(n, 16 * q + k, 16, r % 16);
    SameRemainder(n + 1, if r == 255 then q + 1 else q, 256, if r == 255 then 0 else r + 1);
  }

  lemma SameRemainder(n: nat, q: nat, d: nat, r: nat)
    requires d in {16, 256} && r < d && n == d * q + r
    ensures n % d == r
  {
  }

  /** Sending the next continuation of `rest`, after `sent`. */
  lemma {:induction false} NextWire(sent: seq<Cmd>, kind: uint32, wires: seq<seq<byte>>, c: Cmd, rest: seq<byte>)
    requires OnWire(sent, kind, wires) && rest != []
    requires c.Valid() && c.cmdType == kind && c.Wire() == [0x80 + |sent| % 16] + rest[..Min(19, |rest|)]
    ensures OnWire(sent + [c], kind, wires + [c.Wire()])
    ensures wires + [c.Wire()] + ContinuationWires(rest[Min(19, |rest|)..], |sent| + 1) ==
            wires + ContinuationWires(rest, |sent|)
  {
    ExtendOnWire(sent, kind, wires, c);
    var later := ContinuationWires(rest[Min(19, |rest|)..], |sent| + 1);
    assert wires + ([c.Wire()] + later) == wires + [c.Wire()] + later;
  }

  lemma {:induction false} ExtendOnWire(sent: seq<Cmd>, kind: uint32, wires: seq<seq<byte>>, c: Cmd)
    requires OnWire(sent, kind, wires) && c.Valid() && c.cmdType == kind
    ensures OnWire(sent + [c], kind, wires + [c.Wire()])
  {
  }

  /** The continuation loop shared by both fragmenters. */
  method SendContinuations(channel: CommandChannel, frame: array<byte>, kind: uint32, data: seq<byte>)
    returns (ghost sent: seq<Cmd>)
    requires channel.Valid() && frame.Length == FRAME_SIZE && |data| < TWO32
    modifies channel`offered, channel`taken, frame
    ensures channel.Valid() && channel.offered == old(channel.offered) + sent
    ensures OnWire(sent, kind, ContinuationWires(data, 0))
  {
    var len: uint32, at: nat, packetNum: byte := |data|, 0, 0;
    ghost var wires := [];
    sent := [];
    while len > 0
      invariant channel.Valid() && channel.offered == old(channel.offered) + sent
      invariant at + len == |data| && packetNum == |sent| % 256
      invariant OnWire(sent, kind, wires)
      invariant wires + ContinuationWires(data[at..], |sent|) == ContinuationWires(data, 0)
    {
      NibbleOfCounter(|sent|);
      var dataLen: byte := if len > 19 then 19 else len;
      assert data[at..][..dataLen] == data[at..at + dataLen] && data[at..][dataLen..] == data[at + dataLen..];
      ghost var c := SendFrame(channel, frame, kind, [0x80 + packetNum % 16], data[at..at + dataLen]);
      NextWire(sent, kind, wires, c, data[at..]);
      wires := wires + [c.Wire()];
      sent := sent + [c];
      packetNum := (packetNum + 1) % 256;
      len := len - dataLen;
      at := at + dataLen;
    }
  }

  /** A buffer that fits one frame. */
  method SendShort(channel: CommandChannel, frame: array<byte>, kind: uint32, header: seq<byte>, data: seq<byte>)
    returns (ghost sent: seq<Cmd>)
    requires channel.Valid() && frame.Length == FRAME_SIZE && |header| + |data| <= FRAME_SIZE
    modifies channel`offered, channel`taken, frame
    ensures channel.Valid() && channel.offered == old(channel.offered) + sent
    ensures OnWire(sent, kind, [header + data]) && (header == [] ==> OnWire(sent, kind, [data]))
  {
    ghost var c := SendFrame(channel, frame, kind, header, data);
    sent := [c];
  }

  /** The 13-bit branch: a start frame, then continuations in the same frame buffer. */
  method SendLong(channel: CommandChannel, frame: array<byte>, kind: uint32, header: seq<byte>, first: seq<byte>,
                  rest: seq<byte>) returns (ghost sent: seq<Cmd>)
    requires channel.Valid() && frame.Length == FRAME_SIZE && |header| + |first| == FRAME_SIZE && |rest| < TWO32
    modifies channel`offered, channel`taken, frame
    ensures channel.Valid() && channel.offered == old(channel.offered) + sent
    ensures OnWire(sent, kind, [header + first] + ContinuationWires(rest, 0))
  {
    ghost var c := SendFrame(channel, frame, kind, header, first);
    ghost var later := SendContinuations(channel, frame, kind, rest);
    sent := [c] + later;
  }

  /** A frame written field by field is the header with the message. */
  lemma ShortFrame(data: seq<byte>, feature: byte, action: byte)
    requires |data| <= 17
    ensures BigDataWires(feature, action, data) == [[(|data| + 2) % 32, feature, action] + data]
  {
    var body := [feature, action] + data;
    assert [|body| % 32] + body == [(|data| + 2) % 32, feature, action] + data;
  }

  /** The start frame written field by field is the header with the first 18 bytes of the message. */
  lemma StartFrame(data: seq<byte>, feature: byte, action: byte)
    requires 18 <= |data| < 8191
    ensures BigDataWires(feature, action, data) ==
            [[(|data| + 2) / 256 % 32 + 32, (|data| + 2) % 256, feature, action] + data[..16]]
            + ContinuationWires(data[16..], 0)
  {
    var body := [feature, action] + data;
    assert [(|data| + 2) / 256 % 32 + 32, (|data| + 2) % 256, feature, action] + data[..16]
        == [32 + |body| / 256 % 32, |body| % 256] + body[..18];
    assert data[16..] == body[18..];
  }

  /** gopro_send_big_data. */
  method SendBigData(channel: CommandChannel, data: seq<byte>, kind: uint32, feature: byte, action: byte)
    returns (ghost sent: seq<Cmd>)
    requires channel.Valid() && |data| < TWO32
    modifies channel`offered, channel`taken
    ensures channel.Valid() && channel.offered == old(channel.offered) + sent
    ensures OnWire(sent, kind, BigDataWires(feature, action, data))
  {
    var frame := new byte[FRAME_SIZE];
    var len: uint32 := |data|;
    sent := [];
    if len <= 20 - 3 {
      var header: seq<byte> := [(len + 2) % 32, feature, action];
      sent := SendShort(channel, frame, kind, header, data);
      ShortFrame(data, feature, action);
    } else if len < 8191 {
      var header: seq<byte> := [(len + 2) / 256 % 32 + 32, (len + 2) % 256, feature, action];
      sent := SendLong(channel, frame, kind, header, data[..16], data[16..]);
      StartFrame(data, feature, action);
    }
  }

  /** gopro_send_buf. */
  method SendBuffer(channel: CommandChannel, data: seq<byte>, kind: uint32)
    returns (ghost sent: seq<Cmd>)
    requires channel.Valid() && |data| < TWO32
    modifies channel`offered, channel`taken
    ensures channel.Valid() && channel.offered == old(channel.offered) + sent
    ensures OnWire(sent, kind, BufferWires(data))
  {
    var frame := new byte[FRAME_SIZE];
    var len: uint32 := |data|;
    sent := [];
    if len <= 20 {
      sent := SendShort(channel, frame, kind, [], data);
    } else if len < 8191 {
      sent := SendLong(channel, frame, kind, [len / 256 % 32 + 32, len % 256], data[..18], data[18..]);
    }
  }
}
