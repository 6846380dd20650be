/** The fragmenters against the reassembler: what is cut up on one side is put together on the other. */
module RoundTrip {
  import opened Bytes
  import opened Reassembler
  import opened Reassembly
  import opened Fragmenter
  import opened Resynchronisation

  /** A frame's bytes are its wire bytes, whatever lies behind them in the buffer. */
  lemma WireByte(c: Cmd, i: nat)
    requires c.Valid() && i < c.len
    ensures c.data[i] == c.Wire()[i]
  {
  }

  lemma {:induction false} ContinuationsOnWire(cs: seq<Cmd>, kind: uint32, rest: seq<byte>, n: nat)
    requires OnWire(cs, kind, ContinuationWires(rest, n))
    ensures Continuations(cs) && Joined(cs) == rest
    decreases |rest|
  {
    if rest != [] {
      var k := Min(19, |rest|);
      var wires := ContinuationWires(rest, n);
      assert wires[1..] == ContinuationWires(rest[k..], n + 1);
      ContinuationsOnWire(cs[1..], kind, rest[k..], n + 1);
      assert cs[0].Wire() == wires[0] == [0x80 + n % 16] + rest[..k];
      WireByte(cs[0], 0);
      assert Payload(cs[0]) == cs[0].Wire()[1..] == rest[..k];
      assert rest[..k] + rest[k..] == rest;
    }
  }

  /** The start frame of a long message, as the reassembler reads it. */
  lemma {:induction false} LongStart(c: Cmd, m: Message)
    requires 18 <= |m.body| <= 8191 && c.Valid() && c.cmdType == m.kind
    requires c.Wire() == [32 + |m.body| / 256 % 32, |m.body| % 256] + m.body[..18]
    ensures Starts(c, m) && Payload(c) == m.body[..18]
  {
    WireByte(c, 0);
    WireByte(c, 1);
    LengthReadsBack(|m.body|);
    HeadersReadBack(c, |m.body|);
    assert Payload(c) == c.Wire()[2..] == m.body[..18];
  }

  /** The frames of a long message carry it, as long as its length fits the 13 bits of the header. */
  lemma {:induction false} LongWiresCarry(cs: seq<Cmd>, m: Message)
    requires 18 <= |m.body| <= 8191 && OnWire(cs, m.kind, LongWires(m.body))
    ensures Carries(cs, m)
  {
    var wires := LongWires(m.body);
    assert wires[1..] == ContinuationWires(m.body[18..], 0);
    ContinuationsOnWire(cs[1..], m.kind, m.body[18..], 0);
    assert cs[0].Wire() == wires[0];
    LongStart(cs[0], m);
    assert m.body[..18] + m.body[18..] == m.body;
  }

  /** At 8192 bytes the header wraps to a declared length of 0: the start frame is skipped and so is the rest. */
  lemma {:induction false} WrappedHeaderIsLost(s: Session, cs: seq<Cmd>, m: Message)
    requires |m.body| == 8192 && OnWire(cs, m.kind, LongWires(m.body))
    ensures Accepted(Events(cs, true)) && Run(s, Events(cs, true)) == (Idle, [])
  {
    var c, rest := cs[0], cs[1..];
    assert c.Wire() == LongWires(m.body)[0];
    WireByte(c, 0);
    WireByte(c, 1);
    assert LongWires(m.body)[1..] == ContinuationWires(m.body[18..], 0);
    ContinuationsOnWire(rest, m.kind, m.body[18..], 0);
    IdleStaysIdle(rest);
    RunFirst(s, cs, true);
  }

  lemma {:induction false} IdleStaysIdle(cs: seq<Cmd>)
    requires Continuations(cs)
    ensures Accepted(Events(cs, true)) && Run(Idle, Events(cs, true)) == (Idle, [])
  {
    if cs == [] {
      assert Events(cs, true) == [];
    } else {
      IdleStaysIdle(cs[1..]);
      RunFirst(Idle, cs, true);
    }
  }

  /** The frames of gopro_send_big_data carry its message, up to 8189 bytes of payload. */
  lemma {:induction false} BigDataCarries(cs: seq<Cmd>, kind: uint32, feature: byte, action: byte, payload: seq<byte>)
    requires |payload| <= 8189 && OnWire(cs, kind, BigDataWires(feature, action, payload))
    ensures Carries(cs, Message(kind, [feature, action] + payload))
  {
    var m := Message(kind, [feature, action] + payload);
    if |payload| <= 17 {
      OneFrameCarries(cs, m);
    } else {
      LongWiresCarry(cs, m);
    }
  }

  lemma {:induction false} OneFrameCarries(cs: seq<Cmd>, m: Message)
    requires 2 <= |m.body| <= 19 && OnWire(cs, m.kind, [[|m.body|] + m.body])
    ensures Carries(cs, m)
  {
    var c := cs[0];
    WireByte(c, 0);
    assert Payload(c) == c.Wire()[1..] == m.body;
    assert Joined(cs[1..]) == [] && Payload(c) + Joined(cs[1..]) == m.body;
  }

  /** Round trip of gopro_send_big_data, from any earlier state of the reassembler: exactly this message is
      delivered, and no buffer is left, if and only if the payload has at most 8189 bytes. */
  lemma {:induction false} BigDataRoundTrip(s: Session, cs: seq<Cmd>, kind: uint32, feature: byte, action: byte,
                                            payload: seq<byte>)
    requires OnWire(cs, kind, BigDataWires(feature, action, payload))
    ensures Accepted(Events(cs, true))
    ensures |payload| <= 8189 <==>
            && |payload| < 0xFFFE
            && Run(s, Events(cs, true)) == (Idle, [Expected(Message(kind, [feature, action] + payload))])
  {
    var m := Message(kind, [feature, action] + payload);
    if |payload| <= 8189 {
      BigDataCarries(cs, kind, feature, action, payload);
      Reassembles(s, cs, m);
    } else if |payload| == 8190 {
      WrappedHeaderIsLost(s, cs, m);
    } else {
      assert Events(cs, true) == [];
    }
  }

  /** Round trip of gopro_send_buf: a buffer of 21 to 8190 bytes is delivered as one message; a shorter one is
      sent as it stands, so it is delivered when it already is a one-frame message. */
  lemma {:induction false} BufferRoundTrip(s: Session, cs: seq<Cmd>, kind: uint32, data: seq<byte>)
    requires OnWire(cs, kind, BufferWires(data))
    ensures 21 <= |data| <= 8190 ==>
              && Accepted(Events(cs, true))
              && Run(s, Events(cs, true)) == (Idle, [Expected(Message(kind, data))])
    ensures 3 <= |data| <= 20 && data[0] == |data| - 1 ==>
              && Accepted(Events(cs, true))
              && Run(s, Events(cs, true)) == (Idle, [Expected(Message(kind, data[1..]))])
    ensures |data| <= 20 ==> |cs| == 1 && cs[0].Wire() == data
    ensures |data| > 8190 ==> cs == []
  {
    if 21 <= |data| <= 8190 {
      LongWiresCarry(cs, Message(kind, data));
      Reassembles(s, cs, Message(kind, data));
    } else if 3 <= |data| <= 20 && data[0] == |data| - 1 {
      assert data == [data[0]] + data[1..];
      OneFrameCarries(cs, Message(kind, data[1..]));
      Reassembles(s, cs, Message(kind, data[1..]));
    }
  }

  /** One call of gopro_send_big_data over a lossy link. */
  datatype Sending = Sending(kind: uint32, feature: byte, action: byte, payload: seq<byte>,
                             frames: seq<Cmd>, arrives: seq<bool>, allocOk: bool) {
    ghost predicate Valid() {
      && |payload| <= 8189 && OnWire(frames, kind, BigDataWires(feature, action, payload))
      && |arrives| == |frames| && (arrives[0] || Silent(arrives))
    }

    ghost function Carried(): Transmission {
      Transmission(Message(kind, [feature, action] + payload), frames, arrives, allocOk)
    }
  }

  ghost function CarriedAll(sends: seq<Sending>): (ts: seq<Transmission>)
    ensures |ts| == |sends| && forall i | 0 <= i < |ts| :: ts[i] == sends[i].Carried()
  {
    seq(|sends|, i requires 0 <= i < |sends| => sends[i].Carried())
  }

  /** Any number of messages over a link that loses continuations or whole messages: the receiver gets exactly those
      that arrived whole, in order, whatever state it was in before. */
  lemma {:induction false} LossyRoundTrip(s: Session, sends: seq<Sending>)
    requires Waiting(s) && forall i | 0 <= i < |sends| :: sends[i].Valid()
    ensures var ts := CarriedAll(sends);
            AllValid(ts) && Accepted(Stream(ts)) && Run(s, Stream(ts)).1 == Completed(ts)
  {
    var ts := CarriedAll(sends);
    forall i | 0 <= i < |ts|
      ensures ts[i].Valid()
    {
      var d := sends[i];
      BigDataCarries(d.frames, d.kind, d.feature, d.action, d.payload);
    }
    StartsResynchronise(s, ts);
  }

  // ---- shape of the frames ----

  /** The bytes after the headers, joined. */
  function Payloads(wires: seq<seq<byte>>, header: nat): seq<byte>
    requires forall i | 0 <= i < |wires| :: header <= |wires[i]|
  {
    if wires == [] then [] else wires[0][header..] + Payloads(wires[1..], header)
  }

  /** Continuations are 2 to 20 bytes long, numbered modulo 16 however many there are, as few as possible, and
      carry every byte once. */
  lemma {:induction false} ContinuationShape(rest: seq<byte>, n: nat)
    ensures var wires := ContinuationWires(rest, n);
            && |wires| == (|rest| + 18) / 19
            && (forall i | 0 <= i < |wires| :: 2 <= |wires[i]| <= 20 && wires[i][0] == 0x80 + (n + i) % 16)
            && Payloads(wires, 1) == rest
    decreases |rest|
  {
    if rest != [] {
      var k := Min(19, |rest|);
      var wires := ContinuationWires(rest, n);
      ContinuationShape(rest[k..], n + 1);
      assert wires[1..] == ContinuationWires(rest[k..], n + 1);
      forall i | 0 <= i < |wires|
        ensures 2 <= |wires[i]| <= 20 && wires[i][0] == 0x80 + (n + i) % 16
      {
        if i > 0 {
          assert wires[i] == wires[1..][i - 1];
          assert n + 1 + (i - 1) == n + i;
        }
      }
      assert wires[0][1..] == rest[..k];
      assert rest[..k] + rest[k..] == rest;
    }
  }

  /** A long message as a whole: the length it declares, as few frames as possible, none shorter than 2 or longer
      than 20 bytes, and every byte carried once, in order. */
  lemma {:induction false} LongShape(body: seq<byte>)
    requires 18 <= |body| < 8192
    ensures var wires := LongWires(body);
            && wires[0][0] as int % 32 * 256 + wires[0][1] as int == |body| && wires[0][0] / 32 == 1
            && |wires| == 1 + (|body| - 18 + 18) / 19
            && (forall i | 0 <= i < |wires| :: 2 <= |wires[i]| <= 20)
            && (forall i | 1 <= i < |wires| :: wires[i][0] == 0x80 + (i - 1) % 16)
            && wires[0][2..] + Payloads(wires[1..], 1) == body
  {
    var wires := LongWires(body);
    LengthReadsBack(|body|);
    ContinuationShape(body[18..], 0);
    assert wires[1..] == ContinuationWires(body[18..], 0);
    assert forall i | 1 <= i < |wires| :: wires[i] == wires[1..][i - 1];
    assert wires[0][2..] == body[..18] && body[..18] + body[18..] == body;
  }

  /** All messages of gopro_send_big_data: one frame up to 17 bytes of payload, above that a start frame with 16 of them
      and as few continuations as possible, and nothing at all from 8191 bytes on. */
  lemma {:induction false} BigDataShape(feature: byte, action: byte, payload: seq<byte>)
    ensures var wires := BigDataWires(feature, action, payload);
            && (|payload| <= 17 ==> wires == [[|payload| + 2, feature, action] + payload])
            && (18 <= |payload| < 8191 ==>
                  && |wires| == 1 + (|payload| - 16 + 18) / 19
                  && |wires[0]| == 20 && (forall i | 1 <= i < |wires| :: 2 <= |wires[i]| <= 20)
                  && wires[0][2..] == [feature, action] + payload[..16] && Payloads(wires[1..], 1) == payload[16..])
            && (8191 <= |payload| ==> wires == [])
  {
    var body := [feature, action] + payload;
    if |payload| <= 17 {
      assert [|body| % 32] + body == [|payload| + 2, feature, action] + payload;
    } else if |payload| < 8191 {
      ContinuationShape(body[18..], 0);
      assert LongWires(body)[1..] == ContinuationWires(body[18..], 0) && body[18..] == payload[16..];
      assert body[..18] == [feature, action] + payload[..16];
      assert forall i | 1 <= i < |LongWires(body)| :: LongWires(body)[i] == LongWires(body)[1..][i - 1];
    }
  }
}
