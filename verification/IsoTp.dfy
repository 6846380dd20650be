/** The CAN side: the ISO-TP receive buffer and the two semaphores that guard it and the reply path
    (src/canbus_isotp.c, src/gopro_protobuf.c). */
module IsoTp {
  import opened Bytes
  import opened Reassembler

  // ---- receiving one message ----

  /** What one call of isotp_recv_net brings: bytes, and how many are still to come; `allocOk` is the answer
      k_malloc would give. */
  datatype Received = Received(rem: nat, bytes: seq<byte>, allocOk: bool)

  ghost function Message(rs: seq<Received>): seq<byte> {
    if rs == [] then [] else rs[0].bytes + Message(rs[1..])
  }

  /** The network layer counts down to 0 and then stops. */
  ghost predicate Complete(rs: seq<Received>)
    decreases |rs|
  {
    && rs != []
    && rs[0].rem == |Message(rs[1..])|
    && (rs[0].rem == 0 <==> rs[1..] == [])
    && (rs[1..] != [] ==> Complete(rs[1..]))
  }

  /** The first fragment for which memory was available, or all of them. */
  ghost function FirstAllocated(rs: seq<Received>): nat
    ensures FirstAllocated(rs) <= |rs|
  {
    if rs == [] || rs[0].allocOk then 0 else 1 + FirstAllocated(rs[1..])
  }

  lemma {:induction false} MessageConcat(rs: seq<Received>, ts: seq<Received>)
    ensures Message(rs + ts) == Message(rs) + Message(ts)
  {
    if rs == [] {
      assert rs + ts == ts;
    } else {
      assert (rs + ts)[1..] == rs[1..] + ts;
      MessageConcat(rs[1..], ts);
    }
  }

  lemma {:induction false} CompleteAt(rs: seq<Received>, i: nat)
    requires Complete(rs) && i < |rs|
    ensures rs[i].rem == |Message(rs[i + 1..])| && (rs[i].rem == 0 <==> i == |rs| - 1)
    decreases i
  {
    if i > 0 {
      CompleteAt(rs[1..], i - 1);
      assert rs[1..][i..] == rs[i + 1..];
    }
  }

  lemma {:induction false} FirstAllocatedAt(rs: seq<Received>, i: nat)
    requires i < |rs| && forall k | 0 <= k < i :: !rs[k].allocOk
    ensures rs[i].allocOk ==> FirstAllocated(rs) == i
    ensures i == |rs| - 1 && !rs[i].allocOk ==> FirstAllocated(rs) == |rs|
    decreases i
  {
    if i > 0 {
      FirstAllocatedAt(rs[1..], i - 1);
    }
  }

  lemma NextFragment(rs: seq<Received>, from: nat, i: nat)
    requires from <= i < |rs|
    ensures Message(rs[from..i + 1]) == Message(rs[from..i]) + rs[i].bytes
    ensures Message(rs[i..]) == rs[i].bytes + Message(rs[i + 1..])
    ensures Message(rs[i..i]) == []
  {
    assert rs[from..i + 1] == rs[from..i] + [rs[i]];
    MessageConcat(rs[from..i], [rs[i]]);
    assert Message([rs[i]]) == rs[i].bytes + Message([]);
    assert rs[i..][1..] == rs[i + 1..];
  }

  /** `mem_pkt` of the receive thread. */
  class MemPkt {
    var index: nat
    var len: int
    var data: array?<byte>

    ghost predicate Valid()
      reads this
    {
      if data == null then index == 0 && len == 0 else len == data.Length && index <= data.Length
    }

    /** The bytes copied so far. */
    ghost function Got(): seq<byte>
      requires Valid()
      reads this, data
    {
      if data == null then [] else data[..index]
    }

    constructor ()
      ensures Valid() && data == null
    {
      index, len, data := 0, 0, null;
    }

    /** One turn of the receive loop: a buffer of the size still expected if there is none yet, then the copy. */
    method TakeFragment(r: Received)
      requires Valid() && (data != null ==> index + |r.bytes| <= data.Length)
      modifies this, data
      ensures Valid()
      ensures old(data) == null && !r.allocOk ==> data == null
      ensures old(data) == null && r.allocOk ==> data != null && fresh(data) && data.Length == r.rem + |r.bytes|
      ensures old(data) != null ==> data == old(data)
      ensures data != null ==> Got() == old(Got()) + r.bytes
    {
      if data == null {
        var allocSize := r.rem + |r.bytes|;
        if r.allocOk {
          data := new byte[allocSize](_ => 0);
          len := allocSize;
        }
      }
      if data != null {
        ghost var before := data[..index];
        CopyBytes(data, index, r.bytes, 0, |r.bytes|);
        index := index + |r.bytes|;
        assert data[..index] == data[..|before|] + data[|before|..index];
      }
    }

    /** After `i` fragments: no memory so far, or everything from fragment `from` on is in the buffer, which has room
        for exactly the rest. */
    ghost predicate Progress(rs: seq<Received>, from: nat, i: nat)
      requires Complete(rs)
      reads this, data
    {
      && Valid() && from <= i <= |rs|
      && (data == null ==> (forall k | 0 <= k < i :: !rs[k].allocOk) && (i == |rs| ==> FirstAllocated(rs) == i))
      && (data != null ==> from < i && FirstAllocated(rs) == from && Got() == Message(rs[from..i])
                           && data.Length - index == |Message(rs[i..])|)
    }

    method ReceiveNext(rs: seq<Received>, ghost from: nat, i: nat) returns (more: bool, ghost start: nat)
      requires Complete(rs) && i < |rs| && Progress(rs, from, i)
      modifies this, data
      ensures Progress(rs, start, i + 1) && (more <==> i + 1 < |rs|)
      ensures data == null || data == old(data) || fresh(data)
    {
      CompleteAt(rs, i);
      start := from;
      if data == null {
        FirstAllocatedAt(rs, i);
        start := i;
      }
      NextFragment(rs, start, i);
      TakeFragment(rs[i]);
      more := rs[i].rem != 0;
    }

    /** The receive loop for one message: the buffer ends up with the message from the first fragment on for which
        memory was available, is exactly full, and is missing if there was no memory throughout. */
    method Receive(rs: seq<Received>)
      requires Valid() && data == null && Complete(rs)
      modifies this
      ensures Valid() && (data == null || fresh(data))
      ensures data == null <==> FirstAllocated(rs) == |rs|
      ensures data != null ==> Got() == data[..] == Message(rs[FirstAllocated(rs)..])
    {
      var i: nat, more := 0, true;
      ghost var from: nat := 0;
      while more
        invariant Progress(rs, from, i) && (data == null || fresh(data))
        invariant more <==> i < |rs|
        decreases |rs| - i
      {
        more, from := ReceiveNext(rs, from, i);
        i := i + 1;
      }
      assert rs[from..i] == rs[from..] && Message(rs[i..]) == [];
    }
  }

  /** Received whole, or not: the published buffer is the message sent if and only if memory was available when
      its first fragment arrived. */
  lemma {:induction false} WholeIffFirstAllocated(rs: seq<Received>)
    requires Complete(rs) && forall i | 0 <= i < |rs| :: rs[i].bytes != []
    ensures Message(rs[FirstAllocated(rs)..]) == Message(rs) <==> rs[0].allocOk
  {
    var j := FirstAllocated(rs);
    assert rs == rs[..j] + rs[j..];
    MessageConcat(rs[..j], rs[j..]);
    if j > 0 {
      assert rs[..j][0] == rs[0] && |Message(rs[..j])| >= |rs[0].bytes|;
    } else {
      assert rs[j..] == rs;
    }
  }

  /** A message of two bytes of which only the second is received, as memory was missing for the first. */
  lemma {:induction false} BeginningLost()
    ensures var rs := [Received(1, [7], false), Received(0, [8], true)];
            && Complete(rs) && Message(rs) == [7, 8] && Message(rs[FirstAllocated(rs)..]) == [8]
  {
    var first, second := Received(1, [7], false), Received(0, [8], true);
    var rs := [first, second];
    assert rs[1..] == [second] && [second][1..] == [];
    assert Message([second]) == [8] + [] == [8];
    assert FirstAllocated([second]) == 0 && FirstAllocated(rs) == 1;
  }

  // ---- the receive permit ----

  datatype Thread = Waiting | Receiving | Gone

  /** `sem` is can_isotp_rx_sem; `buffer` is what mem_pkt.data points to; `reading` are the buffers published and not
      yet finished by the subscriber; `live` are the buffers not freed. */
  datatype Rx = Rx(sem: nat, thread: Thread, buffer: Option<nat>, reading: seq<Option<nat>>, live: set<nat>)

  /** `Published(b)`: the loop ends with buffer `b`, newly allocated unless it is missing, and the message is taken by
      the channel; `Abandoned(b)`: the message is broken, or the channel refuses it. */
  datatype RxEvent = Acquire | Published(buffer: Option<nat>) | Abandoned(buffer: Option<nat>) | Finish

  const RX_INITIAL := Rx(1, Waiting, None, [], {})

  function Give(sem: nat): nat {
    if sem < 1 then sem + 1 else 1
  }

  predicate RxEnabled(s: Rx, e: RxEvent) {
    match e
    case Acquire => s.thread == Waiting && s.sem > 0
    case Published(b) => s.thread == Receiving && (b.Some? ==> b.value !in s.live)
    case Abandoned(b) => s.thread == Receiving && (b.Some? ==> b.value !in s.live)
    case Finish => s.reading != []
  }

  function Fresh(b: Option<nat>): set<nat> {
    if b.Some? then {b.value} else {}
  }

  function RxNext(s: Rx, e: RxEvent): Rx
    requires RxEnabled(s, e)
  {
    match e
    case Acquire => s.(sem := s.sem - 1, thread := Receiving, buffer := None, live := s.live - Fresh(s.buffer))
    case Published(b) => s.(thread := Waiting, buffer := b, reading := s.reading + [b], live := s.live + Fresh(b))
    case Abandoned(b) => s.(thread := Gone, buffer := b, live := s.live + Fresh(b), sem := Give(s.sem))
    case Finish => s.(reading := s.reading[1..], sem := Give(s.sem))
  }

  /** One permit: in the semaphore, with the thread, or with a message under way. Hence every buffer somebody reads is
      live, at most one is, and only the one the thread still points to can be. */
  ghost predicate RxInvariant(s: Rx) {
    && s.sem + (if s.thread == Receiving then 1 else 0) + |s.reading| == 1
    && (forall i | 0 <= i < |s.reading| :: Fresh(s.reading[i]) <= s.live)
    && s.live == Fresh(s.buffer)
    && (s.thread == Receiving ==> s.buffer == None)
  }

  ghost predicate RxPossible(s: Rx, es: seq<RxEvent>)
    decreases |es|
  {
    es != [] ==> RxEnabled(s, es[0]) && RxPossible(RxNext(s, es[0]), es[1..])
  }

  ghost function RxFinal(s: Rx, es: seq<RxEvent>): Rx
    requires RxPossible(s, es)
    decreases |es|
  {
    if es == [] then s else RxFinal(RxNext(s, es[0]), es[1..])
  }

  /** In every interleaving the permit is balanced, so the buffer is freed only when no subscriber reads it. */
  lemma {:induction false} PermitBalanced(s: Rx, es: seq<RxEvent>)
    requires RxInvariant(s) && RxPossible(s, es)
    ensures var t := RxFinal(s, es);
            && RxInvariant(t)
            && (RxEnabled(t, Acquire) ==> t.reading == [])
    decreases |es|
  {
    if es != [] {
      RxStep(s, es[0]);
      PermitBalanced(RxNext(s, es[0]), es[1..]);
    }
  }

  /** From power-up: no buffer is freed, and the thread takes no message, while a subscriber reads. */
  lemma {:induction false} PermitFromPowerUp(es: seq<RxEvent>)
    requires RxPossible(RX_INITIAL, es)
    ensures var t := RxFinal(RX_INITIAL, es);
            && RxInvariant(t) && |t.reading| <= 1
            && (t.reading != [] ==> t.thread != Receiving && !RxEnabled(t, Acquire) && Fresh(t.reading[0]) <= t.live)
  {
    PermitBalanced(RX_INITIAL, es);
  }

  lemma RxStep(s: Rx, e: RxEvent)
    requires RxInvariant(s) && RxEnabled(s, e)
    ensures RxInvariant(RxNext(s, e))
  {
  }

  /** The receive thread ends in exactly those runs in which a message is broken or refused, and after the first such
      message nothing is received or published any more. */
  lemma {:induction false} ReceptionEnds(s: Rx, es: seq<RxEvent>)
    requires RxPossible(s, es)
    ensures RxFinal(s, es).thread == Gone <==> s.thread == Gone || exists i | 0 <= i < |es| :: es[i].Abandoned?
    ensures forall i, j | 0 <= i < j < |es| && es[i].Abandoned? :: es[j] == Finish
    ensures s.thread == Gone ==> forall i | 0 <= i < |es| :: es[i] == Finish
    decreases |es|
  {
    if es != [] {
      ReceptionEnds(RxNext(s, es[0]), es[1..]);
      assert forall i | 1 <= i < |es| :: es[i] == es[1..][i - 1];
    }
  }

  // ---- the reply permit ----

  const WORK_BUFF_SIZE := 2048

  datatype ReplyResult = Queued | TooBig | Busy | NoMemory | EncodeFailed | PublishFailed

  /** `sem` is can_reply_sem; `queued` replies wait for the transmit thread, `sending` ones for their callback; `lost`
      counts permits nobody will give back. `taken` and `freed` count reply buffers. */
  datatype Tx = Tx(sem: nat, queued: nat, sending: nat, lost: nat, taken: nat, freed: nat)

  datatype TxEvent =
    | Reply(len: nat, allocOk: bool, encodeOk: bool, publishOk: bool)
    | Transmit(accepted: bool)
    | Callback

  const TX_INITIAL := Tx(1, 0, 0, 0, 0, 0)

  function ReplyStep(s: Tx, len: nat, allocOk: bool, encodeOk: bool, publishOk: bool): (Tx, ReplyResult) {
    if len > WORK_BUFF_SIZE then (s, TooBig)
    else if s.sem == 0 then (s, Busy)
    else if !allocOk then (s.(sem := s.sem - 1, lost := s.lost + 1), NoMemory)
    else
      var got := s.(taken := s.taken + 1);
      if !encodeOk then (got.(freed := s.freed + 1), EncodeFailed)
      else if !publishOk then (got.(freed := s.freed + 1), PublishFailed)
      else (got.(sem := s.sem - 1, queued := s.queued + 1), Queued)
  }

  predicate TxEnabled(s: Tx, e: TxEvent) {
    match e
    case Reply(_, _, _, _) => true
    case Transmit(_) => s.queued > 0
    case Callback => s.sending > 0
  }

  function TxNext(s: Tx, e: TxEvent): Tx
    requires TxEnabled(s, e)
  {
    match e
    case Reply(len, a, b, c) => ReplyStep(s, len, a, b, c).0
    case Transmit(accepted) =>
      if accepted then s.(queued := s.queued - 1, sending := s.sending + 1)
      else s.(queued := s.queued - 1, lost := s.lost + 1)
    case Callback => s.(sending := s.sending - 1, sem := Give(s.sem), freed := s.freed + 1)
  }

  /** The reply path in place. */
  class ReplyPath {
    var sem: nat
    var queued: nat
    var sending: nat
    var taken: nat
    var freed: nat
    ghost var lost: nat

    ghost function Abs(): Tx
      reads this
    {
      Tx(sem, queued, sending, lost, taken, freed)
    }

    constructor ()
      ensures Abs() == TX_INITIAL
    {
      sem, queued, sending, lost, taken, freed := 1, 0, 0, 0, 0, 0;
    }

    /** can_reply. */
    method CanReply(len: nat, allocOk: bool, encodeOk: bool, publishOk: bool) returns (r: ReplyResult)
      requires sem <= 1
      modifies this
      ensures (Abs(), r) == ReplyStep(old(Abs()), len, allocOk, encodeOk, publishOk) && sem <= 1
    {
      if len > WORK_BUFF_SIZE {
        return TooBig;
      }
      if sem == 0 {
        return Busy;
      }
      sem := sem - 1;
      if allocOk {
        taken := taken + 1;
        if !encodeOk {
          freed := freed + 1;
          sem := Give(sem);
          return EncodeFailed;
        }
      } else {
        lost := lost + 1;
        return NoMemory;
      }
      if !publishOk {
        freed := freed + 1;
        sem := Give(sem);
        return PublishFailed;
      }
      queued := queued + 1;
      return Queued;
    }

    /** The transmit thread hands a reply to isotp_send, which may refuse it. */
    method TransmitOne(accepted: bool)
      requires queued > 0
      modifies this
      ensures Abs() == TxNext(old(Abs()), Transmit(accepted))
    {
      queued := queued - 1;
      if accepted {
        sending := sending + 1;
      } else {
        lost := lost + 1;
      }
    }

    /** isotpsend_callback. */
    method SendCallback()
      requires sending > 0
      modifies this
      ensures Abs() == TxNext(old(Abs()), Callback)
    {
      sending := sending - 1;
      freed := freed + 1;
      sem := Give(sem);
    }
  }

  ghost predicate TxPossible(s: Tx, es: seq<TxEvent>)
    decreases |es|
  {
    es != [] ==> TxEnabled(s, es[0]) && TxPossible(TxNext(s, es[0]), es[1..])
  }

  ghost function TxFinal(s: Tx, es: seq<TxEvent>): Tx
    requires TxPossible(s, es)
    decreases |es|
  {
    if es == [] then s else TxFinal(TxNext(s, es[0]), es[1..])
  }

  /** A step that loses the permit: memory ran out after it was taken, or isotp_send refused the message. */
  ghost predicate Loses(s: Tx, e: TxEvent) {
    match e
    case Reply(len, allocOk, _, _) => len <= WORK_BUFF_SIZE && s.sem > 0 && !allocOk
    case Transmit(accepted) => !accepted
    case Callback => false
  }

  ghost predicate NothingLost(s: Tx, es: seq<TxEvent>)
    requires TxPossible(s, es)
    decreases |es|
  {
    es != [] ==> !Loses(s, es[0]) && NothingLost(TxNext(s, es[0]), es[1..])
  }

  /** The reply permit is in the semaphore or with exactly one reply, in exactly those runs in which no step loses
      it, and then every buffer taken is freed or under way; counting lost permits, the permit is always balanced. */
  lemma {:induction false} ReplyPermitBalance(s: Tx, es: seq<TxEvent>)
    requires s.sem + s.queued + s.sending + s.lost == 1 && TxPossible(s, es)
    ensures var t := TxFinal(s, es);
            && t.sem + t.queued + t.sending + t.lost == 1
            && (s.lost == 0 ==> (t.sem + t.queued + t.sending == 1 <==> NothingLost(s, es)))
            && s.lost <= t.lost
            && (NothingLost(s, es) ==>
                  t.taken - t.freed - t.queued - t.sending == s.taken - s.freed - s.queued - s.sending)
    decreases |es|
  {
    if es != [] {
      ReplyPermitBalance(TxNext(s, es[0]), es[1..]);
    }
  }

  /** Every answer of can_reply over every run from power-up: a reply is refused as busy exactly while another is on its
      way or one was ever lost; a refused one changes nothing, and a buffer that is not queued is freed. */
  lemma {:induction false} ReplyAnswered(es: seq<TxEvent>, len: nat, allocOk: bool, encodeOk: bool, publishOk: bool)
    requires TxPossible(TX_INITIAL, es)
    ensures var s := TxFinal(TX_INITIAL, es);
            var free := s.queued == 0 && s.sending == 0 && s.lost == 0;
            var (t, r) := ReplyStep(s, len, allocOk, encodeOk, publishOk);
            && (r == TooBig <==> len > 2048)
            && (r == Busy <==> len <= 2048 && !free)
            && (r == NoMemory <==> len <= 2048 && free && !allocOk)
            && (r == EncodeFailed <==> len <= 2048 && free && allocOk && !encodeOk)
            && (r == PublishFailed <==> len <= 2048 && free && allocOk && encodeOk && !publishOk)
            && (r == Queued <==> len <= 2048 && free && allocOk && encodeOk && publishOk)
            && (r in {TooBig, Busy} ==> t == s)
            && (r == NoMemory ==> t == s.(sem := 0, lost := 1))
            && (r in {EncodeFailed, PublishFailed} ==> t == s.(taken := s.taken + 1, freed := s.freed + 1))
            && (r == Queued ==> t == s.(sem := 0, queued := 1, taken := s.taken + 1))
  {
    ReplyPermitBalance(TX_INITIAL, es);
  }

  /** The loss is reached from power-up: memory runs out for the first reply, and every later one is refused. */
  lemma {:induction false} PermitLost(es: seq<TxEvent>)
    requires var lost := Tx(0, 0, 0, 1, 0, 0); TxPossible(lost, es)
    ensures var all := [Reply(0, false, true, true)] + es;
            && TxPossible(TX_INITIAL, all) && TxFinal(TX_INITIAL, all) == Tx(0, 0, 0, 1, 0, 0)
            && !NothingLost(TX_INITIAL, all)
  {
    assert ([Reply(0, false, true, true)] + es)[1..] == es;
    OneLossIsFinal(Tx(0, 0, 0, 1, 0, 0), es);
  }

  /** After one loss no reply is ever queued, sent or allocated again. */
  lemma {:induction false} OneLossIsFinal(s: Tx, es: seq<TxEvent>)
    requires s.sem == s.queued == s.sending == 0 && TxPossible(s, es)
    ensures TxFinal(s, es) == s
    ensures forall i | 0 <= i < |es| :: es[i].Reply? && es[i].len <= WORK_BUFF_SIZE ==>
              ReplyStep(s, es[i].len, es[i].allocOk, es[i].encodeOk, es[i].publishOk) == (s, Busy)
    decreases |es|
  {
    if es != [] {
      OneLossIsFinal(TxNext(s, es[0]), es[1..]);
    }
  }
}
