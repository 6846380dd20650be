/** Runs in which frames get lost: which messages the reassembler delivers, and when it delivers a splice. */
module Resynchronisation {
  import opened Bytes
  import opened Reassembler
  import opened Reassembly
  import opened Sequences

  /** One message sent as `frames`, of which those with `keep` arrive; k_malloc answers `allocOk`. */
  datatype Transmission = Transmission(msg: Message, frames: seq<Cmd>, keep: seq<bool>, allocOk: bool) {
    ghost predicate Valid() {
      Carries(frames, msg) && |keep| == |frames|
    }

    ghost predicate Complete() {
      allocOk && forall i | 0 <= i < |keep| :: keep[i]
    }

    /** The continuations that arrive. */
    ghost function Rest(): seq<Cmd>
      requires Valid()
    {
      Kept(frames[1..], keep[1..])
    }

    ghost function Arrived(): seq<Cmd>
      requires Valid()
    {
      if keep[0] then [frames[0]] + Rest() else Rest()
    }
  }

  ghost predicate AllValid(ts: seq<Transmission>) {
    forall i | 0 <= i < |ts| :: ts[i].Valid()
  }

  ghost function Kept(cs: seq<Cmd>, keep: seq<bool>): seq<Cmd>
    requires |cs| == |keep|
  {
    if cs == [] then []
    else if keep[0] then [cs[0]] + Kept(cs[1..], keep[1..])
    else Kept(cs[1..], keep[1..])
  }

  /** Everything that arrives, message after message. */
  ghost function Stream(ts: seq<Transmission>): seq<Event>
    requires AllValid(ts)
  {
    if ts == [] then [] else Events(ts[0].Arrived(), ts[0].allocOk) + Stream(ts[1..])
  }

  /** The messages that arrived whole, in order. */
  ghost function Completed(ts: seq<Transmission>): seq<Delivery>
    requires AllValid(ts)
  {
    if ts == [] then []
    else (if ts[0].Complete() then [Expected(ts[0].msg)] else []) + Completed(ts[1..])
  }

  /** From the sizes of what arrives alone: the bytes waited for after one transmission, and how many times the
      continuations of a message whose start was lost fill up an older message. */
  ghost function After(gap: nat, t: Transmission): (nat, nat)
    requires t.Valid()
  {
    KeptContinuations(t.frames[1..], t.keep[1..]);
    if !t.keep[0] then Drain(gap, t.Rest())
    else if !t.allocOk then (0, 0)
    else (|t.msg.body| - |Payload(t.frames[0])| - |Joined(t.Rest())|, 0)
  }

  ghost function Splices(gap: nat, ts: seq<Transmission>): nat
    requires AllValid(ts)
    decreases |ts|
  {
    if ts == [] then 0 else After(gap, ts[0]).1 + Splices(After(gap, ts[0]).0, ts[1..])
  }

  lemma {:induction false} KeptContinuations(cs: seq<Cmd>, keep: seq<bool>)
    requires |cs| == |keep| && Continuations(cs)
    ensures Continuations(Kept(cs, keep)) && |Joined(Kept(cs, keep))| <= |Joined(cs)|
    ensures (forall i | 0 <= i < |keep| :: keep[i]) ==> Kept(cs, keep) == cs
    ensures (exists i | 0 <= i < |keep| :: !keep[i]) ==> |Joined(Kept(cs, keep))| < |Joined(cs)|
  {
    if cs != [] {
      KeptContinuations(cs[1..], keep[1..]);
      if keep[0] {
        assert Kept(cs, keep)[1..] == Kept(cs[1..], keep[1..]);
        if i :| 0 <= i < |keep| && !keep[i] {
          assert !keep[1..][i - 1];
        }
      }
    }
  }

  lemma {:induction false} IdleDrain(cs: seq<Cmd>)
    requires Continuations(cs)
    ensures Drain(0, cs) == (0, 0)
  {
    if cs != [] {
      IdleDrain(cs[1..]);
    }
  }

  /** The start frame arrives, and memory is there. */
  lemma {:induction false} StartedRun(s: Session, t: Transmission)
    requires Waiting(s) && t.Valid() && t.keep[0] && t.allocOk
    ensures Accepted(Events(t.Arrived(), true)) && Continuations(t.Rest())
    ensures var got := Payload(t.frames[0]) + Joined(t.Rest());
            && Run(s, Events(t.Arrived(), true)) == Settle(Begun(t.msg, got))
            && (if t.Complete() then got == t.msg.body else |got| < |t.msg.body|)
  {
    var c, cs := t.frames[0], t.Rest();
    KeptContinuations(t.frames[1..], t.keep[1..]);
    if !t.Complete() {
      var i :| 0 <= i < |t.keep| && !t.keep[i];
      assert !t.keep[1..][i - 1];
    }
    StartThenContinuations(s, c, cs, t.msg, Payload(c) + Joined(cs));
  }

  /** The start frame arrives, but there is no memory. */
  lemma {:induction false} RefusedRun(s: Session, t: Transmission)
    requires Waiting(s) && t.Valid() && t.keep[0] && !t.allocOk
    ensures Accepted(Events(t.Arrived(), false)) && Run(s, Events(t.Arrived(), false)) == (Idle, [])
  {
    var c, cs := t.frames[0], t.Rest();
    KeptContinuations(t.frames[1..], t.keep[1..]);
    StartOpens(s, c, t.msg, false);
    IdleDrain(cs);
    ContinuationsDrain(Idle, cs, false);
    assert ([c] + cs)[1..] == cs;
    RunFirst(s, [c] + cs, false);
  }

  /** One transmission. With its start frame, it delivers the message if it is complete and otherwise nothing;
      without it, it only feeds whatever session was there. */
  lemma {:induction false} TransmissionRun(s: Session, t: Transmission)
    requires Waiting(s) && t.Valid()
    ensures Accepted(Events(t.Arrived(), t.allocOk))
    ensures var r := Run(s, Events(t.Arrived(), t.allocOk));
            && Waiting(r.0) && Gap(r.0) == After(Gap(s), t).0
            && |r.1| == After(Gap(s), t).1 + (if t.Complete() then 1 else 0)
            && (t.Complete() ==> r.1 == [Expected(t.msg)])
  {
    if !t.keep[0] {
      KeptContinuations(t.frames[1..], t.keep[1..]);
      ContinuationsDrain(s, t.Rest(), t.allocOk);
    } else if !t.allocOk {
      RefusedRun(s, t);
    } else {
      StartedRun(s, t);
    }
  }

  /** Whatever is lost, every complete message is delivered, in order, among the deliveries. */
  lemma {:induction false} CompletedAreDelivered(s: Session, ts: seq<Transmission>)
    requires Waiting(s) && AllValid(ts)
    ensures Accepted(Stream(ts)) && Subsequence(Completed(ts), Run(s, Stream(ts)).1)
    decreases |ts|
  {
    if ts != [] {
      var es := Events(ts[0].Arrived(), ts[0].allocOk);
      TransmissionRun(s, ts[0]);
      CompletedAreDelivered(Run(s, es).0, ts[1..]);
      RunConcat(s, es, Stream(ts[1..]));
      OneMoreDelivered(ts[0].Complete(), Expected(ts[0].msg), Completed(ts[1..]), Run(s, es).1,
                       Run(Run(s, es).0, Stream(ts[1..])).1);
    }
  }

  lemma {:induction false} OneMoreDelivered(whole: bool, d: Delivery, completed: seq<Delivery>, first: seq<Delivery>,
                                            later: seq<Delivery>)
    requires Subsequence(completed, later) && (whole ==> first == [d])
    ensures Subsequence((if whole then [d] else []) + completed, first + later)
  {
    if whole {
      SamePrefix(first, completed, later);
    } else {
      SubsequenceBehind(completed, first, later);
      assert [] + completed == completed;
    }
  }

  /** The other deliveries are the splices: each adds one, and without any the deliveries are the complete messages. */
  lemma {:induction false} DeliveriesCounted(s: Session, ts: seq<Transmission>)
    requires Waiting(s) && AllValid(ts)
    ensures Accepted(Stream(ts)) && Subsequence(Completed(ts), Run(s, Stream(ts)).1)
    ensures |Run(s, Stream(ts)).1| == |Completed(ts)| + Splices(Gap(s), ts)
    ensures Splices(Gap(s), ts) == 0 ==> Run(s, Stream(ts)).1 == Completed(ts)
    decreases |ts|
  {
    CompletedAreDelivered(s, ts);
    if ts != [] {
      var es := Events(ts[0].Arrived(), ts[0].allocOk);
      TransmissionRun(s, ts[0]);
      DeliveriesCounted(Run(s, es).0, ts[1..]);
      RunConcat(s, es, Stream(ts[1..]));
    }
  }

  /** Resynchronisation, exactly: whatever frames are lost, what is delivered is the complete messages in order if
      and only if no message that lost its start frame fills up an older one. */
  lemma {:induction false} Resynchronises(s: Session, ts: seq<Transmission>)
    requires Waiting(s) && AllValid(ts)
    ensures Accepted(Stream(ts))
    ensures Run(s, Stream(ts)).1 == Completed(ts) <==> Splices(Gap(s), ts) == 0
  {
    DeliveriesCounted(s, ts);
  }

  ghost predicate Silent(keep: seq<bool>) {
    forall i | 0 <= i < |keep| :: !keep[i]
  }

  lemma {:induction false} KeptNone(cs: seq<Cmd>, keep: seq<bool>)
    requires |cs| == |keep| && Silent(keep)
    ensures Kept(cs, keep) == []
  {
    if cs != [] {
      KeptNone(cs[1..], keep[1..]);
    }
  }

  /** When every message keeps its start frame or is lost altogether, nothing is ever spliced: abandoned messages vanish
      without trace. */
  lemma {:induction false} StartsResynchronise(s: Session, ts: seq<Transmission>)
    requires Waiting(s) && AllValid(ts)
    requires forall i | 0 <= i < |ts| :: ts[i].keep[0] || Silent(ts[i].keep)
    ensures Accepted(Stream(ts)) && Run(s, Stream(ts)).1 == Completed(ts)
  {
    NoSplices(Gap(s), ts);
    Resynchronises(s, ts);
  }

  lemma {:induction false} NoSplices(gap: nat, ts: seq<Transmission>)
    requires AllValid(ts)
    requires forall i | 0 <= i < |ts| :: ts[i].keep[0] || Silent(ts[i].keep)
    ensures Splices(gap, ts) == 0
    decreases |ts|
  {
    if ts != [] {
      if Silent(ts[0].keep) {
        KeptNone(ts[0].frames[1..], ts[0].keep[1..]);
      }
      NoSplices(After(gap, ts[0]).0, ts[1..]);
    }
  }

  ghost predicate OnlyStart(t: Transmission) {
    |t.keep| > 1 && t.keep[0] && forall i | 1 <= i < |t.keep| :: !t.keep[i]
  }

  ghost predicate OnlyStartLost(t: Transmission) {
    |t.keep| > 1 && !t.keep[0] && forall i | 1 <= i < |t.keep| :: t.keep[i]
  }

  lemma SameHalf<T>(a: seq<T>, b: seq<T>, c: seq<T>, d: seq<T>)
    ensures a == c ==> (a + b == c + d <==> b == d)
    ensures b == d ==> (a + b == c + d <==> a == c)
  {
    if a == c && a + b == c + d {
      assert b == (a + b)[|a|..] == (c + d)[|c|..] == d;
    }
    if b == d && a + b == c + d {
      assert a == (a + b)[..|a|] == (c + d)[..|c|] == c;
    }
  }

  ghost predicate Spliced(t: Transmission, u: Transmission) {
    && t.Valid() && u.Valid() && t.allocOk && u.allocOk && OnlyStart(t) && OnlyStartLost(u)
    && |Payload(t.frames[0])| + |Joined(u.frames[1..])| == |t.msg.body|
  }

  lemma {:induction false} SplicedArrivals(t: Transmission, u: Transmission)
    requires Spliced(t, u)
    ensures t.Arrived() == [t.frames[0]] && u.Arrived() == u.frames[1..]
  {
    KeptNone(t.frames[1..], t.keep[1..]);
    KeptContinuations(u.frames[1..], u.keep[1..]);
  }

  lemma {:induction false} StreamOfTwo(t: Transmission, u: Transmission)
    requires t.Valid() && u.Valid()
    ensures AllValid([t, u])
    ensures Stream([t, u]) == Events(t.Arrived(), t.allocOk) + Events(u.Arrived(), u.allocOk)
  {
    assert [t, u][1..] == [u] && [u][1..] == [];
    assert Stream([u]) == Events(u.Arrived(), u.allocOk) + [];
  }

  lemma {:induction false} SplicedStream(t: Transmission, u: Transmission)
    requires Spliced(t, u)
    ensures AllValid([t, u]) && Stream([t, u]) == Events([t.frames[0]] + u.frames[1..], true)
  {
    SplicedArrivals(t, u);
    StreamOfTwo(t, u);
    assert Events([t.frames[0]], true) + Events(u.frames[1..], true) == Events([t.frames[0]] + u.frames[1..], true);
  }

  lemma {:induction false} SplicedNotComplete(t: Transmission, u: Transmission)
    requires Spliced(t, u)
    ensures AllValid([t, u]) && Completed([t, u]) == []
  {
    assert !t.keep[1] && !u.keep[0];
    assert [t, u][1..] == [u] && [u][1..] == [];
    assert Completed([u]) == [];
  }

  lemma {:induction false} SplicedRun(s: Session, t: Transmission, u: Transmission)
    requires Waiting(s) && Spliced(t, u)
    ensures AllValid([t, u]) && Accepted(Stream([t, u]))
    ensures var spliced := Expected(t.msg).(data := Payload(t.frames[0]) + Joined(u.frames[1..]));
            Run(s, Stream([t, u])) == (Idle, [spliced])
  {
    var c, cs := t.frames[0], u.frames[1..];
    SplicedStream(t, u);
    StartThenContinuations(s, c, cs, t.msg, Payload(c) + Joined(cs));
  }

  /** The failing family: `t` keeps only its start frame, the next message `u` loses exactly its start frame, and the
      continuations of `u` are as long as what `t` still misses. Nothing is complete, and yet one message is delivered:
      the head of `t` with the tail of `u`. It is neither of the two unless they agree in the other half. */
  lemma {:induction false} SplicedDelivery(s: Session, t: Transmission, u: Transmission)
    requires Waiting(s) && Spliced(t, u)
    ensures AllValid([t, u]) && Completed([t, u]) == [] && Splices(Gap(s), [t, u]) == 1
    ensures var spliced := Expected(t.msg).(data := Payload(t.frames[0]) + Joined(u.frames[1..]));
            && Accepted(Stream([t, u])) && Run(s, Stream([t, u])) == (Idle, [spliced])
            && (spliced.data == t.msg.body <==> Joined(u.frames[1..]) == Joined(t.frames[1..]))
            && (spliced.data == u.msg.body <==> Payload(t.frames[0]) == Payload(u.frames[0]))
  {
    var c, cs := t.frames[0], u.frames[1..];
    SplicedRun(s, t, u);
    SplicedNotComplete(t, u);
    DeliveriesCounted(s, [t, u]);
    SameHalf(Payload(c), Joined(cs), Payload(c), Joined(t.frames[1..]));
    SameHalf(Payload(c), Joined(cs), Payload(u.frames[0]), Joined(cs));
  }

  /** A message of 20 bytes `b` in two frames. */
  lemma {:induction false} Cut(b: byte, keep: seq<bool>) returns (t: Transmission)
    requires |keep| == 2
    ensures t.Valid() && t.allocOk && t.keep == keep
    ensures |t.frames| == 2 && |Payload(t.frames[0])| == 18 && |t.msg.body| == 20
    ensures Payload(t.frames[0]) == seq(18, _ => b) && Joined(t.frames[1..]) == [b, b]
  {
    var start := Cmd(20, 0, [32, 20] + seq(18, _ => b));
    var next := Cmd(3, 0, [0x80, b, b] + Zeros(17));
    t := Transmission(Message(0, seq(20, _ => b)), [start, next], keep, true);
    assert t.frames[1..] == [next] && [next][1..] == [];
    assert GetType(start) == Bits13 && GetType(next) == Continuation;
    assert Payload(start) == seq(18, _ => b) && Payload(next) == [b, b];
    assert Joined([next]) == [b, b] + [];
    assert Payload(start) + [b, b] == t.msg.body;
  }

  /** The family is not empty: two messages of 20 bytes, all zeros and all ones, are spliced. */
  lemma {:induction false} SpliceExists(s: Session) returns (t: Transmission, u: Transmission)
    requires Waiting(s)
    ensures AllValid([t, u]) && Completed([t, u]) == [] && Splices(Gap(s), [t, u]) == 1
    ensures Accepted(Stream([t, u])) && |Run(s, Stream([t, u])).1| == 1
    ensures Run(s, Stream([t, u])).1[0].data !in {t.msg.body, u.msg.body}
  {
    t := Cut(0, [true, false]);
    u := Cut(1, [false, true]);
    SplicedDelivery(s, t, u);
    assert Joined(t.frames[1..])[0] == 0 && Joined(u.frames[1..])[0] == 1;
    assert Payload(t.frames[0])[0] == 0 && Payload(u.frames[0])[0] == 1;
  }
}
