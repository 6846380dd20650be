/** What whole runs of the reassembler deliver, for complete, truncated and lossy messages. */
module Reassembly {
  import opened Bytes
  import opened Reassembler
  import opened Sequences

  /** One frame arriving, with the answer k_malloc would give. */
  datatype Event = Event(cmd: Cmd, allocOk: bool)

  ghost predicate Accepted(es: seq<Event>) {
    forall i | 0 <= i < |es| :: Acceptable(es[i].cmd, es[i].allocOk)
  }

  /** The final session and everything delivered on the way. */
  ghost function Run(s: Session, es: seq<Event>): (Session, seq<Delivery>)
    requires Accepted(es)
    decreases |es|
  {
    if es == [] then (s, [])
    else
      var first := Step(s, es[0].cmd, es[0].allocOk);
      var rest := Run(first.0, es[1..]);
      (rest.0, first.1 + rest.1)
  }

  lemma {:induction false} RunConcat(s: Session, es: seq<Event>, fs: seq<Event>)
    requires Accepted(es) && Accepted(fs)
    ensures Accepted(es + fs)
    ensures Run(s, es + fs).0 == Run(Run(s, es).0, fs).0
    ensures Run(s, es + fs).1 == Run(s, es).1 + Run(Run(s, es).0, fs).1
    decreases |es|
  {
    if es == [] {
      assert es + fs == fs && [] + Run(s, fs).1 == Run(s, fs).1;
    } else {
      var first := Step(s, es[0].cmd, es[0].allocOk);
      assert (es + fs)[1..] == es[1..] + fs && (es + fs)[0] == es[0];
      RunConcat(first.0, es[1..], fs);
      Associative(first.1, Run(first.0, es[1..]).1, Run(Run(s, es).0, fs).1);
    }
  }

  /** A message on one of the four characteristics; its body starts with feature and action. */
  datatype Message = Message(kind: uint32, body: seq<byte>) {
    ghost predicate Valid() {
      2 <= |body| < 0x1_0000
    }
  }

  ghost function Expected(m: Message): Delivery
    requires m.Valid()
  {
    Delivery(m.kind % 256, m.body[0], m.body[1], |m.body|, |m.body| - 2, m.body)
  }

  ghost predicate IsContinuation(c: Cmd) {
    c.Valid() && GetType(c) == Continuation && 2 <= c.len
  }

  ghost predicate Continuations(cs: seq<Cmd>) {
    forall i | 0 <= i < |cs| :: IsContinuation(cs[i])
  }

  /** The payloads of continuation frames, joined. */
  ghost function Joined(cs: seq<Cmd>): seq<byte>
    requires Continuations(cs)
  {
    if cs == [] then [] else Payload(cs[0]) + Joined(cs[1..])
  }

  /** A start frame of any of the three widths that declares the length of `m`, names its channel and holds
      at least its feature and action. */
  ghost predicate Starts(c: Cmd, m: Message) {
    && c.Valid() && GetType(c) in {Bits5, Bits13, Bits16} && HeaderLen(c) + 2 <= c.len
    && c.cmdType == m.kind && GetLen(c) == |m.body| && Payload(c) <= m.body
  }

  /** `frames` is some way of cutting `m` up: a start frame, then non-empty continuations. */
  ghost predicate Carries(frames: seq<Cmd>, m: Message) {
    && m.Valid() && frames != []
    && Starts(frames[0], m) && Continuations(frames[1..])
    && Payload(frames[0]) + Joined(frames[1..]) == m.body
  }

  /** The session of `m` when `got` has arrived. */
  ghost function Begun(m: Message, got: seq<byte>): Session
    requires m.Valid()
  {
    Open(m.kind % 256, m.body[0], m.body[1], |m.body|, got)
  }

  ghost function Events(cs: seq<Cmd>, allocOk: bool): (es: seq<Event>)
    ensures |es| == |cs| && forall i | 0 <= i < |cs| :: es[i] == Event(cs[i], allocOk)
  {
    seq(|cs|, i requires 0 <= i < |cs| => Event(cs[i], allocOk))
  }

  /** The first of several frames: its own effect, then the rest. */
  lemma {:induction false} RunFirst(s: Session, cs: seq<Cmd>, allocOk: bool)
    requires cs != [] && Acceptable(cs[0], allocOk) && Accepted(Events(cs[1..], allocOk))
    ensures Accepted(Events(cs, allocOk))
    ensures var first := Step(s, cs[0], allocOk);
            var rest := Run(first.0, Events(cs[1..], allocOk));
            && Run(s, Events(cs, allocOk)) == (rest.0, first.1 + rest.1)
            && (first.1 == [] ==> Run(s, Events(cs, allocOk)) == rest)
            && (cs[1..] == [] ==> Run(s, Events(cs, allocOk)) == first)
  {
    var es := Events(cs, allocOk);
    assert es[0] == Event(cs[0], allocOk) && es[1..] == Events(cs[1..], allocOk);
    assert forall i | 0 < i < |es| :: es[i] == es[1..][i - 1];
    var first := Step(s, cs[0], allocOk);
    var rest := Run(first.0, Events(cs[1..], allocOk));
    assert [] + rest.1 == rest.1 && first.1 + [] == first.1;
    assert cs[1..] == [] ==> Events(cs[1..], allocOk) == [];
  }

  /** Bytes a session still waits for; 0 when there is no session. */
  ghost function Gap(s: Session): int {
    if s.Idle? then 0 else s.total - |s.got|
  }

  /** Continuations arriving at a session that waits for `gap` bytes: the gap afterwards, and how many messages
      they complete. */
  ghost function Drain(gap: nat, cs: seq<Cmd>): (nat, nat)
    requires Continuations(cs)
    decreases |cs|
  {
    if cs == [] then (gap, 0)
    else if gap == 0 || |Payload(cs[0])| > gap then Drain(0, cs[1..])
    else if |Payload(cs[0])| == gap then (Drain(0, cs[1..]).0, 1 + Drain(0, cs[1..]).1)
    else Drain(gap - |Payload(cs[0])|, cs[1..])
  }

  /** A well-formed session always waits for something. */
  ghost predicate Waiting(s: Session) {
    s.Open? ==> |s.got| < s.total
  }

  lemma {:induction false} ContinuationsDrain(s: Session, cs: seq<Cmd>, allocOk: bool)
    requires Waiting(s) && Continuations(cs)
    ensures Accepted(Events(cs, allocOk)) && Waiting(Run(s, Events(cs, allocOk)).0)
    ensures Gap(Run(s, Events(cs, allocOk)).0) == Drain(Gap(s), cs).0
    ensures |Run(s, Events(cs, allocOk)).1| == Drain(Gap(s), cs).1
    decreases |cs|
  {
    if cs == [] {
      assert Events(cs, allocOk) == [];
    } else {
      OneDrain(s, cs[0], allocOk);
      ContinuationsDrain(Step(s, cs[0], allocOk).0, cs[1..], allocOk);
      RunFirst(s, cs, allocOk);
    }
  }

  lemma {:induction false} OneDrain(s: Session, c: Cmd, allocOk: bool)
    requires Waiting(s) && IsContinuation(c)
    ensures var r := Step(s, c, allocOk);
            && Waiting(r.0)
            && Gap(r.0) == (if |Payload(c)| >= Gap(s) then 0 else Gap(s) - |Payload(c)|)
            && |r.1| == (if |Payload(c)| == Gap(s) then 1 else 0)
  {
  }

  /** Continuations that exactly fill the gap complete the message, at the last of them; fewer bytes only
      extend the session. */
  lemma {:induction false} ContinuationsFill(s: Session, cs: seq<Cmd>, allocOk: bool)
    requires s.Open? && Waiting(s) && Continuations(cs) && |s.got| + |Joined(cs)| <= s.total
    ensures Accepted(Events(cs, allocOk))
    ensures var whole := s.(got := s.got + Joined(cs));
            Run(s, Events(cs, allocOk)) == if cs == [] then (s, []) else Settle(whole)
    decreases |cs|
  {
    if cs == [] {
      assert Events(cs, allocOk) == [] && s.got + Joined(cs) == s.got;
    } else {
      var next := s.(got := s.got + Payload(cs[0]));
      assert next.got + Joined(cs[1..]) == s.got + Joined(cs);
      if cs[1..] == [] {
        assert next.got == s.got + Joined(cs);
        RunFirst(s, cs, allocOk);
      } else {
        JoinedNonEmpty(cs[1..]);
        ContinuationsFill(next, cs[1..], allocOk);
        RunFirst(s, cs, allocOk);
      }
    }
  }

  lemma JoinedNonEmpty(cs: seq<Cmd>)
    requires Continuations(cs) && cs != []
    ensures |Joined(cs)| > 0
  {
  }

  /** The start frame of a message, received in any state. */
  lemma StartOpens(s: Session, c: Cmd, m: Message, allocOk: bool)
    requires m.Valid() && Starts(c, m)
    ensures Acceptable(c, allocOk)
    ensures Step(s, c, allocOk) == if allocOk then Settle(Begun(m, Payload(c))) else (Idle, [])
  {
    assert c.data[HeaderLen(c)] == Payload(c)[0] == m.body[0];
    assert c.data[HeaderLen(c) + 1] == Payload(c)[1] == m.body[1];
  }

  /** A start frame and continuations that together do not exceed the message. */
  lemma {:induction false} StartThenContinuations(s: Session, c: Cmd, cs: seq<Cmd>, m: Message, got: seq<byte>)
    requires m.Valid() && Starts(c, m) && Continuations(cs)
    requires got == Payload(c) + Joined(cs) && |got| <= |m.body|
    ensures Accepted(Events([c] + cs, true))
    ensures Run(s, Events([c] + cs, true)) == Settle(Begun(m, got))
  {
    StartOpens(s, c, m, true);
    assert ([c] + cs)[1..] == cs;
    if cs == [] {
      assert got == Payload(c);
      assert Events(cs, true) == [];
    } else {
      JoinedNonEmpty(cs);
      ContinuationsFill(Begun(m, Payload(c)), cs, true);
    }
    RunFirst(s, [c] + cs, true);
  }

  /** General reassembly: from any earlier state, however the message was cut up, its frames deliver it exactly
      once, when the last of them arrives, and leave no buffer behind. */
  lemma {:induction false} Reassembles(s: Session, frames: seq<Cmd>, m: Message)
    requires Carries(frames, m)
    ensures Accepted(Events(frames, true)) && Run(s, Events(frames, true)) == (Idle, [Expected(m)])
    ensures forall n | 0 <= n < |frames| ::
              Accepted(Events(frames[..n], true)) && Run(s, Events(frames[..n], true)).1 == []
  {
    var tail := frames[1..];
    forall n | 0 <= n < |frames|
      ensures Accepted(Events(frames[..n], true)) && Run(s, Events(frames[..n], true)).1 == []
    {
      if n == 0 {
        assert Events(frames[..n], true) == [];
      } else {
        assert tail == tail[..n - 1] + tail[n - 1..];
        PrefixReassembles(s, frames[0], tail[..n - 1], tail[n - 1..], m);
        assert frames[..n] == [frames[0]] + tail[..n - 1];
      }
    }
    assert tail + [] == tail;
    PrefixReassembles(s, frames[0], tail, [], m);
    assert frames == [frames[0]] + tail;
  }

  /** A message of which `rest` has not arrived yet. */
  lemma {:induction false} PrefixReassembles(s: Session, c: Cmd, cs: seq<Cmd>, rest: seq<Cmd>, m: Message)
    requires m.Valid() && Starts(c, m) && Continuations(cs) && Continuations(rest)
    requires Payload(c) + Joined(cs + rest) == m.body
    ensures Accepted(Events([c] + cs, true))
    ensures rest == [] ==> Run(s, Events([c] + cs, true)) == (Idle, [Expected(m)])
    ensures rest != [] ==> Run(s, Events([c] + cs, true)) == (Begun(m, Payload(c) + Joined(cs)), [])
  {
    var got := Payload(c) + Joined(cs);
    PrefixJoined(Payload(c), cs, rest, m.body);
    StartThenContinuations(s, c, cs, m, got);
  }

  /** What `cs` carries is the whole body, or too short if there is a rest. */
  lemma {:induction false} PrefixJoined(head: seq<byte>, cs: seq<Cmd>, rest: seq<Cmd>, body: seq<byte>)
    requires Continuations(cs) && Continuations(rest) && Continuations(cs + rest) && head + Joined(cs + rest) == body
    ensures |head + Joined(cs)| <= |body|
    ensures if rest == [] then head + Joined(cs) == body else |head + Joined(cs)| < |body|
  {
    JoinedConcat(cs, rest);
    if rest == [] {
      assert cs + rest == cs;
    } else {
      JoinedNonEmpty(rest);
    }
  }

  lemma {:induction false} JoinedConcat(cs: seq<Cmd>, ds: seq<Cmd>)
    requires Continuations(cs) && Continuations(ds)
    ensures Continuations(cs + ds) && Joined(cs + ds) == Joined(cs) + Joined(ds)
  {
    if cs == [] {
      assert cs + ds == ds;
    } else {
      assert (cs + ds)[1..] == cs[1..] + ds;
      JoinedConcat(cs[1..], ds);
    }
  }

  /** The payload bytes since the last start frame, read off the frames themselves. */
  ghost function SinceStart(es: seq<Event>): seq<byte>
    requires Accepted(es)
  {
    if es == [] then []
    else
      var last := es[|es| - 1].cmd;
      if GetType(last) == Continuation then SinceStart(es[..|es| - 1]) + Payload(last) else Payload(last)
  }

  /** Invariant of every run, whatever continuations arrive: an open session holds exactly the payload bytes
      since the last start frame, and still waits for more. */
  lemma {:induction false} SessionHoldsSinceStart(es: seq<Event>)
    requires Accepted(es)
    ensures var s := Run(Idle, es).0; Waiting(s) && (s.Open? ==> s.got == SinceStart(es))
    decreases |es|
  {
    if es != [] {
      var init, last := es[..|es| - 1], es[|es| - 1..];
      SessionHoldsSinceStart(init);
      RunConcat(Idle, init, last);
      assert es == init + last && last[1..] == [];
      assert Run(Run(Idle, init).0, last).0 == Step(Run(Idle, init).0, last[0].cmd, last[0].allocOk).0;
    }
  }
}
