/** Commands on their way to the camera: publishers, the subscriber thread, the Bluetooth host and the write semaphore,
    interleaved (src/gopro_ble_discovery.c, src/gopro_client.c). */
module WritePipeline {
  import opened Bytes
  import opened Reassembler
  import opened Fragmenter
  import opened GoproClient
  import opened Sequences

  datatype Write = Write(channel: nat, bytes: seq<byte>)

  /** `blocked`: the subscriber waits for the semaphore. `outstanding`: channels of writes the host has not reported. */
  datatype Pipe = Pipe(flags: Flags, queue: seq<Cmd>, blocked: bool, sem: nat, outstanding: seq<nat>,
                       written: seq<Write>)

  datatype Event =
    | Publish(cmd: Cmd, connected: bool)
    | Take(connected: bool, host: int)
    | Proceed
    | Timeout
    | Report(index: nat)

  const INITIAL := Pipe(Flags([false, false, false, false], [0, 0, 0, 0]), [], false, 0, [], [])

  /** gopro_ctrl_parse: commands for the firmware itself. */
  predicate IsControl(c: Cmd) {
    c.cmdType == CONTROL_TYPE && c.len == 1 && |c.data| > 0 && c.data[0] in {0xDA, 0xAF, 0xBB}
  }

  function Without(s: seq<nat>, i: nat): seq<nat>
    requires i < |s|
  {
    s[..i] + s[i + 1..]
  }

  predicate Enabled(p: Pipe, e: Event) {
    match e
    case Publish(c, _) => c.Valid()
    case Take(_, _) => !p.blocked && p.queue != []
    case Proceed => p.blocked && p.sem == 1
    case Timeout => p.blocked && p.sem == 0
    case Report(i) => i < |p.outstanding|
  }

  /** `wh` are the write handles of the four channels. After every attempt to send, successful or not, the
      subscriber waits for the semaphore. */
  function Next(p: Pipe, wh: seq<uint16>, e: Event): Pipe
    requires Enabled(p, e) && p.flags.Valid() && |wh| == CHANNELS
    requires forall i | 0 <= i < |p.queue| :: p.queue[i].Valid()
    requires forall i | 0 <= i < |p.outstanding| :: p.outstanding[i] < CHANNELS
  {
    match e
    case Publish(c, connected) =>
      if Validator(c, connected) then p.(queue := p.queue + [c]) else p
    case Take(connected, host) =>
      var c, rest := p.queue[0], p.(queue := p.queue[1..]);
      if IsControl(c) then rest
      else
        var (flags, r) := Send(p.flags, wh, connected, c.cmdType, host);
        var after := rest.(flags := flags, blocked := true);
        if r == Accepted
        then after.(outstanding := p.outstanding + [c.cmdType as nat],
                    written := p.written + [Write(c.cmdType, c.Wire())])
        else after
    case Proceed => p.(blocked := false, sem := 0)
    case Timeout => p.(blocked := false)
    case Report(i) =>
      var ch := ChannelOf(p.flags.handles, p.flags.handles[p.outstanding[i]]);
      var left := p.(outstanding := Without(p.outstanding, i));
      if ch == -1 then left else left.(flags := p.flags.(pending := p.flags.pending[ch := false]), sem := 1)
  }

  /** The four channels have their own handles, none of them 0. */
  ghost predicate Distinct(wh: seq<uint16>) {
    && |wh| == CHANNELS
    && (forall i | 0 <= i < CHANNELS :: wh[i] != 0)
    && (forall i, j | 0 <= i < j < CHANNELS :: wh[i] != wh[j])
  }

  ghost predicate NoRepeats(s: seq<nat>) {
    forall i, j | 0 <= i < j < |s| :: s[i] != s[j]
  }

  /** A channel's pending bit is set exactly while one write on it is outstanding, and there is never a second. */
  ghost predicate Consistent(p: Pipe, wh: seq<uint16>) {
    && p.flags.Valid() && Distinct(wh) && p.sem <= 1
    && (forall i | 0 <= i < |p.queue| :: p.queue[i].Valid())
    && (forall i | 0 <= i < |p.outstanding| ::
          p.outstanding[i] < CHANNELS && p.flags.handles[p.outstanding[i]] == wh[p.outstanding[i]])
    && NoRepeats(p.outstanding)
    && (forall ch: nat | ch < CHANNELS :: p.flags.pending[ch] <==> ch in p.outstanding)
    && (forall ch | 0 <= ch < CHANNELS :: p.flags.handles[ch] == 0 || p.flags.handles[ch] == wh[ch])
  }

  lemma WithoutOne(s: seq<nat>, i: nat)
    requires i < |s| && NoRepeats(s)
    ensures NoRepeats(Without(s, i)) && |Without(s, i)| == |s| - 1
    ensures forall x :: x in Without(s, i) <==> x in s && x != s[i]
  {
    assert s == s[..i] + [s[i]] + s[i + 1..];
  }

  lemma NextKeepsConsistent(p: Pipe, wh: seq<uint16>, e: Event)
    requires Consistent(p, wh) && Enabled(p, e)
    ensures Consistent(Next(p, wh, e), wh)
  {
    match e {
      case Take(connected, host) => TakeKeepsConsistent(p, wh, connected, host);
      case Report(i) => ReportKeepsConsistent(p, wh, i);
      case _ =>
    }
  }

  lemma TakeKeepsConsistent(p: Pipe, wh: seq<uint16>, connected: bool, host: int)
    requires Consistent(p, wh) && Enabled(p, Take(connected, host))
    ensures Consistent(Next(p, wh, Take(connected, host)), wh)
  {
  }

  /** The report of a write finds the channel of that write, and clears no other. */
  lemma ReportKeepsConsistent(p: Pipe, wh: seq<uint16>, i: nat)
    requires Consistent(p, wh) && Enabled(p, Report(i))
    ensures ChannelOf(p.flags.handles, p.flags.handles[p.outstanding[i]]) == p.outstanding[i]
    ensures Consistent(Next(p, wh, Report(i)), wh)
  {
    WithoutOne(p.outstanding, i);
    var q := Next(p, wh, Report(i));
    assert forall k | 0 <= k < |q.outstanding| :: q.outstanding[k] in Without(p.outstanding, i);
  }

  // ---- runs ----

  ghost predicate Possible(p: Pipe, wh: seq<uint16>, es: seq<Event>)
    requires Consistent(p, wh)
    decreases |es|
  {
    es != [] ==>
      Enabled(p, es[0]) && (NextKeepsConsistent(p, wh, es[0]); Possible(Next(p, wh, es[0]), wh, es[1..]))
  }

  ghost function Final(p: Pipe, wh: seq<uint16>, es: seq<Event>): (q: Pipe)
    requires Consistent(p, wh) && Possible(p, wh, es)
    ensures Consistent(q, wh)
    decreases |es|
  {
    if es == [] then p
    else NextKeepsConsistent(p, wh, es[0]); Final(Next(p, wh, es[0]), wh, es[1..])
  }

  /** In every interleaving from rest, a channel's pending bit is set exactly while one write on that channel is
      outstanding, and there are never two. */
  lemma {:induction false} PendingIsOutstanding(wh: seq<uint16>, es: seq<Event>, ch: nat)
    requires Consistent(INITIAL, wh) && Possible(INITIAL, wh, es) && ch < CHANNELS
    ensures var q := Final(INITIAL, wh, es);
            multiset(q.outstanding)[ch] == if q.flags.pending[ch] then 1 else 0
  {
    var q := Final(INITIAL, wh, es);
    NoRepeatsCount(q.outstanding, ch);
  }

  lemma {:induction false} NoRepeatsCount(s: seq<nat>, x: nat)
    requires NoRepeats(s)
    ensures multiset(s)[x] == if x in s then 1 else 0
  {
    if s != [] {
      assert s == [s[0]] + s[1..];
      NoRepeatsCount(s[1..], x);
    }
  }

  ghost function Timeouts(es: seq<Event>): nat {
    if es == [] then 0 else (if es[0].Timeout? then 1 else 0) + Timeouts(es[1..])
  }

  /** Writes and permits under way. */
  ghost function Flying(p: Pipe): int {
    |p.outstanding| + p.sem - if p.blocked then 1 else 0
  }

  /** A command that is neither for the firmware itself nor accepted by the host. */
  ghost predicate SendFails(p: Pipe, wh: seq<uint16>, connected: bool, host: int)
    requires Consistent(p, wh) && p.queue != []
  {
    !IsControl(p.queue[0]) && Send(p.flags, wh, connected, p.queue[0].cmdType, host).1 != Accepted
  }

  /** A step after which one permit less is under way: a failed send waits for a permit nobody gives, and giving a
      semaphore that is already up has no effect. */
  ghost predicate Wastes(p: Pipe, wh: seq<uint16>, e: Event)
    requires Consistent(p, wh) && Enabled(p, e)
  {
    (e.Take? && SendFails(p, wh, e.connected, e.host)) || (e.Report? && p.sem == 1)
  }

  ghost function Wasted(p: Pipe, wh: seq<uint16>, es: seq<Event>): nat
    requires Consistent(p, wh) && Possible(p, wh, es)
    decreases |es|
  {
    if es == [] then 0
    else
      NextKeepsConsistent(p, wh, es[0]);
      (if Wastes(p, wh, es[0]) then 1 else 0) + Wasted(Next(p, wh, es[0]), wh, es[1..])
  }

  /** The balance of every interleaving: each timed-out wait puts one more write or permit under way, each wasted
      step one less, and nothing else changes their number. */
  lemma {:induction false} OutstandingBalance(p: Pipe, wh: seq<uint16>, es: seq<Event>)
    requires Consistent(p, wh) && Possible(p, wh, es)
    ensures Flying(Final(p, wh, es)) == Flying(p) + Timeouts(es) - Wasted(p, wh, es)
    decreases |es|
  {
    if es != [] {
      NextKeepsConsistent(p, wh, es[0]);
      FlyingStep(p, wh, es[0]);
      OutstandingBalance(Next(p, wh, es[0]), wh, es[1..]);
    }
  }

  lemma {:induction false} FlyingStep(p: Pipe, wh: seq<uint16>, e: Event)
    requires Consistent(p, wh) && Enabled(p, e)
    ensures Flying(Next(p, wh, e)) ==
            Flying(p) + (if e.Timeout? then 1 else 0) - (if Wastes(p, wh, e) then 1 else 0)
  {
    if e.Report? {
      ReportKeepsConsistent(p, wh, e.index);
      WithoutOne(p.outstanding, e.index);
    }
  }

  /** From rest, the number of outstanding writes is known exactly; without a timeout it is at most one. */
  lemma {:induction false} AtMostOneWrite(wh: seq<uint16>, es: seq<Event>)
    requires Consistent(INITIAL, wh) && Possible(INITIAL, wh, es)
    ensures var q := Final(INITIAL, wh, es);
            && |q.outstanding| == Timeouts(es) - Wasted(INITIAL, wh, es) - q.sem + (if q.blocked then 1 else 0)
            && (Timeouts(es) == 0 ==> |q.outstanding| <= 1)
  {
    OutstandingBalance(INITIAL, wh, es);
  }

  /** One event, then the rest. */
  lemma {:induction false} FinalFirst(p: Pipe, wh: seq<uint16>, es: seq<Event>)
    requires Consistent(p, wh) && es != [] && Enabled(p, es[0])
    ensures var q := Next(p, wh, es[0]);
            && Consistent(q, wh)
            && (Possible(q, wh, es[1..]) ==> Possible(p, wh, es) && Final(p, wh, es) == Final(q, wh, es[1..]))
            && (es[1..] == [] ==> Possible(p, wh, es) && Final(p, wh, es) == q)
  {
    NextKeepsConsistent(p, wh, es[0]);
  }

  lemma {:induction false} FirstThenTimeout(p: Pipe, wh: seq<uint16>)
    requires Consistent(p, wh) && !p.blocked && p.sem == 0 && p.outstanding == [] && p.queue != []
    requires p.queue[0].cmdType < CHANNELS
    ensures Enabled(p, Take(true, 0)) && Enabled(Next(p, wh, Take(true, 0)), Timeout)
    ensures var a, q := p.queue[0].cmdType as nat, Next(Next(p, wh, Take(true, 0)), wh, Timeout);
            && Consistent(q, wh) && q.queue == p.queue[1..] && !q.blocked && q.outstanding == [a]
            && forall ch | 0 <= ch < CHANNELS && ch != a :: !q.flags.pending[ch]
  {
    NextKeepsConsistent(p, wh, Take(true, 0));
  }

  lemma {:induction false} TakeSecond(q: Pipe, wh: seq<uint16>, a: nat)
    requires Consistent(q, wh) && !q.blocked && q.outstanding == [a] && q.queue != []
    requires q.queue[0].cmdType < CHANNELS && !q.flags.pending[q.queue[0].cmdType]
    ensures Enabled(q, Take(true, 0))
    ensures Next(q, wh, Take(true, 0)).outstanding == [a, q.queue[0].cmdType as nat]
  {
  }

  lemma {:induction false} ThreeSteps(p: Pipe, q: Pipe, r: Pipe, wh: seq<uint16>, e: Event, f: Event, g: Event)
    requires Consistent(p, wh) && Enabled(p, e) && q == Next(p, wh, e)
    requires Consistent(q, wh) && Enabled(q, f) && r == Next(q, wh, f)
    requires Consistent(r, wh) && Enabled(r, g)
    ensures Possible(p, wh, [e, f, g]) && Final(p, wh, [e, f, g]) == Next(r, wh, g)
  {
    assert [e, f, g][1..] == [f, g] && [f, g][1..] == [g] && [g][1..] == [];
    FinalFirst(r, wh, [g]);
    FinalFirst(q, wh, [f, g]);
    FinalFirst(p, wh, [e, f, g]);
  }

  /** A timed-out wait does let a second write out, whenever the next two commands are for different channels and the
      first is not yet reported when its wait times out. */
  lemma {:induction false} TimeoutAllowsSecondWrite(p: Pipe, wh: seq<uint16>)
    requires Consistent(p, wh) && !p.blocked && p.sem == 0 && p.outstanding == [] && |p.queue| >= 2
    requires p.queue[0].cmdType < CHANNELS && p.queue[1].cmdType < CHANNELS
    requires p.queue[0].cmdType != p.queue[1].cmdType
    ensures var es := [Take(true, 0), Timeout, Take(true, 0)];
            && Possible(p, wh, es) && Timeouts(es) == 1
            && Final(p, wh, es).outstanding == [p.queue[0].cmdType as nat, p.queue[1].cmdType as nat]
  {
    var take := Take(true, 0);
    FirstThenTimeout(p, wh);
    NextKeepsConsistent(p, wh, take);
    var p1 := Next(p, wh, take);
    var p2 := Next(p1, wh, Timeout);
    TakeSecond(p2, wh, p.queue[0].cmdType);
    ThreeSteps(p, p1, p2, wh, take, Timeout, take);
    assert [take, Timeout, take][1..] == [Timeout, take] && [Timeout, take][1..] == [take] && [take][1..] == [];
  }

  /** Two published commands are such a queue, so that two writes are outstanding in a run from rest. */
  lemma {:induction false} SecondWriteReached(wh: seq<uint16>, a: Cmd, b: Cmd)
    requires Consistent(INITIAL, wh) && a.Valid() && b.Valid()
    requires a.cmdType < CHANNELS && b.cmdType < CHANNELS && a.cmdType != b.cmdType
    ensures var es := [Publish(a, true), Publish(b, true)] + [Take(true, 0), Timeout, Take(true, 0)];
            && Possible(INITIAL, wh, es) && Timeouts(es) == 1
            && Final(INITIAL, wh, es).outstanding == [a.cmdType as nat, b.cmdType as nat]
  {
    var take3 := [Take(true, 0), Timeout, Take(true, 0)];
    var es := [Publish(a, true), Publish(b, true)] + take3;
    var p1 := INITIAL.(queue := [a]);
    assert p1 == Next(INITIAL, wh, Publish(a, true));
    NextKeepsConsistent(INITIAL, wh, Publish(a, true));
    var p2 := p1.(queue := [a, b]);
    assert p2 == Next(p1, wh, Publish(b, true));
    NextKeepsConsistent(p1, wh, Publish(b, true));
    TimeoutAllowsSecondWrite(p2, wh);
    assert es[1..] == [Publish(b, true)] + take3 && es[1..][1..] == take3;
    FinalFirst(p1, wh, es[1..]);
    FinalFirst(INITIAL, wh, es);
  }

  // ---- order ----

  /** Every attempt to send in the run is accepted by the host, and no wait times out. */
  ghost predicate AllSucceed(p: Pipe, wh: seq<uint16>, es: seq<Event>)
    requires Consistent(p, wh) && Possible(p, wh, es)
    decreases |es|
  {
    es != [] ==>
      && !es[0].Timeout?
      && (es[0].Take? && !IsControl(p.queue[0]) ==>
            Send(p.flags, wh, es[0].connected, p.queue[0].cmdType, es[0].host).1 == Accepted)
      && (NextKeepsConsistent(p, wh, es[0]); AllSucceed(Next(p, wh, es[0]), wh, es[1..]))
  }

  ghost function PublishedBy(e: Event): seq<Cmd> {
    if e.Publish? && Validator(e.cmd, e.connected) then [e.cmd] else []
  }

  /** The commands a run accepts for publication, in order. */
  ghost function Published(es: seq<Event>): seq<Cmd> {
    if es == [] then [] else PublishedBy(es[0]) + Published(es[1..])
  }

  /** A command is queued exactly if it is for the firmware itself, or published while connected, at most 20 bytes long
      and for one of the four channels. */
  lemma {:induction false} PublishQueues(p: Pipe, wh: seq<uint16>, c: Cmd, connected: bool)
    requires Consistent(p, wh) && c.Valid()
    ensures var passes := c.cmdType == 0xFF || (connected && c.len <= 20 && c.cmdType < 4);
            && PublishedBy(Publish(c, connected)) == (if passes then [c] else [])
            && Next(p, wh, Publish(c, connected)) == if passes then p.(queue := p.queue + [c]) else p
  {
  }

  /** What the camera should get for a list of commands: those that are not for the firmware itself. */
  ghost function Writes(cs: seq<Cmd>): seq<Write>
    requires forall i | 0 <= i < |cs| :: cs[i].Valid()
  {
    if cs == [] then []
    else (if IsControl(cs[0]) then [] else [Write(cs[0].cmdType, cs[0].Wire())]) + Writes(cs[1..])
  }

  lemma {:induction false} WritesConcat(cs: seq<Cmd>, ds: seq<Cmd>)
    requires forall i | 0 <= i < |cs| :: cs[i].Valid()
    requires forall i | 0 <= i < |ds| :: ds[i].Valid()
    ensures Writes(cs + ds) == Writes(cs) + Writes(ds)
  {
    if cs == [] {
      assert cs + ds == ds;
    } else {
      assert (cs + ds)[1..] == cs[1..] + ds;
      WritesConcat(cs[1..], ds);
    }
  }

  /** When every write succeeds and no wait times out, what has been written, followed by what is still queued, is
      everything published, in publish order. */
  lemma {:induction false} WrittenInOrder(p: Pipe, wh: seq<uint16>, es: seq<Event>)
    requires Consistent(p, wh) && Possible(p, wh, es) && AllSucceed(p, wh, es)
    ensures forall i | 0 <= i < |Published(es)| :: Published(es)[i].Valid()
    ensures var q := Final(p, wh, es);
            q.written + Writes(q.queue) == p.written + Writes(p.queue) + Writes(Published(es))
    decreases |es|
  {
    if es == [] {
      assert Writes(Published(es)) == [];
    } else {
      NextKeepsConsistent(p, wh, es[0]);
      WrittenInOrder(Next(p, wh, es[0]), wh, es[1..]);
      OrderStep(p, wh, es[0]);
      PublishedFirst(es);
    }
  }

  lemma {:induction false} PublishedFirst(es: seq<Event>)
    requires es != []
    requires forall i | 0 <= i < |PublishedBy(es[0])| :: PublishedBy(es[0])[i].Valid()
    requires forall i | 0 <= i < |Published(es[1..])| :: Published(es[1..])[i].Valid()
    ensures forall i | 0 <= i < |Published(es)| :: Published(es)[i].Valid()
    ensures forall x: seq<Write> ::
              x + Writes(Published(es)) == x + Writes(PublishedBy(es[0])) + Writes(Published(es[1..]))
  {
    var now := PublishedBy(es[0]);
    WritesConcat(now, Published(es[1..]));
  }

  lemma {:induction false} OrderStep(p: Pipe, wh: seq<uint16>, e: Event)
    requires Consistent(p, wh) && Enabled(p, e)
    requires e.Take? && !IsControl(p.queue[0]) ==>
               Send(p.flags, wh, e.connected, p.queue[0].cmdType, e.host).1 == Accepted
    ensures forall i | 0 <= i < |PublishedBy(e)| :: PublishedBy(e)[i].Valid()
    ensures var q := Next(p, wh, e);
            (forall i | 0 <= i < |q.queue| :: q.queue[i].Valid())
            && q.written + Writes(q.queue) == p.written + Writes(p.queue) + Writes(PublishedBy(e))
  {
    match e {
      case Publish(c, connected) =>
        WritesConcat(p.queue, PublishedBy(e));
      case Take(connected, host) =>
        TakeMoves(p, wh, connected, host);
      case _ =>
        assert Writes(PublishedBy(e)) == [];
    }
  }

  lemma {:induction false} TakeMoves(p: Pipe, wh: seq<uint16>, connected: bool, host: int)
    requires Consistent(p, wh) && Enabled(p, Take(connected, host))
    requires !IsControl(p.queue[0]) ==> Send(p.flags, wh, connected, p.queue[0].cmdType, host).1 == Accepted
    ensures var q := Next(p, wh, Take(connected, host));
            (forall i | 0 <= i < |q.queue| :: q.queue[i].Valid())
            && q.written + Writes(q.queue) == p.written + Writes(p.queue)
  {
    var c, rest := p.queue[0], p.queue[1..];
    if !IsControl(c) {
      assert p.written + [Write(c.cmdType, c.Wire())] + Writes(rest)
          == p.written + ([Write(c.cmdType, c.Wire())] + Writes(rest));
    }
  }

  ghost function SentBy(p: Pipe, wh: seq<uint16>, e: Event): seq<Write>
    requires Consistent(p, wh) && Enabled(p, e)
  {
    if e.Take? && !IsControl(p.queue[0]) && !SendFails(p, wh, e.connected, e.host)
    then [Write(p.queue[0].cmdType, p.queue[0].Wire())] else []
  }

  /** The accepted sends of a run, as the subscriber takes them. */
  ghost function Sent(p: Pipe, wh: seq<uint16>, es: seq<Event>): seq<Write>
    requires Consistent(p, wh) && Possible(p, wh, es)
    decreases |es|
  {
    if es == [] then []
    else
      NextKeepsConsistent(p, wh, es[0]);
      SentBy(p, wh, es[0]) + Sent(Next(p, wh, es[0]), wh, es[1..])
  }

  lemma {:induction false} WrittenStep(p: Pipe, wh: seq<uint16>, e: Event)
    requires Consistent(p, wh) && Enabled(p, e)
    ensures Next(p, wh, e).written == p.written + SentBy(p, wh, e)
  {
  }

  /** A take sends the head of the queue, or nothing. */
  lemma {:induction false} TakeSends(p: Pipe, wh: seq<uint16>, connected: bool, host: int)
    requires Consistent(p, wh) && Enabled(p, Take(connected, host))
    ensures var q := Next(p, wh, Take(connected, host));
            && (forall i | 0 <= i < |q.queue| :: q.queue[i].Valid())
            && Subsequence(SentBy(p, wh, Take(connected, host)) + Writes(q.queue), Writes(p.queue))
  {
    var c, rest := p.queue[0], Writes(p.queue[1..]);
    var head := if IsControl(c) then [] else [Write(c.cmdType, c.Wire())];
    var sent := SentBy(p, wh, Take(connected, host));
    assert Next(p, wh, Take(connected, host)).queue == p.queue[1..];
    HeadOrNothing(sent, head, rest);
  }

  lemma {:induction false} HeadOrNothing(sent: seq<Write>, head: seq<Write>, rest: seq<Write>)
    requires sent == head || sent == []
    ensures Subsequence(sent + rest, head + rest)
  {
    SubsequenceOfItself(head + rest);
    SubsequenceOfItself(rest);
    SubsequenceBehind(rest, head, rest);
    assert [] + rest == rest;
  }

  /** One step: what it sends and what stays queued are, in order, among what was queued and what it publishes. */
  lemma {:induction false} SentStep(p: Pipe, wh: seq<uint16>, e: Event)
    requires Consistent(p, wh) && Enabled(p, e)
    ensures forall i | 0 <= i < |PublishedBy(e)| :: PublishedBy(e)[i].Valid()
    ensures forall i | 0 <= i < |Next(p, wh, e).queue| :: Next(p, wh, e).queue[i].Valid()
    ensures Subsequence(SentBy(p, wh, e) + Writes(Next(p, wh, e).queue), Writes(p.queue) + Writes(PublishedBy(e)))
  {
    if e.Take? {
      TakeSends(p, wh, e.connected, e.host);
      assert Writes(p.queue) + [] == Writes(p.queue);
    } else {
      WritesConcat(p.queue, PublishedBy(e));
      assert Next(p, wh, e).queue == p.queue + PublishedBy(e);
      SubsequenceOfItself(Writes(p.queue + PublishedBy(e)));
      assert [] + Writes(p.queue + PublishedBy(e)) == Writes(p.queue + PublishedBy(e));
    }
  }

  lemma {:induction false} OneStepMore(now: seq<Write>, after: seq<Write>, before: seq<Write>, published: seq<Write>,
                                       later: seq<Write>, left: seq<Write>, coming: seq<Write>)
    requires Subsequence(now + after, before + published) && Subsequence(later + left, after + coming)
    ensures Subsequence(now + later + left, before + (published + coming))
  {
    SameSuffix(now + after, before + published, coming);
    SamePrefix(now, later + left, after + coming);
    assert now + (after + coming) == now + after + coming;
    SubsequenceTransitive(now + (later + left), now + after + coming, before + published + coming);
    assert now + (later + left) == now + later + left;
    assert before + published + coming == before + (published + coming);
  }

  lemma {:induction false} PublishedValid(p: Pipe, wh: seq<uint16>, es: seq<Event>)
    requires Consistent(p, wh) && Possible(p, wh, es)
    ensures forall i | 0 <= i < |Published(es)| :: Published(es)[i].Valid()
    decreases |es|
  {
    if es != [] {
      NextKeepsConsistent(p, wh, es[0]);
      PublishedValid(Next(p, wh, es[0]), wh, es[1..]);
    }
  }

  /** Order, in every interleaving: the accepted sends and what is still queued come from what was queued and
      published, in that order; nothing is reordered or repeated. */
  lemma {:induction false} SentInOrder(p: Pipe, wh: seq<uint16>, es: seq<Event>)
    requires Consistent(p, wh) && Possible(p, wh, es)
    requires forall i | 0 <= i < |Published(es)| :: Published(es)[i].Valid()
    ensures Subsequence(Sent(p, wh, es) + Writes(Final(p, wh, es).queue), Writes(p.queue) + Writes(Published(es)))
    decreases |es|
  {
    if es == [] {
      assert Sent(p, wh, es) + Writes(p.queue) == Writes(p.queue) == Writes(p.queue) + Writes(Published(es));
      SubsequenceOfItself(Writes(p.queue));
    } else {
      var e, rest := es[0], es[1..];
      NextKeepsConsistent(p, wh, e);
      var q := Next(p, wh, e);
      PublishedValid(q, wh, rest);
      SentInOrder(q, wh, rest);
      SentStep(p, wh, e);
      WritesConcat(PublishedBy(e), Published(rest));
      OneStepMore(SentBy(p, wh, e), Writes(q.queue), Writes(p.queue), Writes(PublishedBy(e)), Sent(q, wh, rest),
                  Writes(Final(q, wh, rest).queue), Writes(Published(rest)));
    }
  }

  /** What has been written is what was there and the accepted sends. */
  lemma {:induction false} WrittenIsSent(p: Pipe, wh: seq<uint16>, es: seq<Event>)
    requires Consistent(p, wh) && Possible(p, wh, es)
    ensures Final(p, wh, es).written == p.written + Sent(p, wh, es)
    decreases |es|
  {
    if es != [] {
      NextKeepsConsistent(p, wh, es[0]);
      WrittenStep(p, wh, es[0]);
      var q := Next(p, wh, es[0]);
      WrittenIsSent(q, wh, es[1..]);
      Associative(p.written, SentBy(p, wh, es[0]), Sent(q, wh, es[1..]));
    }
  }

  lemma {:induction false} FromNothing(sent: seq<Write>, left: seq<Write>, all: seq<Write>)
    requires Subsequence(sent + left, [] + all)
    ensures Subsequence([] + sent + left, all)
  {
    assert [] + sent == sent && [] + all == all;
  }

  lemma {:induction false} SentByTake(p: Pipe, wh: seq<uint16>, e: Event)
    requires Consistent(p, wh) && Enabled(p, e) && SentBy(p, wh, e) != []
    ensures e == Take(true, 0) && p.queue != [] && p.queue[0].cmdType < 4 && !p.flags.pending[p.queue[0].cmdType]
    ensures SentBy(p, wh, e) == [Write(p.queue[0].cmdType, p.queue[0].Wire())]
  {
    SendAnswered(p.flags, wh, e.connected, p.queue[0].cmdType, e.host);
  }

  lemma {:induction false} PrefixBehind(p: Pipe, wh: seq<uint16>, es: seq<Event>, i: nat)
    requires Consistent(p, wh) && es != [] && i < |es| && Enabled(p, es[0]) && Consistent(Next(p, wh, es[0]), wh)
    requires Possible(Next(p, wh, es[0]), wh, es[1..][..i])
    ensures Possible(p, wh, es[..i + 1])
    ensures Final(p, wh, es[..i + 1]) == Final(Next(p, wh, es[0]), wh, es[1..][..i])
  {
    assert es[..i + 1][1..] == es[1..][..i];
    FinalFirst(p, wh, es[..i + 1]);
  }

  /** Where a write comes from: the subscriber took its command while connected, and the host accepted it. */
  lemma {:induction false} SentFromTake(p: Pipe, wh: seq<uint16>, es: seq<Event>, k: nat) returns (j: nat)
    requires Consistent(p, wh) && Possible(p, wh, es) && k < |Sent(p, wh, es)|
    ensures j < |es| && es[j] == Take(true, 0) && Possible(p, wh, es[..j])
    ensures var q := Final(p, wh, es[..j]);
            && q.queue != [] && q.queue[0].cmdType < 4 && !q.flags.pending[q.queue[0].cmdType]
            && Sent(p, wh, es)[k] == Write(q.queue[0].cmdType, q.queue[0].Wire())
    decreases |es|
  {
    NextKeepsConsistent(p, wh, es[0]);
    var now := SentBy(p, wh, es[0]);
    if k < |now| {
      j := 0;
      SentByTake(p, wh, es[0]);
    } else {
      var q := Next(p, wh, es[0]);
      var i := SentFromTake(q, wh, es[1..], k - |now|);
      j := i + 1;
      PrefixBehind(p, wh, es, i);
      assert Sent(p, wh, es)[k] == Sent(q, wh, es[1..])[k - |now|];
    }
  }

  /** Without a connection nothing is ever written. */
  lemma {:induction false} NothingWithoutConnection(p: Pipe, wh: seq<uint16>, es: seq<Event>)
    requires Consistent(p, wh) && Possible(p, wh, es)
    requires forall i | 0 <= i < |es| && es[i].Take? :: !es[i].connected
    ensures Final(p, wh, es).written == p.written
  {
    WrittenIsSent(p, wh, es);
    if Sent(p, wh, es) != [] {
      var j := SentFromTake(p, wh, es, 0);
    }
  }

  /** The subscriber waits after every command but three: the control bytes 0xDA, 0xAF and 0xBB. */
  lemma {:induction false} TakeWaits(p: Pipe, wh: seq<uint16>, connected: bool, host: int)
    requires Consistent(p, wh) && Enabled(p, Take(connected, host))
    ensures var c, q := p.queue[0], Next(p, wh, Take(connected, host));
            && q.queue == p.queue[1..]
            && (q.blocked <==> !(c.cmdType == 0xFF && c.len == 1 && c.data[0] in {0xDA, 0xAF, 0xBB}))
            && (!q.blocked ==> q == p.(queue := q.queue))
  {
  }

  /** From rest: in every interleaving, whatever fails or times out, the camera gets commands in publish order. */
  lemma {:induction false} WrittenIsPublished(wh: seq<uint16>, es: seq<Event>)
    requires Consistent(INITIAL, wh) && Possible(INITIAL, wh, es)
    ensures forall i | 0 <= i < |Published(es)| :: Published(es)[i].Valid()
    ensures var q := Final(INITIAL, wh, es);
            Subsequence(q.written + Writes(q.queue), Writes(Published(es)))
  {
    PublishedValid(INITIAL, wh, es);
    SentInOrder(INITIAL, wh, es);
    WrittenIsSent(INITIAL, wh, es);
    FromNothing(Sent(INITIAL, wh, es), Writes(Final(INITIAL, wh, es).queue), Writes(Published(es)));
  }

  lemma {:induction false} FailedSendBlocks(p: Pipe, wh: seq<uint16>, es: seq<Event>)
    requires Consistent(p, wh) && Possible(p, wh, es) && Timeouts(es) == 0
    requires p.blocked && p.sem == 0 && p.outstanding == []
    ensures var q := Final(p, wh, es); q.blocked && q.written == p.written
    decreases |es|
  {
    if es != [] {
      NextKeepsConsistent(p, wh, es[0]);
      FailedSendBlocks(Next(p, wh, es[0]), wh, es[1..]);
    }
  }

  /** Some run without a timeout lets the blocked subscriber go on. */
  ghost predicate CanProceed(p: Pipe, wh: seq<uint16>)
    requires Consistent(p, wh)
  {
    exists es: seq<Event> :: Possible(p, wh, es) && Timeouts(es) == 0 && !Final(p, wh, es).blocked
  }

  /** After a command that cannot be sent, such as an unknown control command, the subscriber waits all the same. It
      can go on without a timeout if and only if the semaphore was already up or a write was still outstanding;
      otherwise nothing more is written, whatever is published. */
  lemma {:induction false} UnsendableStalls(p: Pipe, wh: seq<uint16>, connected: bool, host: int)
    requires Consistent(p, wh) && Enabled(p, Take(connected, host)) && SendFails(p, wh, connected, host)
    ensures var q := Next(p, wh, Take(connected, host));
            && Consistent(q, wh)
            && (CanProceed(q, wh) <==> p.sem == 1 || p.outstanding != [])
            && (!CanProceed(q, wh) ==> forall es: seq<Event> | Possible(q, wh, es) && Timeouts(es) == 0 ::
                  Final(q, wh, es).written == p.written)
  {
    NextKeepsConsistent(p, wh, Take(connected, host));
    var q := Next(p, wh, Take(connected, host));
    if q.sem == 1 {
      ProceedNow(q, wh);
    } else if q.outstanding != [] {
      ProceedAfterReport(q, wh);
    } else {
      forall es: seq<Event> | Possible(q, wh, es) && Timeouts(es) == 0
        ensures Final(q, wh, es).blocked && Final(q, wh, es).written == p.written
      {
        FailedSendBlocks(q, wh, es);
      }
    }
  }

  lemma {:induction false} ProceedNow(p: Pipe, wh: seq<uint16>)
    requires Consistent(p, wh) && p.blocked && p.sem == 1
    ensures Possible(p, wh, [Proceed]) && Timeouts([Proceed]) == 0 && !Final(p, wh, [Proceed]).blocked
    ensures CanProceed(p, wh)
  {
    FinalFirst(p, wh, [Proceed]);
  }

  lemma {:induction false} ProceedAfterReport(p: Pipe, wh: seq<uint16>)
    requires Consistent(p, wh) && p.blocked && p.outstanding != []
    ensures CanProceed(p, wh)
  {
    var es := [Report(0), Proceed];
    NextKeepsConsistent(p, wh, es[0]);
    ReportKeepsConsistent(p, wh, 0);
    ProceedNow(Next(p, wh, es[0]), wh);
    assert es[1..] == [Proceed];
    FinalFirst(p, wh, es);
  }

  /** The stall is reached from rest: an unknown control command is published and taken. */
  lemma {:induction false} StallReached(wh: seq<uint16>, c: Cmd)
    requires Consistent(INITIAL, wh) && c.Valid() && c.cmdType == CONTROL_TYPE && !IsControl(c)
    ensures var es := [Publish(c, false), Take(false, 0)];
            && Possible(INITIAL, wh, es) && Final(INITIAL, wh, es).blocked
            && !CanProceed(Final(INITIAL, wh, es), wh)
  {
    var es := [Publish(c, false), Take(false, 0)];
    assert es[1..] == [Take(false, 0)];
    NextKeepsConsistent(INITIAL, wh, es[0]);
    var p := Next(INITIAL, wh, es[0]);
    assert p.queue == [c];
    FinalFirst(p, wh, [Take(false, 0)]);
    FinalFirst(INITIAL, wh, es);
    UnsendableStalls(p, wh, false, 0);
  }

  lemma {:induction false} WritesOfFrames(cs: seq<Cmd>, kind: uint32, wires: seq<seq<byte>>)
    requires OnWire(cs, kind, wires) && kind < GP_CNTRL_HANDLE_END
    ensures |Writes(cs)| == |wires| && forall i | 0 <= i < |wires| :: Writes(cs)[i] == Write(kind, wires[i])
  {
    if cs != [] {
      WritesOfFrames(cs[1..], kind, wires[1..]);
    }
  }

  /** A cut-up buffer on its way to the camera: in every successful run that publishes its frames, what has been
      written is a prefix of them, unchanged and in order, and all of them once the queue is empty. */
  lemma {:induction false} FramesAreWritten(wh: seq<uint16>, es: seq<Event>, kind: uint32, wires: seq<seq<byte>>)
    requires Consistent(INITIAL, wh) && Possible(INITIAL, wh, es) && AllSucceed(INITIAL, wh, es)
    requires OnWire(Published(es), kind, wires) && kind < GP_CNTRL_HANDLE_END
    ensures var q := Final(INITIAL, wh, es);
            && |q.written| <= |wires| && (q.queue == [] ==> |q.written| == |wires|)
            && forall i | 0 <= i < |q.written| :: q.written[i] == Write(kind, wires[i])
  {
    WrittenInOrder(INITIAL, wh, es);
    WritesOfFrames(Published(es), kind, wires);
    var q := Final(INITIAL, wh, es);
    assert q.written + Writes(q.queue) == Writes(Published(es));
    PrefixOf(q.written, Writes(q.queue), Writes(Published(es)));
  }

  lemma PrefixOf(a: seq<Write>, b: seq<Write>, all: seq<Write>)
    requires a + b == all
    ensures |a| <= |all| && (b == [] ==> |a| == |all|) && forall i | 0 <= i < |a| :: a[i] == all[i]
  {
    assert forall i | 0 <= i < |a| :: a[i] == (a + b)[i];
  }
}
