/** Properties of every run of the discovery procedure. */
module DiscoveryRuns {
  import opened Bytes
  import opened Uuids
  import opened Discovery
  import opened Sequences

  lemma {:induction false} RunKeepsWellFormed(s: Dm, es: seq<Event>)
    requires WellFormed(s) && Possible(s, es)
    ensures WellFormed(Final(s, es))
    decreases |es|
  {
    if es != [] {
      StepKeepsWellFormed(s, es[0]);
      RunKeepsWellFormed(Step(s, es[0]).dm, es[1..]);
    }
  }

  lemma {:induction false} RunsJoin(s: Dm, es: seq<Event>, fs: seq<Event>)
    requires Possible(s, es) && Possible(Final(s, es), fs)
    ensures Possible(s, es + fs) && Final(s, es + fs) == Final(Final(s, es), fs)
    decreases |es|
  {
    if es == [] {
      assert es + fs == fs;
    } else {
      RunsJoin(Step(s, es[0]).dm, es[1..], fs);
      assert (es + fs)[1..] == es[1..] + fs;
    }
  }

  /** The steps of a run, one by one: a run of `es` reaches `t` if its first step reaches a state from which the rest
      does. */
  lemma {:induction false} RunStarts(s: Dm, e: Event, es: seq<Event>)
    requires Enabled(s, e) && Possible(Step(s, e).dm, es)
    ensures Possible(s, [e] + es) && Final(s, [e] + es) == Final(Step(s, e).dm, es)
  {
    assert ([e] + es)[1..] == es;
  }

  // ---- terminal callbacks ----

  /** A start that returns 0, or a continue that gets past its guards. */
  ghost predicate Accepts(s: Dm, e: Event)
    requires Enabled(s, e)
  {
    match e
    case Start(_, _, _) => Step(s, e).outputs == [Ok]
    case Continue(_) => s.started && s.uuid.None? && s.phase == Idle
    case _ => false
  }

  ghost function AcceptedIn(s: Dm, es: seq<Event>): nat
    requires Possible(s, es)
    decreases |es|
  {
    if es == [] then 0 else (if Accepts(s, es[0]) then 1 else 0) + AcceptedIn(Step(s, es[0]).dm, es[1..])
  }

  predicate IsTerminal(o: Output) {
    o.Completed? || o.NotFound? || o.Failed?
  }

  ghost function TerminalsOf(outputs: seq<Output>): nat {
    if outputs == [] then 0 else (if IsTerminal(outputs[0]) then 1 else 0) + TerminalsOf(outputs[1..])
  }

  ghost function TerminalsIn(s: Dm, es: seq<Event>): nat
    requires Possible(s, es)
    decreases |es|
  {
    if es == [] then 0 else TerminalsOf(Step(s, es[0]).outputs) + TerminalsIn(Step(s, es[0]).dm, es[1..])
  }

  /** A discovery that has not called back yet. */
  ghost function Open(s: Dm): nat {
    if Running(s) || s.phase == Crashed then 1 else 0
  }

  lemma CountFew(outputs: seq<Output>)
    ensures |outputs| <= 2 ==>
              TerminalsOf(outputs) == (if |outputs| > 0 && IsTerminal(outputs[0]) then 1 else 0)
                                      + (if |outputs| > 1 && IsTerminal(outputs[1]) then 1 else 0)
  {
    if |outputs| == 2 {
      assert outputs[1..] == [outputs[1]] && outputs[1..][1..] == [];
    }
  }

  lemma {:induction false} StepBalance(s: Dm, e: Event)
    requires WellFormed(s) && Enabled(s, e)
    ensures TerminalsOf(Step(s, e).outputs) + Open(Step(s, e).dm) == Open(s) + (if Accepts(s, e) then 1 else 0)
  {
    CountFew(Step(s, e).outputs);
    if e.Found? {
      FoundBalance(s, e);
    }
  }

  /** A report ends the discovery, or leaves it open. */
  lemma {:induction false} FoundBalance(s: Dm, e: Event)
    requires WellFormed(s) && Enabled(s, e) && e.Found?
    ensures var r := Step(s, e);
            && Open(s) == 1 && |r.outputs| <= 1
            && (r.outputs == [] ==> Open(r.dm) == 1)
            && (r.outputs != [] ==> IsTerminal(r.outputs[0]) && Open(r.dm) == 0)
  {
  }

  /** Every accepted start or continue makes exactly one terminal callback once its discovery has ended, and none
      before: at any point of any run the two counts differ by the one discovery that may still be open. */
  lemma {:induction false} OneTerminalPerDiscovery(s: Dm, es: seq<Event>)
    requires WellFormed(s) && Possible(s, es)
    ensures AcceptedIn(s, es) + Open(s) == TerminalsIn(s, es) + Open(Final(s, es))
    decreases |es|
  {
    if es != [] {
      StepBalance(s, es[0]);
      StepKeepsWellFormed(s, es[0]);
      OneTerminalPerDiscovery(Step(s, es[0]).dm, es[1..]);
    }
  }

  /** When an attribute cannot be stored the discovery reports an error, except for a characteristic declaration,
      which is dereferenced first and takes the system down. */
  lemma OutOfSpace(s: Dm, a: Attr, room: bool, roomForUuid: bool)
    requires WellFormed(s) && s.phase == Attributes && s.awaits == Response
    requires |s.table| == MAX_ATTRS || !room
    ensures var r := Step(s, Found(a, room, roomForUuid));
            && (r.outputs == [Failed(ENOMEM)] && r.dm.phase == Idle && r.dm.table == [] <==> !SameUuid(a.uuid, CHRC))
            && (r.dm.phase == Crashed <==> SameUuid(a.uuid, CHRC))
  {
  }

  // ---- the attribute table ----

  ghost predicate Sorted(table: seq<Attr>) {
    forall i, j | 0 <= i < j < |table| :: table[i].handle < table[j].handle
  }

  /** The peer reports attributes in ascending handle order, behind the service they belong to. */
  ghost predicate PeerAscends(s: Dm, es: seq<Event>)
    requires Possible(s, es)
    decreases |es|
  {
    es != [] ==>
      && (es[0].Found? && s.phase == Attributes && s.table != [] ==>
            s.table[|s.table| - 1].handle < es[0].attr.handle)
      && PeerAscends(Step(s, es[0]).dm, es[1..])
  }

  lemma {:induction false} TableStaysSorted(s: Dm, es: seq<Event>)
    requires WellFormed(s) && Possible(s, es) && PeerAscends(s, es) && Sorted(s.table)
    ensures Sorted(Final(s, es).table)
    decreases |es|
  {
    if es != [] {
      StepKeepsWellFormed(s, es[0]);
      StepKeepsSorted(s, es[0]);
      TableStaysSorted(Step(s, es[0]).dm, es[1..]);
    }
  }

  lemma {:induction false} StepKeepsSorted(s: Dm, e: Event)
    requires WellFormed(s) && Enabled(s, e) && Sorted(s.table)
    requires e.Found? && s.phase == Attributes && s.table != [] ==> s.table[|s.table| - 1].handle < e.attr.handle
    ensures Sorted(Step(s, e).dm.table)
  {
  }

  /** In a sorted table the binary search finds what a linear scan finds. */
  lemma {:induction false} SearchIsScan(table: seq<Attr>, handle: uint16, lower: int, upper: int)
    requires Sorted(table) && 0 <= lower <= upper + 1 <= |table|
    ensures Search(table, handle, lower, upper) == -1 <==>
            forall i | lower <= i <= upper :: table[i].handle != handle
    decreases upper - lower + 1
  {
    if lower <= upper {
      var m := (lower + upper) / 2;
      if table[m].handle < handle {
        SearchIsScan(table, handle, m + 1, upper);
        forall i | lower <= i <= m
          ensures table[i].handle != handle
        {
          assert i < m ==> table[i].handle < table[m].handle;
        }
      } else if table[m].handle > handle {
        SearchIsScan(table, handle, lower, m - 1);
        forall i | m <= i <= upper
          ensures table[i].handle != handle
        {
          assert m < i ==> table[m].handle < table[i].handle;
        }
      }
    }
  }

  /** The value last reported for a handle, if any. */
  ghost function LastReport(es: seq<Event>, handle: uint16): Option<AttrValue> {
    if es == [] then None
    else if LastReport(es[1..], handle).Some? then LastReport(es[1..], handle)
    else if es[0].Found? && es[0].attr.handle == handle then Some(es[0].attr.value)
    else None
  }

  /** The table with every entry holding the value last reported for its handle. */
  ghost function Reported(table: seq<Attr>, es: seq<Event>): (r: seq<Attr>)
    ensures |r| == |table|
    ensures forall i | 0 <= i < |r| :: r[i] == match LastReport(es, table[i].handle)
                                               case Some(v) => table[i].(value := v)
                                               case None => table[i]
  {
    seq(|table|, i requires 0 <= i < |table| => match LastReport(es, table[i].handle)
                                                case Some(v) => table[i].(value := v)
                                                case None => table[i])
  }

  /** Third phase: whatever is reported and whatever refused calls come between, if the discovery gets as far as
      completion, every entry holds the value last reported for its own handle, and everything else is as it was. */
  lemma {:induction false} CompletionHoldsReports(s: Dm, es: seq<Event>)
    requires s.phase == Characteristics && s.awaits != Nothing && Sorted(s.table)
    requires Possible(s, es) && AcceptedIn(s, es) == 0 && Enabled(Final(s, es), Finished)
    ensures Step(Final(s, es), Finished) ==
            Result(s.(table := Reported(s.table, es), phase := Complete, awaits := Nothing), [Completed])
    decreases |es|
  {
    if es == [] {
      assert Reported(s.table, es) == s.table;
    } else {
      var t := Step(s, es[0]).dm;
      StillAwaits(t, es[1..]);
      ThirdPhaseStep(s, es[0]);
      CompletionHoldsReports(t, es[1..]);
      assert Reported(t.table, es[1..]) == Reported(s.table, es);
    }
  }

  /** What has ended stays so until a call is accepted. */
  lemma {:induction false} StillAwaits(t: Dm, rest: seq<Event>)
    requires Possible(t, rest) && AcceptedIn(t, rest) == 0 && Enabled(Final(t, rest), Finished)
    ensures t.awaits != Nothing
    decreases |rest|
  {
    if rest != [] {
      StillAwaits(Step(t, rest[0]).dm, rest[1..]);
    }
  }

  /** One event: as long as the phase goes on, only a report changes anything, the value of the entry with its
      handle. */
  lemma ThirdPhaseStep(s: Dm, e: Event)
    requires s.phase == Characteristics && s.awaits != Nothing && Sorted(s.table)
    requires Enabled(s, e) && Step(s, e).dm.awaits != Nothing
    ensures var t := Step(s, e).dm;
            && t == s.(table := t.table, awaits := t.awaits) && (s.awaits == Response ==> t.awaits == Response)
            && |t.table| == |s.table|
            && forall k | 0 <= k < |s.table| ::
                 t.table[k] == if e.Found? && s.table[k].handle == e.attr.handle
                               then s.table[k].(value := e.attr.value) else s.table[k]
  {
    if e.Found? {
      OnlyEntry(s.table, Search(s.table, e.attr.handle, 0, |s.table| - 1));
    }
  }

  lemma OnlyEntry(table: seq<Attr>, i: nat)
    requires Sorted(table) && i < |table|
    ensures forall k | 0 <= k < |table| && k != i :: table[k].handle != table[i].handle
  {
    assert forall k | 0 <= k < i :: table[k].handle < table[i].handle;
    assert forall k | i < k < |table| :: table[i].handle < table[k].handle;
  }

  // ---- what is asked for ----

  /** The requests of the second and third phase are for the handles behind the service declaration, up to the end of
      the service. */
  ghost predicate AsksForService(s: Dm) {
    s.phase in {Attributes, Characteristics} ==>
      s.table != [] && s.table[0].value.ServiceVal?
      && s.startHandle == (s.table[0].handle + 1) % 0x1_0000 && s.endHandle == s.table[0].value.end
  }

  lemma {:induction false} AsksStep(s: Dm, e: Event)
    requires WellFormed(s) && AsksForService(s) && Enabled(s, e)
    ensures AsksForService(Step(s, e).dm)
  {
    StepKeepsWellFormed(s, e);
  }

  lemma {:induction false} AskedForService(s: Dm, es: seq<Event>)
    requires WellFormed(s) && AsksForService(s) && Possible(s, es)
    ensures AsksForService(Final(s, es))
    decreases |es|
  {
    if es != [] {
      AsksStep(s, es[0]);
      StepKeepsWellFormed(s, es[0]);
      AskedForService(Step(s, es[0]).dm, es[1..]);
    }
  }

  /** Over every run from power-up: an attribute in the range asked for in the second or third phase belongs to the
      service in the table, and every attribute of that service is in the range. */
  lemma {:induction false} RangeIsService(es: seq<Event>, handle: uint16)
    requires Possible(INITIAL, es) && Final(INITIAL, es).phase in {Attributes, Characteristics}
    requires var t := Final(INITIAL, es).table; t != [] && t[0].value.ServiceVal? && t[0].handle < t[0].value.end
    ensures var s := Final(INITIAL, es);
            s.startHandle <= handle <= s.endHandle <==> s.table[0].handle < handle <= s.table[0].value.end
  {
    AskedForService(INITIAL, es);
  }

  /** What a run looks for: the service named by the last start that got past its guards, and the end of the last
      service stored since then, 0 if there is none. */
  ghost function Sought(s: Dm, es: seq<Event>, target: Option<Uuid>, behind: uint16): (Option<Uuid>, uint16)
    requires Possible(s, es)
    decreases |es|
  {
    if es == [] then (target, behind)
    else
      var t := Step(s, es[0]).dm;
      match es[0]
      case Start(svc, hasCallbacks, _) =>
        if s.phase == Idle && hasCallbacks && !(svc.Some? && svc.value.Uuid32?) then Sought(t, es[1..], svc, 0)
        else Sought(t, es[1..], target, behind)
      case Found(a, room, roomForUuid) =>
        if s.phase == Searching && room && roomForUuid then Sought(t, es[1..], target, a.value.end)
        else Sought(t, es[1..], target, behind)
      case _ => Sought(t, es[1..], target, behind)
  }

  ghost predicate Seeks(s: Dm, target: Option<Uuid>, behind: uint16) {
    && WellFormed(s) && s.target == target
    && (if s.phase == Searching then s.startHandle == behind + 1 && s.endHandle == 0xFFFF
        else s.endHandle == behind || s.endHandle == 0xFFFF)
  }

  lemma {:induction false} SeeksStep(s: Dm, e: Event, target: Option<Uuid>, behind: uint16)
    requires Seeks(s, target, behind) && Enabled(s, e)
    ensures var (next, end) := Sought(s, [e], target, behind); Seeks(Step(s, e).dm, next, end)
  {
    StepKeepsWellFormed(s, e);
    assert [e][1..] == [];
  }

  lemma {:induction false} SeeksAlong(s: Dm, es: seq<Event>, target: Option<Uuid>, behind: uint16)
    requires Seeks(s, target, behind) && Possible(s, es)
    ensures var (next, end) := Sought(s, es, target, behind); Seeks(Final(s, es), next, end)
    decreases |es|
  {
    if es != [] {
      SeeksStep(s, es[0], target, behind);
      assert [es[0]][1..] == [];
      var (next, end) := Sought(s, [es[0]], target, behind);
      SeeksAlong(Step(s, es[0]).dm, es[1..], next, end);
    }
  }

  /** Over every run from power-up: a search is for the service named by the last start, and from the first handle
      behind the last service found up to the last handle there is, so that a walk skips nothing. */
  lemma {:induction false} SearchSkipsNothing(es: seq<Event>)
    requires Possible(INITIAL, es) && Final(INITIAL, es).phase == Searching
    ensures var s, (target, behind) := Final(INITIAL, es), Sought(INITIAL, es, None, 0);
            s.uuid == target && s.startHandle == behind + 1 && s.endHandle == 0xFFFF
  {
    SeeksAlong(INITIAL, es, None, 0);
  }

  // ---- which calls are refused ----

  ghost function Completions(outputs: seq<Output>): nat {
    if outputs == [] then 0 else (if outputs[0] == Completed then 1 else 0) + Completions(outputs[1..])
  }

  ghost function CompletedIn(s: Dm, es: seq<Event>): nat
    requires Possible(s, es)
    decreases |es|
  {
    if es == [] then 0 else Completions(Step(s, es[0]).outputs) + CompletedIn(Step(s, es[0]).dm, es[1..])
  }

  /** Calls of bt_gatt_dm_data_release that return 0. */
  ghost function ReleasedIn(s: Dm, es: seq<Event>): nat
    requires Possible(s, es)
    decreases |es|
  {
    if es == [] then 0
    else
      (if es[0].Release? && Step(s, es[0]).outputs == [Ok] then 1 else 0) + ReleasedIn(Step(s, es[0]).dm, es[1..])
  }

  ghost function Unreleased(s: Dm): nat {
    if s.phase == Complete then 1 else 0
  }

  lemma CompletionsFew(outputs: seq<Output>)
    ensures |outputs| <= 2 ==>
              Completions(outputs) == (if |outputs| > 0 && outputs[0] == Completed then 1 else 0)
                                      + (if |outputs| > 1 && outputs[1] == Completed then 1 else 0)
  {
    if |outputs| == 2 {
      assert outputs[1..] == [outputs[1]] && outputs[1..][1..] == [];
    }
  }

  lemma {:induction false} FoundRelease(s: Dm, e: Event)
    requires WellFormed(s) && Enabled(s, e) && e.Found?
    ensures var r := Step(s, e);
            && Unreleased(s) == 0 && |r.outputs| <= 1
            && (r.outputs == [Completed] <==> Unreleased(r.dm) == 1)
  {
  }

  lemma {:induction false} ReleaseStep(s: Dm, e: Event)
    requires WellFormed(s) && Enabled(s, e)
    ensures Unreleased(s) + Completions(Step(s, e).outputs) ==
            Unreleased(Step(s, e).dm) + (if e.Release? && Step(s, e).outputs == [Ok] then 1 else 0)
  {
    CompletionsFew(Step(s, e).outputs);
    if e.Found? {
      FoundRelease(s, e);
    }
  }

  lemma {:induction false} ReleaseBalance(s: Dm, es: seq<Event>)
    requires WellFormed(s) && Possible(s, es)
    ensures Unreleased(s) + CompletedIn(s, es) == ReleasedIn(s, es) + Unreleased(Final(s, es))
    decreases |es|
  {
    if es != [] {
      ReleaseStep(s, es[0]);
      StepKeepsWellFormed(s, es[0]);
      ReleaseBalance(Step(s, es[0]).dm, es[1..]);
    }
  }

  /** Over every run from power-up, from what the application saw alone: start and continue find the manager busy as
      long as an accepted request has not called back or a completed one is not released, release succeeds exactly for
      the latter, and a refused call changes nothing. */
  lemma {:induction false} CallsAnswered(es: seq<Event>, svc: Option<Uuid>, hasCallbacks: bool, host: int)
    requires Possible(INITIAL, es) && Final(INITIAL, es).phase != Crashed
    ensures var s := Final(INITIAL, es);
            var busy := AcceptedIn(INITIAL, es) != TerminalsIn(INITIAL, es)
                        || CompletedIn(INITIAL, es) != ReleasedIn(INITIAL, es);
            var malformed := (svc.Some? && svc.value.Uuid32?) || !hasCallbacks;
            var start, again := Step(s, Start(svc, hasCallbacks, host)), Step(s, Continue(host));
            var release := Step(s, Release);
            && (start.outputs == [Refused(EINVAL)] <==> malformed)
            && (start.outputs == [Refused(EALREADY)] <==> !malformed && busy)
            && (start.outputs == [Ok] <==> !malformed && !busy && host == 0)
            && (start.outputs == [Refused(Host(host))] <==> !malformed && !busy && host != 0)
            && (again.outputs == [Refused(EALREADY)] <==> busy && s.uuid.None?)
            && (release.outputs == [Ok] <==> CompletedIn(INITIAL, es) != ReleasedIn(INITIAL, es))
            && (release.outputs == [Refused(EALREADY)] <==> CompletedIn(INITIAL, es) == ReleasedIn(INITIAL, es))
            && (malformed || busy ==> start.dm == s) && (busy ==> again.dm == s)
            && (CompletedIn(INITIAL, es) == ReleasedIn(INITIAL, es) ==> release.dm == s)
  {
    RunKeepsWellFormed(INITIAL, es);
    OneTerminalPerDiscovery(INITIAL, es);
    ReleaseBalance(INITIAL, es);
  }

  /** The same for continue, which also needs an earlier start, a cleared UUID, and handles left to search. */
  lemma {:induction false} ContinueAnswered(es: seq<Event>, host: int)
    requires Possible(INITIAL, es) && Final(INITIAL, es).phase != Crashed
    ensures var s := Final(INITIAL, es);
            var free := AcceptedIn(INITIAL, es) == TerminalsIn(INITIAL, es)
                        && CompletedIn(INITIAL, es) == ReleasedIn(INITIAL, es);
            var again := Step(s, Continue(host));
            && (again.outputs == [Refused(EINVAL)] <==> !s.started || s.uuid.Some?)
            && (again.outputs == [NotFound, Ok] <==> s.started && s.uuid.None? && free && s.endHandle == 0xFFFF)
            && (again.outputs == [Ok] <==>
                  s.started && s.uuid.None? && free && s.endHandle != 0xFFFF && host == 0)
            && (again.outputs == [Failed(Host(host)), Refused(Host(host))] <==>
                  s.started && s.uuid.None? && free && s.endHandle != 0xFFFF && host != 0)
  {
    RunKeepsWellFormed(INITIAL, es);
    OneTerminalPerDiscovery(INITIAL, es);
    ReleaseBalance(INITIAL, es);
  }

  /** A continue that the host turns down ends the walk for good: the next one is refused if a service was looked for by
      UUID, and finds nothing otherwise. */
  lemma {:induction false} FailedContinueEndsWalk(s: Dm, host: int, later: int)
    requires WellFormed(s) && s.phase == Idle
    requires Step(s, Continue(host)).outputs == [Failed(Host(host)), Refused(Host(host))]
    ensures var t := Step(s, Continue(host)).dm;
            && Enabled(t, Continue(later)) && t.phase == Idle
            && Step(t, Continue(later)).outputs == if s.target.Some? then [Refused(EINVAL)] else [NotFound, Ok]
  {
  }

  // ---- what the second phase stores ----

  /** The entry an attribute report leaves: handle, permissions and UUID, and for a characteristic declaration a value
      that holds no more than that UUID. */
  function Entry(a: Attr): Attr {
    a.(value := if SameUuid(a.uuid, CHRC) then ChrcVal(a.uuid, 0, 0) else NoValue)
  }

  /** The entries of all attribute reports among the events, in order. */
  ghost function Entries(es: seq<Event>): seq<Attr> {
    if es == [] then [] else (if es[0].Found? then [Entry(es[0].attr)] else []) + Entries(es[1..])
  }

  lemma {:induction false} StoredStep(s: Dm, e: Event)
    requires s.phase == Attributes && s.awaits != Nothing && Enabled(s, e) && Step(s, e).dm.phase == Attributes
    ensures Step(s, e).dm.table == s.table + if e.Found? then [Entry(e.attr)] else []
  {
    assert s.table + [] == s.table;
  }

  /** No way back to the second phase without an accepted call. */
  lemma {:induction false} StillAttributes(t: Dm, rest: seq<Event>)
    requires WellFormed(t) && t.phase != Searching
    requires Possible(t, rest) && AcceptedIn(t, rest) == 0 && Final(t, rest).phase == Attributes
    ensures t.phase == Attributes
    decreases |rest|
  {
    if rest != [] {
      StepKeepsWellFormed(t, rest[0]);
      StillAttributes(Step(t, rest[0]).dm, rest[1..]);
    }
  }

  /** Second phase: while it lasts, whatever refused calls come between, the table is what it was, followed by every
      report since then. */
  lemma {:induction false} AttributesAreStored(s: Dm, es: seq<Event>)
    requires WellFormed(s) && s.phase == Attributes
    requires Possible(s, es) && AcceptedIn(s, es) == 0 && Final(s, es).phase == Attributes
    ensures Final(s, es).table == s.table + Entries(es)
    decreases |es|
  {
    if es != [] {
      var t := Step(s, es[0]).dm;
      StepKeepsWellFormed(s, es[0]);
      StillAttributes(t, es[1..]);
      StoredStep(s, es[0]);
      AttributesAreStored(t, es[1..]);
      Associative(s.table, if es[0].Found? then [Entry(es[0].attr)] else [], Entries(es[1..]));
    } else {
      assert s.table + Entries(es) == s.table;
    }
  }

  lemma {:induction false} TakenStep(s: Dm, e: Event)
    requires s.phase == Attributes && s.awaits == Response && |s.table| < MAX_ATTRS && e.Found? && e.room
    ensures Enabled(s, e) && Step(s, e).dm == s.(table := s.table + [Entry(e.attr)])
  {
  }

  /** It does last as long as there is memory and the table has room. */
  lemma {:induction false} AttributesAreTaken(s: Dm, es: seq<Event>)
    requires s.phase == Attributes && s.awaits == Response && |s.table| + |es| <= MAX_ATTRS
    requires forall i | 0 <= i < |es| :: es[i].Found? && es[i].room
    ensures Possible(s, es) && Final(s, es) == s.(table := s.table + Entries(es))
    decreases |es|
  {
    if es != [] {
      TakenStep(s, es[0]);
      AttributesAreTaken(Step(s, es[0]).dm, es[1..]);
      Associative(s.table, [Entry(es[0].attr)], Entries(es[1..]));
    } else {
      assert s.table + Entries(es) == s.table;
    }
  }

  // ---- a whole discovery ----

  /** A run that finds `service`, reports the attributes `found` and then the characteristics `reports`, each phase up
      to the end of its request; calls that come between are refused. */
  ghost predicate WholeDiscovery(before: seq<Event>, service: Event, found: seq<Event>, reports: seq<Event>) {
    && Possible(INITIAL, before) && service.Found?
    && var searching := Final(INITIAL, before);
       && searching.phase == Searching && Enabled(searching, service)
       && var attributes := Step(searching, service).dm;
          && Possible(attributes, found) && AcceptedIn(attributes, found) == 0
          && Final(attributes, found).phase == Attributes && Enabled(Final(attributes, found), Finished)
          && var characteristics := Step(Final(attributes, found), Finished).dm;
             && characteristics.phase == Characteristics
             && Possible(characteristics, reports) && AcceptedIn(characteristics, reports) == 0
             && Enabled(Final(characteristics, reports), Finished)
  }

  function AllEvents(before: seq<Event>, service: Event, found: seq<Event>, reports: seq<Event>): seq<Event> {
    before + ([service] + (found + ([Finished] + (reports + [Finished]))))
  }

  lemma {:induction false} AllEventsRun(before: seq<Event>, service: Event, found: seq<Event>, reports: seq<Event>)
    requires WholeDiscovery(before, service, found, reports)
    ensures var all := AllEvents(before, service, found, reports);
            var attributes := Step(Final(INITIAL, before), service).dm;
            var characteristics := Step(Final(attributes, found), Finished).dm;
            && Possible(INITIAL, all)
            && Final(INITIAL, all) == Step(Final(characteristics, reports), Finished).dm
  {
    var searching := Final(INITIAL, before);
    var attributes := Step(searching, service).dm;
    var characteristics := Step(Final(attributes, found), Finished).dm;
    var last := [Finished];
    assert last[1..] == [];
    RunsJoin(characteristics, reports, last);
    RunStarts(Final(attributes, found), Finished, reports + last);
    RunsJoin(attributes, found, [Finished] + (reports + last));
    RunStarts(searching, service, found + ([Finished] + (reports + last)));
    RunsJoin(INITIAL, before, [service] + (found + ([Finished] + (reports + last))));
  }

  lemma {:induction false} ServiceIsFirst(s: Dm, service: Event, found: seq<Event>)
    requires WellFormed(s) && s.phase == Searching && Enabled(s, service) && service.Found?
    requires var t := Step(s, service).dm;
             Possible(t, found) && AcceptedIn(t, found) == 0 && Final(t, found).phase == Attributes
    ensures Step(s, service).dm.phase == Attributes && Step(s, service).dm.table == [service.attr]
  {
    StepKeepsWellFormed(s, service);
    StillAttributes(Step(s, service).dm, found);
    assert [] + [service.attr] == [service.attr];
  }

  /** From power-up: when the handles reported ascend, a discovery that completes leaves the service and the attributes
      reported for it, all of them, in order, each with the value last reported for its handle. */
  lemma {:induction false} CompletedTable(before: seq<Event>, service: Event, found: seq<Event>, reports: seq<Event>)
    requires WholeDiscovery(before, service, found, reports)
    requires Sorted([service.attr] + Entries(found))
    ensures var all := AllEvents(before, service, found, reports);
            && Possible(INITIAL, all)
            && var done := Final(INITIAL, all);
               && WellFormed(done) && done.phase == Complete
               && done.table == Reported([service.attr] + Entries(found), reports)
  {
    var searching := Final(INITIAL, before);
    var attributes := Step(searching, service).dm;
    RunKeepsWellFormed(INITIAL, before);
    StepKeepsWellFormed(searching, service);
    ServiceIsFirst(searching, service, found);
    AttributesAreStored(attributes, found);
    CompletionHoldsReports(Step(Final(attributes, found), Finished).dm, reports);
    AllEventsRun(before, service, found, reports);
    RunKeepsWellFormed(INITIAL, AllEvents(before, service, found, reports));
  }

  // ---- crashes ----

  /** Two steps dereference a null pointer: a characteristic declaration that cannot be stored, and the value of a
      characteristic reported for an entry that is not one. */
  ghost predicate Crashes(s: Dm, e: Event) {
    && e.Found?
    && ((s.phase == Attributes && SameUuid(e.attr.uuid, CHRC) && (|s.table| == MAX_ATTRS || !e.room))
        || (s.phase == Characteristics
            && exists i | 0 <= i < |s.table| ::
                 s.table[i].handle == e.attr.handle && !SameUuid(s.table[i].uuid, CHRC)))
  }

  ghost predicate CrashesIn(s: Dm, es: seq<Event>)
    requires Possible(s, es)
    decreases |es|
  {
    es != [] && (Crashes(s, es[0]) || CrashesIn(Step(s, es[0]).dm, es[1..]))
  }

  lemma {:induction false} CrashStep(s: Dm, e: Event)
    requires WellFormed(s) && Enabled(s, e) && Sorted(s.table)
    ensures Step(s, e).dm.phase == Crashed <==> Crashes(s, e)
  {
    if e.Found? && s.phase == Characteristics {
      CrashingReport(s, e);
    }
  }

  lemma {:induction false} CrashingReport(s: Dm, e: Event)
    requires Enabled(s, e) && e.Found? && s.phase == Characteristics && Sorted(s.table)
    ensures StepCharacteristic(s, e.attr, e.roomForUuid).dm.phase == Crashed <==> Crashes(s, e)
  {
    var i := Search(s.table, e.attr.handle, 0, |s.table| - 1);
    SearchIsScan(s.table, e.attr.handle, 0, |s.table| - 1);
    if i != -1 {
      OnlyEntry(s.table, i);
    }
  }

  /** With an ascending peer a run crashes if and only if it takes one of the two steps, and then a discovery that was
      accepted never calls back. */
  lemma {:induction false} CrashesExactly(s: Dm, es: seq<Event>)
    requires WellFormed(s) && s.phase != Crashed && Sorted(s.table) && Possible(s, es) && PeerAscends(s, es)
    ensures Final(s, es).phase == Crashed <==> CrashesIn(s, es)
    ensures CrashesIn(s, es) ==> AcceptedIn(s, es) + Open(s) == TerminalsIn(s, es) + 1
    decreases |es|
  {
    OneTerminalPerDiscovery(s, es);
    if es != [] {
      var t := Step(s, es[0]).dm;
      CrashStep(s, es[0]);
      StepKeepsWellFormed(s, es[0]);
      StepKeepsSorted(s, es[0]);
      if t.phase == Crashed {
        assert es[1..] == [];
      } else {
        CrashesExactly(t, es[1..]);
      }
    }
  }

  /** What a report leads to: an ending, or nothing to see. */
  lemma {:induction false} ReportsExplained(s: Dm, e: Event)
    requires WellFormed(s) && Enabled(s, e) && e.Found? && Sorted(s.table)
    ensures var out := Step(s, e).outputs;
            var known := exists i | 0 <= i < |s.table| :: s.table[i].handle == e.attr.handle;
            && (out == [Completed] <==>
                  s.phase == Searching && e.room && e.roomForUuid && e.attr.handle == e.attr.value.end)
            && (out == [Failed(ESRCH)] <==> s.phase == Characteristics && !known)
            && (out == [Failed(ENOMEM)] <==>
                  || (s.phase == Searching && !(e.room && e.roomForUuid))
                  || (s.phase == Attributes && (|s.table| == MAX_ATTRS || !e.room) && !SameUuid(e.attr.uuid, CHRC))
                  || (s.phase == Characteristics && known && !Crashes(s, e) && !e.roomForUuid))
            && (out == [] || out in {[Completed], [Failed(ESRCH)], [Failed(ENOMEM)]})
  {
    if s.phase == Characteristics {
      SearchIsScan(s.table, e.attr.handle, 0, |s.table| - 1);
      CrashingReport(s, e);
    }
  }

  /** The endings without a report. */
  lemma {:induction false} EndingsExplained(s: Dm, e: Event)
    requires WellFormed(s) && Enabled(s, e) && !e.Start? && !e.Continue? && !e.Release?
    ensures var out := Step(s, e).outputs;
            && (e.Finished? ==>
                  && (out == [NotFound] <==> s.phase == Searching)
                  && (out == [Completed] <==> s.phase == Characteristics || (s.phase == Attributes && |s.table| == 1))
                  && (out == [] <==> s.phase == Attributes && |s.table| > 1))
            && (e.RunWork? ==> out == if e.host != 0 then [Failed(ENOMEM)] else [])
            && (out == [Failed(EFAULT)] <==> e == ForeignConnection)
            && (out == [NotFound] ==> e.Finished?)
  {
  }

  /** A primary service `u` from handle 1 to `end`. */
  function Service(u: Uuid, end: uint16): Event {
    Found(Attr(1, 0, PRIMARY, ServiceVal(u, end)), true, true)
  }

  function SecondPhase(u: Uuid): Dm {
    Dm(Attributes, Response, [Service(u, 9).attr], 2, 9, None, None, true)
  }

  /** From power-up into the second phase, in a service of handles 1 to 9. */
  lemma {:induction false} SecondPhaseReached(u: Uuid, es: seq<Event>)
    requires Possible(SecondPhase(u), es)
    ensures var all := [Start(None, true, 0)] + ([Service(u, 9)] + ([RunWork(0)] + es));
            Possible(INITIAL, all) && Final(INITIAL, all) == Final(SecondPhase(u), es)
  {
    var s1 := Step(INITIAL, Start(None, true, 0)).dm;
    var s2 := Step(s1, Service(u, 9)).dm;
    assert s2.table == SecondPhase(u).table;
    RunStarts(s2, RunWork(0), es);
    RunStarts(s1, Service(u, 9), [RunWork(0)] + es);
    RunStarts(INITIAL, Start(None, true, 0), [Service(u, 9)] + ([RunWork(0)] + es));
  }

  lemma SecondIsFound(table: seq<Attr>)
    requires |table| == 2 && table[0].handle < table[1].handle
    ensures Search(table, table[1].handle, 0, 1) == 1
  {
    assert Search(table, table[1].handle, 1, 1) == 1;
  }

  /** The first crash is reached: memory runs out at a characteristic declaration. */
  lemma {:induction false} CrashWithoutRoom(u: Uuid)
    ensures var es := [Start(None, true, 0)] + ([Service(u, 9)] + ([RunWork(0)] +
                        [Found(Attr(2, 0, CHRC, NoValue), false, true)]));
            Possible(INITIAL, es) && Final(INITIAL, es).phase == Crashed
  {
    var found := Found(Attr(2, 0, CHRC, NoValue), false, true);
    RunStarts(SecondPhase(u), found, []);
    assert [found] + [] == [found];
    SecondPhaseReached(u, [found]);
  }

  /** From power-up into the third phase, with one attribute that is not a characteristic. */
  function ThirdPhase(u: Uuid, d: Uuid): Dm {
    Dm(Characteristics, Response, [Service(u, 9).attr, Attr(2, 0, d, NoValue)], 2, 9, None, None, true)
  }

  lemma {:induction false} ThirdPhaseReached(u: Uuid, d: Uuid, es: seq<Event>)
    requires !SameUuid(d, CHRC) && Possible(ThirdPhase(u, d), es)
    ensures var found := [Found(Attr(2, 0, d, NoValue), true, true)] + ([Finished] + ([RunWork(0)] + es));
            && Possible(SecondPhase(u), found)
            && Final(SecondPhase(u), found) == Final(ThirdPhase(u, d), es)
  {
    var found := Found(Attr(2, 0, d, NoValue), true, true);
    var s1 := Step(SecondPhase(u), found).dm;
    assert s1.table == ThirdPhase(u, d).table;
    var s2 := ThirdPhase(u, d).(awaits := WorkItem);
    assert s2 == Step(s1, Finished).dm;
    RunStarts(s2, RunWork(0), es);
    RunStarts(s1, Finished, [RunWork(0)] + es);
    RunStarts(SecondPhase(u), found, [Finished] + ([RunWork(0)] + es));
  }

  /** The second crash is reached: the third phase reports a handle that the second reported as a descriptor. */
  lemma {:induction false} CrashWithoutSlot(u: Uuid, d: Uuid)
    requires !SameUuid(d, CHRC)
    ensures var es := [Start(None, true, 0)] + ([Service(u, 9)] + ([RunWork(0)] +
                        ([Found(Attr(2, 0, d, NoValue), true, true)] + ([Finished] + ([RunWork(0)] +
                          [Found(Attr(2, 0, CHRC, ChrcVal(u, 3, 0)), true, true)])))));
            Possible(INITIAL, es) && Final(INITIAL, es).phase == Crashed
  {
    var report := Found(Attr(2, 0, CHRC, ChrcVal(u, 3, 0)), true, true);
    SecondIsFound(ThirdPhase(u, d).table);
    RunStarts(ThirdPhase(u, d), report, []);
    assert [report] + [] == [report];
    ThirdPhaseReached(u, d, [report]);
    SecondPhaseReached(u, [Found(Attr(2, 0, d, NoValue), true, true)] + ([Finished] + ([RunWork(0)] + [report])));
  }

  /** A second service declaration among the reported attributes is stored like any other, without a value. */
  lemma {:induction false} SecondServiceStored(u: Uuid)
    ensures var es := [Start(None, true, 0)] + ([Service(u, 9)] + ([RunWork(0)] +
                        [Found(Attr(2, 0, PRIMARY, ServiceVal(u, 9)), true, true)]));
            && Possible(INITIAL, es)
            && Final(INITIAL, es).table == [Service(u, 9).attr, Attr(2, 0, PRIMARY, NoValue)]
  {
    var found := Found(Attr(2, 0, PRIMARY, ServiceVal(u, 9)), true, true);
    RunStarts(SecondPhase(u), found, []);
    assert [found] + [] == [found];
    SecondPhaseReached(u, [found]);
  }

  // ---- reports that are taken ----

  ghost predicate Declared(table: seq<Attr>, c: Attr) {
    && SameUuid(c.uuid, CHRC) && c.value.ChrcVal?
    && exists i | 0 <= i < |table| :: table[i].handle == c.handle && SameUuid(table[i].uuid, CHRC)
  }

  lemma {:induction false} DeclaredIsFound(table: seq<Attr>, c: Attr)
    requires Sorted(table) && Declared(table, c)
    ensures var i := Search(table, c.handle, 0, |table| - 1);
            i != -1 && SameUuid(table[i].uuid, CHRC)
  {
    var k :| 0 <= k < |table| && table[k].handle == c.handle && SameUuid(table[k].uuid, CHRC);
    SearchIsScan(table, c.handle, 0, |table| - 1);
    OnlyEntry(table, k);
  }

  lemma DeclaredReportIsTaken(s: Dm, e: Event)
    requires s.phase == Characteristics && s.awaits == Response && Sorted(s.table)
    requires e.Found? && e.roomForUuid && Declared(s.table, e.attr)
    ensures Enabled(s, e) && Step(s, e).dm.awaits == Response
  {
    DeclaredIsFound(s.table, e.attr);
  }

  lemma StillDeclared(table: seq<Attr>, next: seq<Attr>, c: Attr)
    requires Declared(table, c) && |next| == |table|
    requires forall i | 0 <= i < |table| :: next[i].handle == table[i].handle && next[i].uuid == table[i].uuid
    ensures Declared(next, c)
  {
    var i :| 0 <= i < |table| && table[i].handle == c.handle && SameUuid(table[i].uuid, CHRC);
    assert next[i].handle == c.handle;
  }

  /** The third phase does get as far as completion when memory lasts and every reported characteristic was found in
      the second phase. */
  lemma {:induction false} DeclaredReportsAreTaken(s: Dm, es: seq<Event>)
    requires s.phase == Characteristics && s.awaits == Response && Sorted(s.table)
    requires forall i | 0 <= i < |es| :: es[i].Found? && es[i].roomForUuid && Declared(s.table, es[i].attr)
    ensures Possible(s, es) && Enabled(Final(s, es), Finished)
    decreases |es|
  {
    if es != [] {
      DeclaredReportIsTaken(s, es[0]);
      ThirdPhaseStep(s, es[0]);
      var t := Step(s, es[0]).dm;
      forall i | 0 <= i < |es[1..]|
        ensures Declared(t.table, es[1..][i].attr)
      {
        StillDeclared(s.table, t.table, es[i + 1].attr);
      }
      DeclaredReportsAreTaken(t, es[1..]);
    }
  }

  // ---- walking through the services ----

  /** Services are reported inside the range that was asked for. */
  ghost predicate PeerInRange(s: Dm, es: seq<Event>)
    requires Possible(s, es)
    decreases |es|
  {
    es != [] ==>
      && (es[0].Found? && s.phase == Searching ==>
            s.startHandle <= es[0].attr.handle <= es[0].attr.value.end <= s.endHandle)
      && PeerInRange(Step(s, es[0]).dm, es[1..])
  }

  /** A walk is a run without a new start. */
  ghost predicate Walk(es: seq<Event>) {
    forall i | 0 <= i < |es| :: !es[i].Start?
  }

  /** The services a run stores, with their handle ranges. */
  ghost function Visited(s: Dm, es: seq<Event>): seq<(uint16, uint16)>
    requires Possible(s, es)
    decreases |es|
  {
    if es == [] then []
    else
      (if es[0].Found? && s.phase == Searching && Step(s, es[0]).dm.table != []
       then [(es[0].attr.handle, es[0].attr.value.end)] else [])
      + Visited(Step(s, es[0]).dm, es[1..])
  }

  /** Continues that ask the peer for a further service. */
  ghost function Requests(s: Dm, es: seq<Event>): nat
    requires Possible(s, es)
    decreases |es|
  {
    if es == [] then 0
    else
      (if es[0].Continue? && Accepts(s, es[0]) && s.endHandle != 0xFFFF then 1 else 0)
      + Requests(Step(s, es[0]).dm, es[1..])
  }

  /** Handles up to here are behind the walk. */
  ghost function Floor(s: Dm): int {
    if s.phase == Searching then s.startHandle - 1 else s.endHandle
  }

  ghost predicate WalkState(s: Dm) {
    WellFormed(s) && (s.phase == Searching ==> s.startHandle > 0 && s.endHandle == 0xFFFF)
  }

  /** The range of one visited service lies behind `floor`, and the rest of the ranges behind it. */
  ghost predicate Ascending(floor: int, ranges: seq<(uint16, uint16)>) {
    && (forall i | 0 <= i < |ranges| :: floor < ranges[i].0 <= ranges[i].1)
    && (forall i, j | 0 <= i < j < |ranges| :: ranges[i].1 < ranges[j].0)
  }

  lemma {:induction false} WalkStep(s: Dm, e: Event)
    requires WalkState(s) && Enabled(s, e) && !e.Start?
    requires e.Found? && s.phase == Searching ==> s.startHandle <= e.attr.handle <= e.attr.value.end <= s.endHandle
    ensures var t := Step(s, e).dm;
            && WalkState(t) && Floor(s) <= Floor(t)
            && (e.Found? && s.phase == Searching && t.table != [] ==> Floor(t) == e.attr.value.end)
            && (s.phase == Searching && t.phase != Searching ==> Floor(s) < Floor(t))
            && (e.Continue? && Accepts(s, e) && s.endHandle != 0xFFFF && t.phase != Searching ==> Floor(s) < Floor(t))
  {
    StepKeepsWellFormed(s, e);
  }

  /** The walk: ranges of visited services are strictly ascending and disjoint, and each further request uses up
      at least one handle, so no walk makes more than 65535 of them; after that, continue answers not-found. */
  lemma {:induction false} WalkAscends(s: Dm, es: seq<Event>)
    requires WalkState(s) && Possible(s, es) && PeerInRange(s, es) && Walk(es)
    ensures Ascending(Floor(s), Visited(s, es))
    ensures Requests(s, es) + Floor(s) + (if s.phase == Searching then 1 else 0) <= 0xFFFF
    decreases |es|
  {
    if es != [] {
      WalkStep(s, es[0]);
      WalkAscends(Step(s, es[0]).dm, es[1..]);
    }
  }

  /** Continues that are answered with not-found at once. */
  ghost function NotFoundAnswers(s: Dm, es: seq<Event>): nat
    requires Possible(s, es)
    decreases |es|
  {
    if es == [] then 0
    else
      (if es[0].Continue? && Step(s, es[0]).outputs == [NotFound, Ok] then 1 else 0)
      + NotFoundAnswers(Step(s, es[0]).dm, es[1..])
  }

  lemma {:induction false} ContinuesSplit(s: Dm, es: seq<Event>)
    requires Possible(s, es) && Walk(es)
    ensures AcceptedIn(s, es) == Requests(s, es) + NotFoundAnswers(s, es)
    decreases |es|
  {
    if es != [] {
      ContinuesSplit(Step(s, es[0]).dm, es[1..]);
    }
  }

  /** Every walk ends: of its accepted continues all but one for each handle left are answered with not-found, so
      that of 65536 accepted ones at least one is. */
  lemma {:induction false} WalkEnds(s: Dm, es: seq<Event>)
    requires WalkState(s) && Possible(s, es) && PeerInRange(s, es) && Walk(es)
    ensures AcceptedIn(s, es) <= NotFoundAnswers(s, es) + 0xFFFF - Floor(s)
    ensures AcceptedIn(s, es) > 0xFFFF ==> NotFoundAnswers(s, es) > 0
  {
    WalkAscends(s, es);
    ContinuesSplit(s, es);
  }

  /** And it stays ended: at the end of the range nothing the application calls, short of a new start, makes a
      request or finds a service; the state never changes again and every accepted continue answers not-found. */
  lemma {:induction false} WalkStaysEnded(s: Dm, es: seq<Event>)
    requires WellFormed(s) && s.phase == Idle && s.endHandle == 0xFFFF && Possible(s, es) && Walk(es)
    ensures Final(s, es) == s && Visited(s, es) == [] && Requests(s, es) == 0
    ensures AcceptedIn(s, es) == NotFoundAnswers(s, es)
    decreases |es|
  {
    if es != [] {
      WalkStaysEnded(Step(s, es[0]).dm, es[1..]);
    }
  }

  /** The documentation lets continue look for the next instance of a service found by UUID. It does, unless the
      instance just completed is empty: then the UUID of the request is still set and continue is refused. */
  lemma ContinueAfterCompletion(s: Dm, es: seq<Event>, host: int)
    requires WellFormed(s) && Possible(s, es) && Final(s, es).phase == Complete
    ensures var done := Final(s, es); var released := Step(done, Release).dm;
            && WellFormed(done) && released.phase == Idle
            && (Step(released, Continue(host)).outputs == [Refused(EINVAL)] <==>
                  done.target.Some? && done.table[0].handle == done.table[0].value.end)
  {
    RunKeepsWellFormed(s, es);
  }

  /** The refused continue is reached: an empty service looked up by its UUID. */
  lemma {:induction false} ContinueRefused(v: uint16, u: Uuid, host: int)
    ensures var found := [Start(Some(Uuid16(v)), true, 0)] + ([Service(u, 1)] + [Release]);
            && Possible(INITIAL, found) && Final(INITIAL, found).phase == Idle
            && Step(Final(INITIAL, found), Continue(host)).outputs == [Refused(EINVAL)]
  {
    var s1 := Step(INITIAL, Start(Some(Uuid16(v)), true, 0)).dm;
    var s2 := Step(s1, Service(u, 1)).dm;
    RunStarts(s2, Release, []);
    assert [Release] + [] == [Release];
    RunStarts(s1, Service(u, 1), [Release]);
    RunStarts(INITIAL, Start(Some(Uuid16(v)), true, 0), [Service(u, 1)] + [Release]);
  }

  // ---- iterating over the table ----

  ghost predicate IsChar(table: seq<Attr>, i: int) {
    0 <= i < |table| && SameUuid(table[i].uuid, CHRC)
  }

  /** `r` is the first index behind `prev` that holds a characteristic declaration, -1 if there is none. */
  ghost predicate IsNextChar(table: seq<Attr>, prev: int, r: int) {
    if r == -1 then forall i | prev < i < |table| :: !IsChar(table, i)
    else prev < r && IsChar(table, r) && forall i | prev < i < r :: !IsChar(table, i)
  }

  /** A complete iteration: each visit is the next characteristic after the one before, and after the last there
      is none. It starts behind the service entry. */
  ghost predicate Iteration(table: seq<Attr>, prev: int, visits: seq<int>)
    decreases |visits|
  {
    if visits == [] then IsNextChar(table, prev, -1)
    else visits[0] != -1 && IsNextChar(table, prev, visits[0]) && Iteration(table, visits[0], visits[1..])
  }

  /** Iterating visits every characteristic behind `prev` exactly once, in table order. */
  lemma {:induction false} IterationVisitsAll(table: seq<Attr>, prev: int, visits: seq<int>)
    requires -1 <= prev && Iteration(table, prev, visits)
    ensures forall i, j | 0 <= i < j < |visits| :: visits[i] < visits[j]
    ensures forall v :: v in visits <==> prev < v && IsChar(table, v)
    decreases |visits|
  {
    if visits != [] {
      IterationVisitsAll(table, visits[0], visits[1..]);
      assert forall v :: v in visits <==> v == visits[0] || v in visits[1..];
    }
  }
}
