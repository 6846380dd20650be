/** The GATT discovery procedure as a state machine over its steps (src/nrf_hal/gatt_dm.c). */
module Discovery {
  import opened Bytes
  import opened Uuids

  const MAX_ATTRS := 35  // CONFIG_BT_GATT_DM_MAX_ATTRS

  datatype AttrValue =
    | NoValue
    | ServiceVal(service: Uuid, end: uint16)
    | ChrcVal(chrc: Uuid, valueHandle: uint16, properties: byte)

  /** An attribute as the peer reports it, or as the table keeps it. */
  datatype Attr = Attr(handle: uint16, perm: byte, uuid: Uuid, value: AttrValue)

  datatype Errno = EINVAL | EALREADY | ENOMEM | ESRCH | EFAULT | Host(code: int)

  /** What the manager lets the outside see: results of its calls and terminal callbacks. */
  datatype Output = Ok | Refused(why: Errno) | Completed | NotFound | Failed(err: Errno)

  datatype Phase = Idle | Searching | Attributes | Characteristics | Complete | Crashed

  /** What a running discovery waits for. */
  datatype Awaits = Nothing | WorkItem | Response

  datatype Dm = Dm(phase: Phase, awaits: Awaits, table: seq<Attr>,
                   startHandle: uint16, endHandle: uint16,
                   uuid: Option<Uuid>,    // of the current request
                   target: Option<Uuid>,  // of the service looked for
                   started: bool)

  datatype Event =
    | Start(svc: Option<Uuid>, hasCallbacks: bool, host: int)
    | Continue(host: int)
    | Release
    | RunWork(host: int)
    | Found(attr: Attr, room: bool, roomForUuid: bool)
    | Finished
    | ForeignConnection

  /** The outcome of one step. `host` is the Bluetooth host's answer to a request, 0 for success; `room` and
      `roomForUuid` are the answers of the chunk allocator. */
  datatype Result = Result(dm: Dm, outputs: seq<Output>)

  predicate Running(s: Dm) {
    s.phase in {Searching, Attributes, Characteristics}
  }

  // ---- the steps ----

  function Ended(s: Dm, output: Output): Result {
    Result(s.(phase := Idle, awaits := Nothing, table := []), [output])
  }

  function StepStart(s: Dm, svc: Option<Uuid>, hasCallbacks: bool, host: int): Result {
    if (svc.Some? && svc.value.Uuid32?) || !hasCallbacks then Result(s, [Refused(EINVAL)])
    else if s.phase != Idle then Result(s, [Refused(EALREADY)])
    else
      var ready := Dm(Idle, Nothing, [], 1, 0xFFFF, svc, svc, true);
      if host == 0 then Result(ready.(phase := Searching, awaits := Response), [Ok])
      else Result(ready, [Refused(Host(host))])
  }

  function StepContinue(s: Dm, host: int): Result {
    if !s.started || s.uuid.Some? then Result(s, [Refused(EINVAL)])
    else if s.phase != Idle then Result(s, [Refused(EALREADY)])
    else if s.endHandle == 0xFFFF then Result(Ended(s, NotFound).dm, [NotFound, Ok])
    else
      var ready := s.(startHandle := s.endHandle + 1, endHandle := 0xFFFF, uuid := s.target);
      if host == 0 then Result(ready.(phase := Searching, awaits := Response), [Ok])
      else Result(Ended(ready, Ok).dm, [Failed(Host(host)), Refused(Host(host))])
  }

  function StepRelease(s: Dm): Result {
    if s.phase == Complete then Ended(s, Ok) else Result(s, [Refused(EALREADY)])
  }

  function StepWork(s: Dm, host: int): Result {
    if host == 0 then Result(s.(awaits := Response), []) else Ended(s, Failed(ENOMEM))
  }

  function Finish(s: Dm): Result {
    Result(s.(phase := Complete, awaits := Nothing), [Completed])
  }

  function Crash(s: Dm): Result {
    Result(s.(phase := Crashed, awaits := Nothing), [])
  }

  /** A service found is in the table: either it is empty, or its attributes are asked for next. */
  function Visit(s: Dm, a: Attr): Result
    requires a.value.ServiceVal?
  {
    var next := s.(endHandle := a.value.end);
    if a.handle == a.value.end then Finish(next)
    else Result(next.(uuid := None, phase := Attributes, awaits := WorkItem,
                      startHandle := (a.handle + 1) % 0x1_0000), [])
  }

  function StepService(s: Dm, a: Attr, room: bool, roomForUuid: bool): Result
    requires a.value.ServiceVal?
  {
    if |s.table| >= MAX_ATTRS || !room || !roomForUuid then Ended(s, Failed(ENOMEM))
    else Visit(s.(table := s.table + [a]), a)
  }

  /** The value slot a stored attribute starts with: a characteristic's refers to its own UUID until its value is
      reported. */
  function FirstValue(u: Uuid): AttrValue {
    if SameUuid(u, CHRC) then ChrcVal(u, 0, 0) else NoValue
  }

  /** A characteristic declaration that cannot be stored is dereferenced before it is checked. */
  function StepAttribute(s: Dm, a: Attr, room: bool): Result {
    if |s.table| < MAX_ATTRS && room then
      Result(s.(table := s.table + [Attr(a.handle, a.perm, a.uuid, FirstValue(a.uuid))]), [])
    else if SameUuid(a.uuid, CHRC) then Crash(s)
    else Ended(s, Failed(ENOMEM))
  }

  function StepCharacteristic(s: Dm, a: Attr, roomForUuid: bool): Result {
    SetCharacteristic(s, Search(s.table, a.handle, 0, |s.table| - 1), a, roomForUuid)
  }

  /** The value reported for the entry with index `i`, -1 when there is none. */
  function SetCharacteristic(s: Dm, i: int, a: Attr, roomForUuid: bool): Result
    requires -1 <= i < |s.table|
  {
    if i == -1 then Ended(s, Failed(ESRCH))
    else if !SameUuid(s.table[i].uuid, CHRC) then Crash(s)
    else if !roomForUuid then Ended(s, Failed(ENOMEM))
    else Result(s.(table := s.table[i := s.table[i].(value := a.value)]), [])
  }

  function StepFinished(s: Dm): Result {
    match s.phase
    case Searching => Ended(s, NotFound)
    case Attributes =>
      if |s.table| > 1 then
        Result(s.(phase := Characteristics, awaits := WorkItem, startHandle := (s.table[0].handle + 1) % 0x1_0000), [])
      else Finish(s)
    case _ => Finish(s)
  }

  /** Binary search for a handle in table[lower..upper], both ends included; -1 when it is not found. */
  function Search(table: seq<Attr>, handle: uint16, lower: int, upper: int): (i: int)
    requires 0 <= lower <= upper + 1 <= |table|
    ensures i == -1 || (lower <= i <= upper && table[i].handle == handle)
    decreases upper - lower + 1
  {
    if upper < lower then -1
    else
      var m := (lower + upper) / 2;
      if table[m].handle < handle then Search(table, handle, m + 1, upper)
      else if table[m].handle > handle then Search(table, handle, lower, m - 1)
      else m
  }

  /** The environment: the work item runs when it is queued, the host calls back while a request is outstanding,
      with the kind of attribute that was asked for; after a crash nothing runs. */
  predicate Enabled(s: Dm, e: Event) {
    s.phase != Crashed &&
    match e
    case RunWork(_) => s.awaits == WorkItem
    case Found(a, _, _) =>
      && s.awaits == Response
      && (s.phase == Searching ==> IsService(a.uuid) && a.value.ServiceVal?)
      && (s.phase == Characteristics ==> SameUuid(a.uuid, CHRC) && a.value.ChrcVal?)
    case Finished => s.awaits == Response
    case ForeignConnection => s.awaits == Response
    case _ => true
  }

  function Step(s: Dm, e: Event): Result
    requires Enabled(s, e)
  {
    match e
    case Start(svc, hasCallbacks, host) => StepStart(s, svc, hasCallbacks, host)
    case Continue(host) => StepContinue(s, host)
    case Release => StepRelease(s)
    case RunWork(host) => StepWork(s, host)
    case Found(a, room, roomForUuid) =>
      if s.phase == Searching then StepService(s, a, room, roomForUuid)
      else if s.phase == Attributes then StepAttribute(s, a, room)
      else StepCharacteristic(s, a, roomForUuid)
    case Finished => StepFinished(s)
    case ForeignConnection => Ended(s, Failed(EFAULT))
  }

  const INITIAL := Dm(Idle, Nothing, [], 0, 0, None, None, false)

  // ---- runs ----

  ghost predicate Possible(s: Dm, es: seq<Event>)
    decreases |es|
  {
    es != [] ==> Enabled(s, es[0]) && Possible(Step(s, es[0]).dm, es[1..])
  }

  ghost function Final(s: Dm, es: seq<Event>): Dm
    requires Possible(s, es)
    decreases |es|
  {
    if es == [] then s else Final(Step(s, es[0]).dm, es[1..])
  }

  /** What every step keeps. */
  ghost predicate WellFormed(s: Dm) {
    && (s.awaits != Nothing <==> Running(s))
    && (s.awaits == WorkItem ==> s.phase != Searching)
    && (s.phase in {Idle, Searching} ==> s.table == [])
    && (s.phase in {Attributes, Characteristics, Complete} ==>
          && s.table != [] && IsService(s.table[0].uuid)
          && s.table[0].value.ServiceVal? && s.table[0].value.end == s.endHandle)
    && |s.table| <= MAX_ATTRS
    && (forall i | 1 <= i < |s.table| :: SameUuid(s.table[i].uuid, CHRC) ==> s.table[i].value.ChrcVal?)
    && (s.phase != Idle ==> s.started)
    && (s.phase == Searching ==> s.uuid == s.target)
    && (s.phase in {Attributes, Characteristics} ==> s.uuid == None && s.table[0].handle != s.endHandle)
    && (s.phase == Complete ==> s.uuid == if s.table[0].handle == s.endHandle then s.target else None)
    && (s.phase == Crashed ==> s.table != [])
  }

  lemma StepKeepsWellFormed(s: Dm, e: Event)
    requires WellFormed(s) && Enabled(s, e)
    ensures WellFormed(Step(s, e).dm)
  {
  }
}
