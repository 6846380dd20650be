/** The discovery manager instance, updated in place (src/nrf_hal/gatt_dm.c). */
module DiscoveryManager {
  import opened AttrMemory
  import opened Bytes
  import opened ChunkPool
  import opened Uuids
  import opened Discovery
  import opened DiscoveryRuns

  datatype DiscoverType = Primary | Attribute | Characteristic
  datatype IterResult = Stop | Go | NullDereference

  /** Release-pending implies locked, unlocked implies no live chunk, and something is awaited exactly while
      neither the result is out nor the lock is free. */
  ghost predicate Agree(locked: bool, releasePending: bool, crashed: bool, awaits: Awaits, chunks: seq<nat>) {
    && (releasePending ==> locked)
    && (!locked ==> chunks == [])
    && (crashed ==> locked && !releasePending)
    && (awaits != Nothing <==> locked && !releasePending && !crashed)
  }

  class Manager {
    var locked: bool
    var releasePending: bool
    const attrs: array<Attr>
    var curAttrId: nat
    const pool: Pool
    var startHandle: uint16
    var endHandle: uint16
    var discoverType: DiscoverType
    var uuid: Option<Uuid>
    var searchByUuid: bool
    var svcUuid: Uuid
    var callbackSet: bool
    var log: seq<Output>
    ghost var awaits: Awaits
    ghost var crashed: bool
    ghost var places: seq<Place>  // where the UUID pointers of the entries lead

    ghost predicate Valid()
      reads this, attrs, pool
    {
      Consistent() && WellFormed(Abs())
    }

    /** Flags, counters and chunk list agree with each other. */
    ghost predicate Consistent()
      reads this, attrs, pool
    {
      && Agree(locked, releasePending, crashed, awaits, pool.chunkList)
      && attrs.Length == MAX_ATTRS && curAttrId <= MAX_ATTRS
      && (curAttrId == 0 ==> pool.chunkList == [])
      && pool.Valid() && Laid(places, attrs[..curAttrId], pool.handed)
    }

    ghost function Abs(): Dm
      requires curAttrId <= attrs.Length
      reads this, attrs
    {
      Dm(if !locked then Idle
         else if releasePending then Complete
         else if crashed then Crashed
         else match discoverType
           case Primary => Searching
           case Attribute => Attributes
           case Characteristic => Characteristics,
         awaits, attrs[..curAttrId], startHandle, endHandle, uuid,
         if searchByUuid then Some(svcUuid) else None, callbackSet)
    }

    constructor ()
      ensures Valid() && Abs() == INITIAL && log == [] && fresh(attrs) && fresh(pool)
    {
      locked, releasePending, curAttrId, startHandle, endHandle := false, false, 0, 0, 0;
      discoverType, uuid, searchByUuid, svcUuid, callbackSet := Primary, None, false, PRIMARY, false;
      log, awaits, crashed, places := [], Nothing, false, [];
      attrs := new Attr[MAX_ATTRS](_ => Attr(0, 0, PRIMARY, NoValue));
      pool := new Pool();
    }

    /** The state and the log after one step of the procedure. */
    twostate predicate Steps(e: Event)
      requires old(Valid()) && Enabled(old(Abs()), e)
      reads this, attrs, pool
    {
      && Valid()
      && Abs() == Step(old(Abs()), e).dm
      && log == old(log) + Step(old(Abs()), e).outputs
    }

    /** What a consistent instance promises between calls. */
    lemma UnlockedHoldsNothing()
      requires Valid()
      ensures releasePending ==> locked
      ensures !locked ==> curAttrId == 0 && pool.chunkList == [] && pool.taken == pool.freed
      ensures pool.taken - pool.freed == |pool.chunkList|
    {
      assert !locked ==> |Abs().table| == 0;
    }

    // ---- memory ----

    /** svc_attr_memory_release. */
    method ReleaseMemory()
      requires pool.Valid()
      modifies this`curAttrId, this`places, pool
      ensures pool.Valid() && pool.chunkList == [] && curAttrId == 0 && places == []
    {
      curAttrId, places := 0, [];
      pool.Release();
    }

    /** attr_store: the new entry's index, or -1 and no change. The entry's UUID goes behind `additionalLen` bytes
        at the start of a region of its own. */
    method AttrStore(a: Attr, additionalLen: nat, callocOk: bool) returns (index: int, ghost room: bool)
      requires Consistent() && locked && additionalLen == Extra(curAttrId, a.uuid)
      modifies this`curAttrId, this`places, attrs, pool
      ensures Consistent()
      ensures room <==> old(pool.HasRoom(additionalLen + UuidSize(a.uuid), callocOk))
      ensures index == -1 <==> old(curAttrId) >= MAX_ATTRS || !room
      ensures index == -1 ==> Abs() == old(Abs()) && places == old(places) && pool.handed == old(pool.handed)
      ensures index != -1 ==> index == old(curAttrId) == curAttrId - 1
                              && Abs() == old(Abs()).(table := old(Abs()).table + [a.(value := NoValue)])
      ensures index != -1 ==> && |pool.handed| == |old(pool.handed)| + 1 && old(pool.handed) <= pool.handed
                              && places == old(places) + [Place(|old(pool.handed)|, places[index].uuidAt)]
                              && places[index].uuidAt == pool.handed[|old(pool.handed)|].at + additionalLen
      ensures index != -1 ==> forall n: nat, ok ::
                pool.HasRoom(n, ok) == old(pool.HasRoomBehind(additionalLen + UuidSize(a.uuid), n, ok))
    {
      room := pool.HasRoom(additionalLen + UuidSize(a.uuid), callocOk);
      if curAttrId >= MAX_ATTRS {
        return -1, room;
      }
      var data := pool.Alloc(additionalLen + UuidSize(a.uuid), callocOk);
      if data.None? {
        return -1, room;
      }
      AddEntry(a.(value := NoValue), data.value, additionalLen);
      return curAttrId - 1, room;
    }

    /** The entry in the region just handed out. */
    method AddEntry(a: Attr, data: Region, additionalLen: nat)
      requires attrs.Length == MAX_ATTRS && curAttrId < MAX_ATTRS
      requires pool.handed != [] && data == pool.handed[|pool.handed| - 1]
      requires additionalLen == Extra(curAttrId, a.uuid) && additionalLen + UuidSize(a.uuid) <= data.len
      requires Laid(places, attrs[..curAttrId], pool.handed[..|pool.handed| - 1])
      modifies this`curAttrId, this`places, attrs
      ensures curAttrId == old(curAttrId) + 1 && attrs[..curAttrId] == old(attrs[..curAttrId]) + [a]
      ensures places == old(places) + [Place(|pool.handed| - 1, data.at + additionalLen)]
      ensures Laid(places, attrs[..curAttrId], pool.handed)
    {
      ghost var handed := pool.handed[..|pool.handed| - 1];
      ghost var p := Place(|handed|, data.at + additionalLen);
      assert pool.handed == handed + [data];
      OneMoreLaid(places, attrs[..curAttrId], handed, p, a, data);
      attrs[curAttrId] := a;
      places := places + [p];
      curAttrId := curAttrId + 1;
      assert attrs[..curAttrId] == old(attrs[..curAttrId]) + [a];
    }

    /** Writing the value slot of an entry. */
    method SetValue(index: nat, v: AttrValue)
      requires Consistent() && index < curAttrId
      modifies attrs
      ensures Consistent()
      ensures Abs() == old(Abs()).(table := old(Abs()).table[index := old(Abs()).table[index].(value := v)])
    {
      ghost var table := attrs[..curAttrId];
      attrs[index] := attrs[index].(value := v);
      assert attrs[..curAttrId] == table[index := table[index].(value := v)];
      StillLaid(places, table, attrs[..curAttrId], pool.handed, []);
      assert pool.handed + [] == pool.handed;
    }

    /** uuid_store. */
    method UuidStore(u: Uuid, callocOk: bool) returns (stored: bool)
      requires Consistent() && locked && curAttrId > 0
      modifies pool
      ensures Consistent() && old(pool.handed) <= pool.handed
      ensures stored <==> old(pool.HasRoom(UuidSize(u), callocOk))
    {
      ghost var handed := pool.handed;
      var buffer := pool.Alloc(UuidSize(u), callocOk);
      stored := buffer.Some?;
      StillLaid(places, attrs[..curAttrId], attrs[..curAttrId], handed, pool.handed[|handed|..]);
      assert pool.handed == handed + pool.handed[|handed|..];
    }

    /** The value slot of an entry that has one and the UUID of every entry lie in the entry's own region and overlap
        nothing else that was handed out; the bytes in front of any other UUID do not belong to its entry. */
    lemma ValuesApart(i: nat, j: nat)
      requires Valid() && i < curAttrId && j < |pool.handed|
      ensures places[i].home < |pool.handed|
      ensures var table, handed := Abs().table, pool.handed;
              var home, uuid, slot := handed[places[i].home],
                  places[i].UuidBytes(table[i].uuid, handed), places[i].ValueSlot(handed);
              && home.Contains(uuid) && uuid.at % DATA_ALIGN == 0 && slot.Disjoint(uuid)
              && (home.Contains(slot) <==> i == 0 || IsChar(table, i))
              && (j != places[i].home ==> uuid.Disjoint(handed[j]))
              && (j != places[i].home && (i == 0 || IsChar(table, i)) ==> slot.Disjoint(handed[j]))
      ensures forall k | 0 <= k < curAttrId && k != i :: places[k].home != places[i].home
    {
      var p, u := places[i], Abs().table[i].uuid;
      assert Fits(p, i, u, pool.handed);
      if j != p.home {
        PlacedApart(pool, p.home, j, p.UuidBytes(u, pool.handed));
        if i == 0 || IsChar(Abs().table, i) {
          PlacedApart(pool, p.home, j, p.ValueSlot(pool.handed));
        }
      }
    }

    /** attr_find_by_handle: the entry the search of the specification names. */
    method AttrFindByHandle(handle: uint16) returns (i: int)
      requires curAttrId <= attrs.Length
      ensures i == Search(attrs[..curAttrId], handle, 0, curAttrId - 1)
    {
      if curAttrId == 0 {
        return -1;
      }
      ghost var table := attrs[..curAttrId];
      var lower, upper := 0, curAttrId - 1;
      while upper >= lower
        invariant 0 <= lower <= upper + 1 <= curAttrId
        invariant Search(table, handle, lower, upper) == Search(table, handle, 0, curAttrId - 1)
        decreases upper - lower + 1
      {
        var m := (lower + upper) / 2;
        if attrs[m].handle < handle {
          lower := m + 1;
        } else if attrs[m].handle > handle {
          upper := m - 1;
        } else {
          return m;
        }
      }
      return -1;
    }

    // ---- endings ----

    method DiscoveryComplete()
      requires Consistent() && locked && !crashed
      modifies this`releasePending, this`log, this`awaits
      ensures Consistent() && Abs() == Finish(old(Abs())).dm && log == old(log) + [Completed]
    {
      releasePending := true;
      awaits := Nothing;
      log := log + [Completed];
    }

    /** discovery_complete_not_found and discovery_complete_error. */
    method DiscoveryEnds(output: Output)
      requires pool.Valid() && attrs.Length == MAX_ATTRS && curAttrId <= MAX_ATTRS && !releasePending && !crashed
      modifies this`locked, this`curAttrId, this`places, this`log, this`awaits, pool
      ensures Consistent() && Abs() == Ended(old(Abs()), output).dm && log == old(log) + [output]
    {
      ReleaseMemory();
      locked := false;
      awaits := Nothing;
      log := log + [output];
    }

    /** A null pointer is dereferenced; nothing runs after this. */
    ghost method Fault()
      requires Consistent() && locked && !releasePending
      modifies this`crashed, this`awaits
      ensures Consistent() && crashed && Abs() == Crash(old(Abs())).dm
    {
      crashed, awaits := true, Nothing;
    }

    // ---- calls of the application and of the work queue ----

    /** bt_gatt_dm_start. */
    method StartDiscovery(svc: Option<Uuid>, hasCallbacks: bool, host: int) returns (r: Output)
      requires Valid() && !crashed
      modifies this, pool
      ensures Steps(Start(svc, hasCallbacks, host)) && log == old(log) + [r]
    {
      StepKeepsWellFormed(Abs(), Start(svc, hasCallbacks, host));
      if svc.Some? && svc.value.Uuid32? {
        r := Refused(EINVAL);
      } else if !hasCallbacks {
        r := Refused(EINVAL);
      } else if locked {
        r := Refused(EALREADY);
      } else {
        r := Begin(svc, host);
        return;
      }
      log := log + [r];
    }

    /** The part of start behind its guards. */
    method Begin(svc: Option<Uuid>, host: int) returns (r: Output)
      requires Consistent() && !locked
      modifies this, pool
      ensures Consistent()
      ensures log == old(log) + [r] && r == if host == 0 then Ok else Refused(Host(host))
      ensures Abs() == if host == 0 then Dm(Searching, Response, [], 1, 0xFFFF, svc, svc, true)
                       else Dm(Idle, Nothing, [], 1, 0xFFFF, svc, svc, true)
    {
      Prepare(svc);
      awaits := Response;
      r := Ok;
      if host != 0 {
        locked, awaits := false, Nothing;
        r := Refused(Host(host));
      }
      log := log + [r];
    }

    /** Locks the instance and sets up the first request. */
    method Prepare(svc: Option<Uuid>)
      requires pool.Valid() && pool.chunkList == [] && !releasePending && !crashed
      modifies this, pool
      ensures pool.Valid() && pool.chunkList == []
      ensures locked && !releasePending && !crashed && curAttrId == 0 && places == [] && callbackSet
      ensures uuid == svc && searchByUuid == svc.Some? && (svc.Some? ==> svcUuid == svc.value)
      ensures startHandle == 1 && endHandle == 0xFFFF && discoverType == Primary && log == old(log)
    {
      pool.Reset();
      locked, curAttrId, places := true, 0, [];
      searchByUuid := svc.Some?;
      if svc.Some? {
        svcUuid := svc.value;
      }
      callbackSet, uuid, startHandle, endHandle, discoverType := true, svc, 1, 0xFFFF, Primary;
    }

    /** bt_gatt_dm_continue. */
    method ContinueDiscovery(host: int) returns (r: Output)
      requires Valid() && !crashed
      modifies this, pool
      ensures Steps(Continue(host)) && |log| > |old(log)| && log[|log| - 1] == r
    {
      StepKeepsWellFormed(Abs(), Continue(host));
      if !callbackSet || uuid.Some? {
        r := Refused(EINVAL);
      } else if locked {
        r := Refused(EALREADY);
      } else {
        UnlockedHoldsNothing();
        r := GoOn(host);
      }
      log := log + [r];
    }

    /** The part of continue behind its guards. */
    method GoOn(host: int) returns (r: Output)
      requires Consistent() && !locked && curAttrId == 0 && callbackSet && uuid.None?
      modifies this, pool
      ensures Consistent() && Abs() == StepContinue(old(Abs()), host).dm
      ensures log + [r] == old(log) + StepContinue(old(Abs()), host).outputs
    {
      locked := true;
      if endHandle == 0xFFFF {
        DiscoveryEnds(NotFound);
        r := Ok;
      } else {
        r := RequestNext(host);
      }
    }

    /** The request for the next service; on failure the lock is given back before the error is reported. */
    method RequestNext(host: int) returns (r: Output)
      requires pool.Valid() && pool.chunkList == [] && attrs.Length == MAX_ATTRS && curAttrId == 0 && places == []
      requires locked && !releasePending && !crashed && endHandle != 0xFFFF
      modifies this, pool
      ensures Consistent() && r == if host == 0 then Ok else Refused(Host(host))
      ensures log == old(log) + if host == 0 then [] else [Failed(Host(host))]
      ensures Abs() == Dm(if host == 0 then Searching else Idle, if host == 0 then Response else Nothing, [],
                          old(endHandle) + 1, 0xFFFF, old(Abs()).target, old(Abs()).target, old(callbackSet))
    {
      startHandle, endHandle, discoverType := endHandle + 1, 0xFFFF, Primary;
      uuid := if searchByUuid then Some(svcUuid) else None;
      awaits := Response;
      r := Ok;
      if host != 0 {
        locked := false;
        DiscoveryEnds(Failed(Host(host)));
        r := Refused(Host(host));
      }
    }

    /** bt_gatt_dm_data_release. */
    method ReleaseData() returns (r: Output)
      requires Valid() && !crashed
      modifies this, pool
      ensures Steps(Release) && log == old(log) + [r]
    {
      StepKeepsWellFormed(Abs(), Release);
      if !releasePending {
        r := Refused(EALREADY);
        log := log + [r];
      } else {
        releasePending := false;
        r := Ok;
        DiscoveryEnds(Ok);
      }
    }

    /** gatt_discover_work, when the queue runs it. */
    method Work(host: int)
      requires Valid() && awaits == WorkItem
      modifies this, pool
      ensures Steps(RunWork(host))
    {
      StepKeepsWellFormed(Abs(), RunWork(host));
      if host != 0 {
        DiscoveryEnds(Failed(ENOMEM));
      } else {
        awaits := Response;
      }
    }

    // ---- callbacks of the Bluetooth host ----

    /** What the host is told: go on exactly while more responses are awaited. */
    ghost predicate Answers(r: IterResult)
      reads this
    {
      && (r == Go <==> awaits == Response && !crashed)
      && (r == NullDereference <==> crashed)
    }

    /** The event of a reported attribute: whether its entry and the UUID of its value find room follows from the state
        of the chunks and from what k_calloc would answer. */
    function Reporting(a: Attr, callocOk: bool, callocOkForUuid: bool): Event
      requires discoverType == Primary ==> a.value.ServiceVal?
      requires discoverType == Characteristic ==> a.value.ChrcVal?
      reads this, pool
    {
      match discoverType
      case Primary =>
        var len := VALUE_SIZE + UuidSize(a.uuid);
        Found(a, pool.HasRoom(len, callocOk), pool.HasRoomBehind(len, UuidSize(a.value.service), callocOkForUuid))
      case Attribute => Found(a, pool.HasRoom(Extra(curAttrId, a.uuid) + UuidSize(a.uuid), callocOk), true)
      case Characteristic => Found(a, true, pool.HasRoom(UuidSize(a.value.chrc), callocOkForUuid))
    }

    /** The chunk that holds a service has room for the service's UUID, whatever k_calloc answers: of the two
        allocations of the first phase only the first can fail. */
    lemma ServiceUuidFits(a: Attr, callocOk: bool, callocOkForUuid: bool)
      requires Valid() && Abs().phase == Searching && a.value.ServiceVal?
      ensures Reporting(a, callocOk, callocOkForUuid).roomForUuid
    {
      assert |Abs().table| == curAttrId;
    }

    /** discovery_callback. An absent attribute ends the request. `e` is the step taken. */
    method DiscoveryCallback(sameConnection: bool, attr: Option<Attr>, callocOk: bool, callocOkForUuid: bool)
      returns (r: IterResult, ghost e: Event)
      requires Valid() && !crashed && awaits == Response
      requires attr.Some? ==> Enabled(Abs(), Found(attr.value, true, true))
      modifies this, attrs, pool
      ensures e == if !sameConnection then ForeignConnection
                   else if attr.None? then Finished
                   else old(Reporting(attr.value, callocOk, callocOkForUuid))
      ensures Steps(e) && Answers(r)
    {
      if !sameConnection {
        e := ForeignConnection;
        StepKeepsWellFormed(Abs(), e);
        DiscoveryEnds(Failed(EFAULT));
        return Stop, e;
      }
      if attr.None? {
        e := Finished;
        ProcessEnd();
        return Stop, e;
      }
      match discoverType {
        case Primary => r, e := ProcessService(attr.value, callocOk, callocOkForUuid);
        case Attribute => r, e := ProcessAttribute(attr.value, callocOk);
        case Characteristic => r, e := ProcessCharacteristic(attr.value, callocOkForUuid);
      }
    }

    /** The three phases without an attribute. */
    method ProcessEnd()
      requires Valid() && !crashed && awaits == Response
      modifies this, pool
      ensures Steps(Finished) && awaits != Response && !crashed
    {
      StepKeepsWellFormed(Abs(), Finished);
      EndPhase();
    }

    method EndPhase()
      requires Consistent() && locked && !releasePending && !crashed
      modifies this, pool
      ensures Consistent() && Abs() == StepFinished(old(Abs())).dm && log == old(log) + StepFinished(old(Abs())).outputs
    {
      match discoverType {
        case Primary => DiscoveryEnds(NotFound);
        case Attribute =>
          if curAttrId > 1 {
            startHandle := (attrs[0].handle + 1) % 0x1_0000;
            discoverType := Characteristic;
            awaits := WorkItem;
          } else {
            DiscoveryComplete();
          }
        case Characteristic => DiscoveryComplete();
      }
    }

    /** discovery_process_service. */
    method ProcessService(a: Attr, callocOk: bool, callocOkForUuid: bool) returns (r: IterResult, ghost e: Event)
      requires Valid() && !crashed && awaits == Response && discoverType == Primary
      requires Enabled(Abs(), Found(a, true, true))
      modifies this, attrs, pool
      ensures e == old(Reporting(a, callocOk, callocOkForUuid))
      ensures Steps(e) && Answers(r)
    {
      r := Stop;
      e := Reporting(a, callocOk, callocOkForUuid);
      StepKeepsWellFormed(Abs(), e);
      ghost var room;
      var index;
      index, room := AttrStore(a, VALUE_SIZE, callocOk);
      if index == -1 {
        DiscoveryEnds(Failed(ENOMEM));
        return;
      }
      var stored := StoreServiceValue(a, callocOkForUuid);
      assert stored == e.roomForUuid;
    }

    /** The value of the service goes into the slot of its entry, its UUID into new memory. */
    method StoreServiceValue(a: Attr, callocOk: bool) returns (stored: bool)
      requires Consistent() && locked && !releasePending && !crashed && discoverType == Primary && a.value.ServiceVal?
      requires curAttrId == 1 && attrs[0] == a.(value := NoValue)
      modifies this, attrs, pool
      ensures Consistent() && !crashed && awaits != Response
      ensures stored == old(pool.HasRoom(UuidSize(a.value.service), callocOk))
      ensures var r := if stored then Visit(old(Abs()).(table := [a]), a) else Ended(old(Abs()), Failed(ENOMEM));
              Abs() == r.dm && log == old(log) + r.outputs
    {
      SetValue(0, a.value);
      assert Abs().table == [a];
      stored := UuidStore(a.value.service, callocOk);
      if !stored {
        DiscoveryEnds(Failed(ENOMEM));
        return;
      }
      ServiceStored(a);
    }

    /** The rest of discovery_process_service, once the service is stored. */
    method ServiceStored(a: Attr)
      requires Consistent() && locked && !releasePending && !crashed && discoverType == Primary && a.value.ServiceVal?
      modifies this
      ensures Consistent() && !crashed && awaits != Response
      ensures Abs() == Visit(old(Abs()), a).dm && log == old(log) + Visit(old(Abs()), a).outputs
    {
      endHandle := a.value.end;
      if a.handle == a.value.end {
        DiscoveryComplete();
        return;
      }
      uuid, discoverType, startHandle := None, Attribute, (a.handle + 1) % 0x1_0000;
      awaits := WorkItem;
    }

    /** discovery_process_attribute. */
    method ProcessAttribute(a: Attr, callocOk: bool) returns (r: IterResult, ghost e: Event)
      requires Valid() && !crashed && awaits == Response && discoverType == Attribute
      modifies this, attrs, pool
      ensures e == old(Reporting(a, callocOk, true))
      ensures Steps(e) && Answers(r)
    {
      ghost var before := Abs();
      ghost var room;
      r, room := StoreAttribute(a, callocOk);
      e := Found(a, room, true);
      StepKeepsWellFormed(before, e);
    }

    method StoreAttribute(a: Attr, callocOk: bool) returns (r: IterResult, ghost room: bool)
      requires Consistent() && awaits == Response && curAttrId > 0
      modifies this, attrs, pool
      ensures Consistent() && Answers(r)
      ensures room == old(pool.HasRoom(Extra(curAttrId, a.uuid) + UuidSize(a.uuid), callocOk))
      ensures Abs() == StepAttribute(old(Abs()), a, room).dm
      ensures log == old(log) + StepAttribute(old(Abs()), a, room).outputs
    {
      var index;
      index, room := AttrStore(a, if SameUuid(a.uuid, CHRC) then VALUE_SIZE else 0, callocOk);
      if SameUuid(a.uuid, CHRC) {
        if index == -1 {
          // the value slot is looked up before the result is checked
          Fault();
          return NullDereference, room;
        }
        SetValue(index, ChrcVal(attrs[index].uuid, 0, 0));
      }
      if index == -1 {
        DiscoveryEnds(Failed(ENOMEM));
        return Stop, room;
      }
      return Go, room;
    }

    /** discovery_process_characteristic. */
    method ProcessCharacteristic(a: Attr, callocOk: bool) returns (r: IterResult, ghost e: Event)
      requires Valid() && !crashed && awaits == Response && discoverType == Characteristic
      requires Enabled(Abs(), Found(a, true, true))
      modifies this, attrs, pool
      ensures e == old(Reporting(a, true, callocOk))
      ensures Steps(e) && Answers(r)
    {
      ghost var before := Abs();
      ghost var stored;
      var index := AttrFindByHandle(a.handle);
      r, stored := TakeCharacteristic(index, a, callocOk);
      e := Found(a, true, stored);
      StepKeepsWellFormed(before, e);
    }

    method TakeCharacteristic(index: int, a: Attr, callocOk: bool) returns (r: IterResult, ghost stored: bool)
      requires Consistent() && awaits == Response && a.value.ChrcVal? && -1 <= index < curAttrId
      modifies this, attrs, pool
      ensures Consistent() && Answers(r) && stored == old(pool.HasRoom(UuidSize(a.value.chrc), callocOk))
      ensures Abs() == SetCharacteristic(old(Abs()), index, a, stored).dm
      ensures log == old(log) + SetCharacteristic(old(Abs()), index, a, stored).outputs
    {
      stored := pool.HasRoom(UuidSize(a.value.chrc), callocOk);
      if index == -1 {
        DiscoveryEnds(Failed(ESRCH));
        return Stop, stored;
      }
      if !SameUuid(attrs[index].uuid, CHRC) {
        // there is no value slot to copy to
        Fault();
        return NullDereference, stored;
      }
      r, stored := StoreValue(index, a, callocOk);
    }

    /** The value goes into the slot of its entry, its UUID into new memory. */
    method StoreValue(index: nat, a: Attr, callocOk: bool) returns (r: IterResult, stored: bool)
      requires Consistent() && awaits == Response && index < curAttrId && a.value.ChrcVal?
      modifies this, attrs, pool
      ensures Consistent() && Answers(r) && stored == old(pool.HasRoom(UuidSize(a.value.chrc), callocOk))
      ensures var s := old(Abs());
              && Abs() == (if stored then s.(table := s.table[index := s.table[index].(value := a.value)])
                           else Ended(s, Failed(ENOMEM)).dm)
              && log == old(log) + if stored then [] else [Failed(ENOMEM)]
    {
      SetValue(index, a.value);
      stored := UuidStore(a.value.chrc, callocOk);
      r := Go;
      if !stored {
        DiscoveryEnds(Failed(ENOMEM));
        r := Stop;
      }
    }

    // ---- iterators over a completed table; -1 stands for a null pointer ----

    /** bt_gatt_dm_char_next. */
    method CharNext(prev: int) returns (r: int)
      requires curAttrId <= attrs.Length && -1 <= prev
      ensures IsNextChar(attrs[..curAttrId], if prev == -1 then 0 else prev, r)
    {
      r := if prev == -1 then 0 else prev;
      ghost var from := r;
      r := r + 1;
      while r < curAttrId
        invariant from < r
        invariant forall i | from < i < r :: !IsChar(attrs[..curAttrId], i)
      {
        if SameUuid(attrs[r].uuid, CHRC) {
          return;
        }
        r := r + 1;
      }
      r := -1;
    }

    lemma CharsHaveValues()
      requires Valid()
      ensures forall i | 1 <= i < curAttrId && IsChar(attrs[..curAttrId], i) :: attrs[i].value.ChrcVal?
    {
      assert forall i | 1 <= i < curAttrId :: attrs[i] == Abs().table[i];
    }

    /** bt_gatt_dm_char_by_uuid: the first characteristic whose stored value has the UUID. */
    method CharByUuid(u: Uuid) returns (r: int)
      requires Valid()
      ensures r == -1 ==> forall i | 1 <= i < curAttrId && IsChar(attrs[..curAttrId], i) ::
                            !SameUuid(u, attrs[i].value.chrc)
      ensures r != -1 ==> && 1 <= r && IsChar(attrs[..curAttrId], r) && SameUuid(u, attrs[r].value.chrc)
                          && forall i | 1 <= i < r && IsChar(attrs[..curAttrId], i) ::
                               !SameUuid(u, attrs[i].value.chrc)
    {
      ghost var table := attrs[..curAttrId];
      CharsHaveValues();
      r := CharNext(-1);
      ghost var seen := 0;
      while r != -1
        invariant 0 <= seen && IsNextChar(table, seen, r)
        invariant forall i | 1 <= i <= seen && IsChar(table, i) :: !SameUuid(u, attrs[i].value.chrc)
        decreases curAttrId - seen
      {
        if SameUuid(u, attrs[r].value.chrc) {
          return;
        }
        seen := r;
        r := CharNext(r);
      }
    }

    /** bt_gatt_dm_attr_by_handle: an entry with the handle; on a sorted table it is found if there is one. */
    method AttrByHandle(handle: uint16) returns (i: int)
      requires Valid()
      ensures i != -1 ==> 0 <= i < curAttrId && attrs[i].handle == handle
      ensures i == -1 && Sorted(attrs[..curAttrId]) ==> forall k | 0 <= k < curAttrId :: attrs[k].handle != handle
    {
      i := AttrFindByHandle(handle);
      ghost var table := attrs[..curAttrId];
      if i == -1 && Sorted(table) {
        SearchIsScan(table, handle, 0, |table| - 1);
        forall k | 0 <= k < curAttrId
          ensures attrs[k].handle != handle
        {
          assert attrs[k] == table[k];
        }
      }
    }

    /** bt_gatt_dm_attr_next. */
    method AttrNext(prev: int) returns (r: int)
      requires Valid() && -1 <= prev
      ensures r == var next := (if prev == -1 then 0 else prev) + 1; if next < curAttrId then next else -1
    {
      r := (if prev == -1 then 0 else prev) + 1;
      if r >= curAttrId {
        r := -1;
      }
    }

    /** bt_gatt_dm_desc_next. */
    method DescNext(prev: int) returns (r: int)
      requires Valid() && 0 <= prev
      ensures r == if prev + 1 < curAttrId && !IsChar(attrs[..curAttrId], prev + 1) then prev + 1 else -1
    {
      r := AttrNext(prev);
      if r != -1 && SameUuid(CHRC, attrs[r].uuid) {
        r := -1;
      }
    }

    /** bt_gatt_dm_desc_by_uuid: the first match between a characteristic and the next one. */
    method DescByUuid(chrc: nat, u: Uuid) returns (r: int)
      requires Valid()
      ensures var table := attrs[..curAttrId];
              if r == -1 then
                forall i | chrc < i < curAttrId && SameUuid(u, table[i].uuid) ::
                  exists k | chrc < k <= i :: IsChar(table, k)
              else
                && chrc < r < curAttrId && SameUuid(u, table[r].uuid)
                && (forall k | chrc < k <= r :: !IsChar(table, k))
                && (forall k | chrc < k < r :: !SameUuid(u, table[k].uuid))
    {
      ghost var table := attrs[..curAttrId];
      r := DescNext(chrc);
      ghost var last: nat := chrc;
      while r != -1
        invariant chrc <= last && (r != -1 ==> r == last + 1 < curAttrId && !IsChar(table, r))
        invariant r == -1 ==> last + 1 >= curAttrId || IsChar(table, last + 1)
        invariant forall k | chrc < k <= last :: k < curAttrId && !IsChar(table, k) && !SameUuid(u, table[k].uuid)
        decreases curAttrId - last
      {
        if SameUuid(u, attrs[r].uuid) {
          break;
        }
        last := r;
        r := DescNext(r);
      }
    }
  }
}
