/** The connection-attempts filter: a ring buffer of devices that behaves as a bounded FIFO (src/nrf_hal/scan.c). */
module ConnectionAttempts {
  import opened Bytes

  type Addr = nat  // an address with its type, as one number

  datatype Device = Device(addr: Addr, attempts: nat)

  // ---- the FIFO ----

  ghost predicate Present(q: seq<Device>, a: Addr) {
    exists i | 0 <= i < |q| :: q[i].addr == a
  }

  ghost predicate NoDuplicates(q: seq<Device>) {
    forall i, j | 0 <= i < j < |q| :: q[i].addr != q[j].addr
  }

  /** A new device goes to the end and pushes out the oldest when the queue is full; a known one stays put. */
  ghost function Insert(q: seq<Device>, capacity: nat, a: Addr): seq<Device>
    requires capacity > 0
  {
    if Present(q, a) then q
    else (if |q| < capacity then q else q[1..]) + [Device(a, 0)]
  }

  function Bumped(d: Device, limit: nat, a: Addr): Device {
    if d.addr == a && d.attempts < limit then d.(attempts := d.attempts + 1) else d
  }

  ghost function Bump(q: seq<Device>, limit: nat, a: Addr): (r: seq<Device>)
    ensures |r| == |q| && forall i | 0 <= i < |q| :: r[i] == Bumped(q[i], limit, a)
  {
    seq(|q|, i requires 0 <= i < |q| => Bumped(q[i], limit, a))
  }

  ghost predicate Exceeded(q: seq<Device>, limit: nat, a: Addr) {
    exists d :: d in q && d.addr == a && d.attempts >= limit
  }

  /** What the filter sees. */
  datatype Event = Connected(addr: Addr, failed: bool) | Disconnected(addr: Addr) | Cleared

  /** One step of the queue. */
  ghost function Next(q: seq<Device>, capacity: nat, limit: nat, e: Event): seq<Device>
    requires capacity > 0
  {
    match e
    case Connected(a, failed) =>
      if failed then Bump(Insert(q, capacity, a), limit, a) else Insert(q, capacity, a)
    case Disconnected(a) => Bump(q, limit, a)
    case Cleared => []
  }

  /** Whether `a` is out of attempts shows at its first entry, in any arrangement `s` of the queue. */
  lemma {:induction false} ExceededAt(q: seq<Device>, s: seq<Device>, limit: nat, a: Addr, i: nat)
    requires NoDuplicates(s) && i <= |s| && forall d :: d in q <==> d in s
    requires (forall k | 0 <= k < i :: s[k].addr != a) && (i < |s| ==> s[i].addr == a)
    ensures Exceeded(q, limit, a) <==> i < |s| && s[i].attempts >= limit
  {
    if d :| d in q && d.addr == a && d.attempts >= limit {
      var k :| 0 <= k < |s| && s[k] == d;
      assert k == i;
    }
    if i < |s| && s[i].attempts >= limit {
      assert s[i] in q;
    }
  }

  // ---- the ring ----

  ghost function Rotated(s: seq<Device>, k: nat): seq<Device>
    requires k <= |s|
  {
    s[k..] + s[..k]
  }

  /** Overwriting the oldest slot and moving on is dropping the first device and appending another. */
  lemma OverwriteOldest(s: seq<Device>, k: nat, d: Device)
    requires k < |s| && NoDuplicates(s) && !Present(s, d.addr)
    ensures NoDuplicates(s[k := d])
    ensures Rotated(s[k := d], if k == |s| - 1 then 0 else k + 1) == Rotated(s, k)[1..] + [d]
  {
  }

  /** Counting an attempt does not depend on where the ring starts. */
  lemma BumpRotated(s: seq<Device>, t: seq<Device>, k: nat, limit: nat, a: Addr)
    requires |t| == |s| && k <= |s| && forall i | 0 <= i < |s| :: t[i] == Bumped(s[i], limit, a)
    ensures Rotated(t, k) == Bump(Rotated(s, k), limit, a)
  {
  }

  class AttemptsFilter {
    const limit: nat  // CONFIG_BT_SCAN_CONN_ATTEMPTS_COUNT
    const device: array<Device>  // CONFIG_BT_SCAN_CONN_ATTEMPTS_FILTER_LEN of them
    var oldestIdx: nat
    var count: nat

    ghost predicate Valid()
      reads this, device
    {
      && 0 < device.Length && count <= device.Length && oldestIdx < device.Length
      && (count < device.Length ==> oldestIdx == 0)
      && NoDuplicates(device[..count])
      && (forall i | count <= i < device.Length :: device[i].attempts == 0)
    }

    /** The devices, oldest first. */
    ghost function Queue(): seq<Device>
      requires Valid()
      reads this, device
    {
      if count < device.Length then device[..count] else Rotated(device[..], oldestIdx)
    }

    constructor (capacity: nat, limit: nat)
      requires capacity > 0
      ensures Valid() && Queue() == [] && fresh(device) && device.Length == capacity && this.limit == limit
    {
      this.limit, oldestIdx, count := limit, 0, 0;
      device := new Device[capacity](_ => Device(0, 0));
    }

    /** The search loop of all three operations: the index of the device, or `count`. */
    method Find(a: Addr) returns (i: nat)
      requires Valid()
      ensures i <= count && (i < count ==> device[i].addr == a)
      ensures i == count ==> forall k | 0 <= k < count :: device[k].addr != a
    {
      i := 0;
      while i < count
        invariant i <= count && forall k | 0 <= k < i :: device[k].addr != a
      {
        if device[i].addr == a {
          return;
        }
        i := i + 1;
      }
    }

    /** The ring and the plain prefix hold the same devices. */
    lemma QueueHolds()
      requires Valid()
      ensures forall d :: d in Queue() <==> d in device[..count]
    {
      if count == device.Length {
        assert device[..] == device[..oldestIdx] + device[oldestIdx..];
        assert device[..count] == device[..];
      }
    }

    /** attempts_filter_force_add. */
    method ForceAdd(a: Addr)
      requires Valid() && count == device.Length && !Present(Queue(), a)
      modifies this`oldestIdx, device
      ensures Valid() && count == device.Length && Queue() == old(Queue())[1..] + [Device(a, 0)]
    {
      assert device[..count] == device[..];
      QueueHolds();
      assert forall i | 0 <= i < count :: device[..][i] in Queue();
      device[oldestIdx] := device[oldestIdx].(attempts := 0);
      device[oldestIdx] := device[oldestIdx].(addr := a);
      assert device[..count] == device[..] == old(device[..])[oldestIdx := Device(a, 0)];
      OverwriteOldest(old(device[..]), oldestIdx, Device(a, 0));
      if oldestIdx == device.Length - 1 {
        oldestIdx := 0;
        return;
      }
      oldestIdx := oldestIdx + 1;
    }

    /** scan_attempts_filter_device_add. */
    method DeviceAdd(a: Addr)
      requires Valid()
      modifies this`oldestIdx, this`count, device
      ensures Valid() && Queue() == Insert(old(Queue()), device.Length, a)
    {
      QueueHolds();
      var i := Find(a);
      if i < count {
        assert device[..count][i] in Queue();
        return;
      }
      if count >= device.Length {
        ForceAdd(a);
      } else {
        device[count] := device[count].(addr := a);
        count := count + 1;
        assert device[..count] == old(device[..count]) + [Device(a, 0)];
      }
    }

    /** device_conn_attempts_count. */
    method CountAttempt(a: Addr)
      requires Valid()
      modifies device
      ensures Valid() && Queue() == Bump(old(Queue()), limit, a)
    {
      var i := Find(a);
      if i < count {
        if device[i].attempts < limit {
          device[i] := device[i].(attempts := device[i].attempts + 1);
        }
        assert device[..] == old(device[..])[i := Bumped(old(device[i]), limit, a)];
        assert forall k | 0 <= k < count && k != i :: old(device[..count])[k].addr != a;
      }
      assert forall k | 0 <= k < count :: device[k] == Bumped(old(device[k]), limit, a);
      if count == device.Length {
        BumpRotated(old(device[..]), device[..], oldestIdx, limit, a);
      } else {
        assert device[..count] == Bump(old(device[..count]), limit, a);
      }
    }

    /** conn_attempts_exceeded. */
    method AttemptsExceeded(a: Addr) returns (exceeded: bool)
      requires Valid()
      ensures exceeded <==> Exceeded(Queue(), limit, a)
    {
      QueueHolds();
      exceeded := false;
      var i := Find(a);
      ExceededAt(Queue(), device[..count], limit, a, i);
      if i < count {
        if device[i].attempts >= limit {
          exceeded := true;
        }
      }
    }

    /** bt_scan_conn_attempts_filter_clear. */
    method Clear()
      requires Valid()
      modifies this`oldestIdx, this`count, device
      ensures Valid() && Queue() == []
    {
      for i := 0 to device.Length
        invariant forall k | 0 <= k < i :: device[k] == Device(0, 0)
      {
        device[i] := Device(0, 0);
      }
      oldestIdx, count := 0, 0;
    }

    /** The connected callback. */
    method Connected(a: Addr, err: nat)
      requires Valid()
      modifies this`oldestIdx, this`count, device
      ensures Valid() && Queue() == Next(old(Queue()), device.Length, limit, Event.Connected(a, err != 0))
    {
      DeviceAdd(a);
      if err != 0 {
        CountAttempt(a);
      }
    }

    /** The disconnected callback. */
    method Disconnected(a: Addr)
      requires Valid()
      modifies device
      ensures Valid() && Queue() == Next(old(Queue()), device.Length, limit, Event.Disconnected(a))
    {
      CountAttempt(a);
    }
  }

  // ---- runs ----

  /** The queue after a history, from an empty filter. */
  ghost function After(es: seq<Event>, capacity: nat, limit: nat): seq<Device>
    requires capacity > 0
  {
    if es == [] then [] else Next(After(es[..|es| - 1], capacity, limit), capacity, limit, es[|es| - 1])
  }

  /** Event `k` puts `a` into the queue. */
  ghost predicate InsertedAt(es: seq<Event>, k: int, a: Addr, capacity: nat, limit: nat)
    requires capacity > 0
  {
    0 <= k < |es| && es[k].Connected? && es[k].addr == a && !Present(After(es[..k], capacity, limit), a)
  }

  ghost predicate Counts(e: Event, a: Addr) {
    (e.Connected? && e.addr == a && e.failed) || (e.Disconnected? && e.addr == a)
  }

  /** Failed connections to `a` and disconnections from it, from event `k` on. */
  ghost function Counted(es: seq<Event>, k: nat, a: Addr): nat
    requires k <= |es|
  {
    if k == |es| then 0
    else (if Counts(es[|es| - 1], a) then 1 else 0) + Counted(es[..|es| - 1], k, a)
  }

  /** One event more, which does not insert `a`. */
  lemma {:induction false} NoLaterInsertion(init: seq<Event>, es: seq<Event>, k: nat, a: Addr, capacity: nat,
                                           limit: nat)
    requires capacity > 0 && es != [] && init == es[..|es| - 1] && InsertedAt(init, k, a, capacity, limit)
    requires forall j | k < j < |init| :: !InsertedAt(init, j, a, capacity, limit)
    requires !InsertedAt(es, |init|, a, capacity, limit)
    ensures InsertedAt(es, k, a, capacity, limit)
    ensures forall j | k < j < |es| :: !InsertedAt(es, j, a, capacity, limit)
  {
    assert es[..k] == init[..k];
    forall j | k < j < |init|
      ensures !InsertedAt(es, j, a, capacity, limit)
    {
      assert es[..j] == init[..j] && !InsertedAt(init, j, a, capacity, limit);
    }
  }

  /** Over every history: the queue stays within its capacity and free of duplicates, and a device in it has been
      there since an insertion `k` that no later one repeats; its counter is the number of counted events since
      then, capped at the limit. */
  lemma {:induction false} CounterIsHistory(es: seq<Event>, capacity: nat, limit: nat, i: nat) returns (k: int)
    requires capacity > 0 && i < |After(es, capacity, limit)|
    ensures var d := After(es, capacity, limit)[i];
            && InsertedAt(es, k, d.addr, capacity, limit)
            && (forall j | k < j < |es| :: !InsertedAt(es, j, d.addr, capacity, limit))
            && d.attempts == Min(limit, Counted(es, k, d.addr))
  {
    var init, e := es[..|es| - 1], es[|es| - 1];
    var q, r := After(init, capacity, limit), After(es, capacity, limit);
    var a := r[i].addr;
    QueueInvariant(init, capacity, limit);
    if p :| 0 <= p < |q| && q[p].addr == a && e != Cleared {
      k := CounterIsHistory(init, capacity, limit, p);
      OldDevice(q, capacity, limit, e, i, p);
      NoLaterInsertion(init, es, k, a, capacity, limit);
    } else {
      k := |es| - 1;
      assert es[..k] == init;
      NewDevice(q, capacity, limit, e, i);
      assert Counted(es, k, a) == (if Counts(e, a) then 1 else 0) + Counted(init, k, a);
    }
  }

  lemma OldDevice(q: seq<Device>, capacity: nat, limit: nat, e: Event, i: nat, p: nat)
    requires capacity > 0 && NoDuplicates(q) && p < |q| && e != Cleared
    requires i < |Next(q, capacity, limit, e)| && Next(q, capacity, limit, e)[i].addr == q[p].addr
    ensures !(e.Connected? && !Present(q, q[p].addr))
    ensures Next(q, capacity, limit, e)[i] == if Counts(e, q[p].addr) then Bumped(q[p], limit, q[p].addr) else q[p]
  {
    var a := q[p].addr;
    if e.Connected? && !Present(q, e.addr) {
      assert e.addr != a;
      var kept := if |q| < capacity then q else q[1..];
      assert Insert(q, capacity, e.addr) == kept + [Device(e.addr, 0)];
      var shift := if |q| < capacity then 0 else 1;
      assert i < |kept| && kept[i] == q[i + shift];
      assert i + shift == p;
    } else {
      assert i == p;
    }
  }

  lemma NewDevice(q: seq<Device>, capacity: nat, limit: nat, e: Event, i: nat)
    requires capacity > 0 && i < |Next(q, capacity, limit, e)|
    requires e == Cleared || !Present(q, Next(q, capacity, limit, e)[i].addr)
    ensures var d := Next(q, capacity, limit, e)[i];
            && e == Event.Connected(d.addr, Counts(e, d.addr))
            && d.attempts == Min(limit, if Counts(e, d.addr) then 1 else 0)
  {
  }

  lemma {:induction false} QueueInvariant(es: seq<Event>, capacity: nat, limit: nat)
    requires capacity > 0
    ensures var q := After(es, capacity, limit); NoDuplicates(q) && |q| <= capacity
  {
    if es != [] {
      QueueInvariant(es[..|es| - 1], capacity, limit);
    }
  }

  // ---- first in, first out ----

  /** How many devices were put into the queue from event `k` on. */
  ghost function Insertions(es: seq<Event>, k: nat, capacity: nat, limit: nat): nat
    requires capacity > 0 && k <= |es|
  {
    if k == |es| then 0
    else
      (if es[|es| - 1].Connected? && InsertedAt(es, |es| - 1, es[|es| - 1].addr, capacity, limit) then 1 else 0)
      + Insertions(es[..|es| - 1], k, capacity, limit)
  }

  /** Since event `k` nothing was cleared, and `a` was not put in again. */
  ghost predicate Undisturbed(es: seq<Event>, k: int, a: Addr, capacity: nat, limit: nat)
    requires capacity > 0
  {
    forall j | k < j < |es| && j >= 0 :: es[j] != Cleared && !InsertedAt(es, j, a, capacity, limit)
  }

  /** `a` was put in by event `k`, and fewer than `capacity` devices after it. */
  ghost predicate HeldSince(es: seq<Event>, k: int, a: Addr, capacity: nat, limit: nat)
    requires capacity > 0
  {
    InsertedAt(es, k, a, capacity, limit) && Undisturbed(es, k, a, capacity, limit)
    && Insertions(es, k + 1, capacity, limit) < capacity
  }

  lemma {:induction false} ShorterHistory(init: seq<Event>, es: seq<Event>, k: nat, a: Addr, capacity: nat, limit: nat)
    requires capacity > 0 && k < |es| - 1 && init == es[..|es| - 1]
    ensures InsertedAt(es, k, a, capacity, limit) <==> InsertedAt(init, k, a, capacity, limit)
    ensures Undisturbed(es, k, a, capacity, limit) ==> Undisturbed(init, k, a, capacity, limit)
  {
    assert es[..k] == init[..k];
    if Undisturbed(es, k, a, capacity, limit) {
      forall j | k < j < |init|
        ensures init[j] != Cleared && !InsertedAt(init, j, a, capacity, limit)
      {
        assert es[..j] == init[..j] && es[j] == init[j] && !InsertedAt(es, j, a, capacity, limit);
      }
    }
  }

  /** `a` is `n` places from the end, or pushed out. */
  ghost predicate Queued(q: seq<Device>, a: Addr, n: nat, capacity: nat) {
    if n < capacity then n < |q| && q[|q| - 1 - n].addr == a else !Present(q, a)
  }

  /** One more insertion behind `a`, which is `n` places from the end. */
  lemma {:induction false} OneBehind(q: seq<Device>, r: seq<Device>, capacity: nat, a: Addr, b: Addr, n: nat)
    requires NoDuplicates(q) && |q| <= capacity && capacity > 0 && a != b && !Present(q, b)
    requires Queued(q, a, n, capacity)
    requires |r| == |Insert(q, capacity, b)| && forall i | 0 <= i < |r| :: r[i].addr == Insert(q, capacity, b)[i].addr
    ensures Queued(r, a, n + 1, capacity)
  {
    var kept := if |q| < capacity then q else q[1..];
    assert Insert(q, capacity, b) == kept + [Device(b, 0)];
    if n + 1 < capacity {
      assert r[|r| - 2 - n].addr == kept[|kept| - 1 - n].addr == a;
    } else if n < capacity {
      assert q[0].addr == a && |q| == capacity;
      assert forall i | 0 <= i < |kept| :: kept[i] == q[i + 1];
    }
  }

  /** First in, first out, over every history: a device put in by event `k` is as many places from the end of the queue
      as devices came after it, until these are `capacity` many; then it is gone. */
  lemma {:induction false} FirstInFirstOut(es: seq<Event>, k: nat, a: Addr, capacity: nat, limit: nat)
    requires capacity > 0 && InsertedAt(es, k, a, capacity, limit) && Undisturbed(es, k, a, capacity, limit)
    ensures Queued(After(es, capacity, limit), a, Insertions(es, k + 1, capacity, limit), capacity)
  {
    var init, e := es[..|es| - 1], es[|es| - 1];
    var q, r := After(init, capacity, limit), After(es, capacity, limit);
    assert r == Next(q, capacity, limit, e);
    if k == |es| - 1 {
      assert es[..k] == init;
      assert r[|r| - 1].addr == a;
    } else {
      ShorterHistory(init, es, k, a, capacity, limit);
      FirstInFirstOut(init, k, a, capacity, limit);
      QueueInvariant(init, capacity, limit);
      assert es[..|es| - 1] == init && e != Cleared && !InsertedAt(es, |es| - 1, a, capacity, limit);
      if e.Connected? && !Present(q, e.addr) {
        OneBehind(q, r, capacity, a, e.addr, Insertions(init, k + 1, capacity, limit));
      } else {
        assert |r| == |q| && forall i | 0 <= i < |q| :: r[i].addr == q[i].addr;
      }
    }
  }

  /** A device that was not put in since the last clearing is not in the queue. */
  lemma {:induction false} GoneSinceCleared(es: seq<Event>, k: nat, a: Addr, capacity: nat, limit: nat)
    requires capacity > 0 && k < |es| && es[k] == Cleared
    requires forall j | k < j < |es| :: !InsertedAt(es, j, a, capacity, limit)
    ensures !Present(After(es, capacity, limit), a)
  {
    var init, e := es[..|es| - 1], es[|es| - 1];
    if k < |es| - 1 {
      forall j | k < j < |init|
        ensures !InsertedAt(init, j, a, capacity, limit)
      {
        assert es[..j] == init[..j] && !InsertedAt(es, j, a, capacity, limit);
      }
      GoneSinceCleared(init, k, a, capacity, limit);
      assert !InsertedAt(es, |es| - 1, a, capacity, limit);
      StaysOut(After(init, capacity, limit), capacity, limit, e, a);
    }
  }

  lemma StaysOut(q: seq<Device>, capacity: nat, limit: nat, e: Event, a: Addr)
    requires capacity > 0 && !Present(q, a) && !(e.Connected? && e.addr == a)
    ensures !Present(Next(q, capacity, limit, e), a)
  {
    if e.Connected? {
      assert forall i | 0 <= i < |Insert(q, capacity, e.addr)| :: Insert(q, capacity, e.addr)[i].addr != a;
    }
  }

  /** Which devices are in the queue, from the history alone. */
  lemma {:induction false} PresentIsHistory(es: seq<Event>, a: Addr, capacity: nat, limit: nat)
    requires capacity > 0
    ensures Present(After(es, capacity, limit), a) <==> exists k :: HeldSince(es, k, a, capacity, limit)
  {
    var q := After(es, capacity, limit);
    if k :| HeldSince(es, k, a, capacity, limit) {
      FirstInFirstOut(es, k, a, capacity, limit);
      assert Present(q, a);
    }
    if i :| 0 <= i < |q| && q[i].addr == a {
      var k := EntryIsHeld(es, capacity, limit, i);
    }
  }

  /** The insertion of a queued device, and its counter. */
  lemma {:induction false} EntryIsHeld(es: seq<Event>, capacity: nat, limit: nat, i: nat) returns (k: int)
    requires capacity > 0 && i < |After(es, capacity, limit)|
    ensures var d := After(es, capacity, limit)[i];
            HeldSince(es, k, d.addr, capacity, limit) && d.attempts == Min(limit, Counted(es, k, d.addr))
  {
    var q := After(es, capacity, limit);
    var a := q[i].addr;
    k := CounterIsHistory(es, capacity, limit, i);
    assert Present(q, a);
    forall j | k < j < |es|
      ensures es[j] != Cleared
    {
      if es[j] == Cleared {
        GoneSinceCleared(es, j, a, capacity, limit);
      }
    }
    FirstInFirstOut(es, k, a, capacity, limit);
  }

  lemma HeldOnce(es: seq<Event>, k: int, j: int, a: Addr, capacity: nat, limit: nat)
    requires capacity > 0 && HeldSince(es, k, a, capacity, limit) && HeldSince(es, j, a, capacity, limit)
    ensures j == k
  {
  }

  /** Which devices are out of attempts, from the history alone: those in the queue with as many failed connections and
      disconnections since they were put in as the limit allows. */
  lemma {:induction false} ExceededIsHistory(es: seq<Event>, a: Addr, capacity: nat, limit: nat)
    requires capacity > 0
    ensures Exceeded(After(es, capacity, limit), limit, a) <==>
            exists k :: HeldSince(es, k, a, capacity, limit) && Counted(es, k, a) >= limit
  {
    var q := After(es, capacity, limit);
    if d :| d in q && d.addr == a && d.attempts >= limit {
      var i :| 0 <= i < |q| && q[i] == d;
      var k := EntryIsHeld(es, capacity, limit, i);
    }
    if k :| HeldSince(es, k, a, capacity, limit) && Counted(es, k, a) >= limit {
      FirstInFirstOut(es, k, a, capacity, limit);
      var i := |q| - 1 - Insertions(es, k + 1, capacity, limit);
      var j := EntryIsHeld(es, capacity, limit, i);
      HeldOnce(es, k, j, a, capacity, limit);
      assert q[i] in q;
    }
  }

  /** A device that has just connected is in the queue, however full that was. */
  lemma {:induction false} JustConnected(es: seq<Event>, a: Addr, failed: bool, capacity: nat, limit: nat)
    requires capacity > 0
    ensures Present(After(es + [Connected(a, failed)], capacity, limit), a)
  {
    var all := es + [Connected(a, failed)];
    assert all[..|all| - 1] == es;
    if Present(After(es, capacity, limit), a) {
      var i :| 0 <= i < |After(es, capacity, limit)| && After(es, capacity, limit)[i].addr == a;
      assert After(all, capacity, limit)[i].addr == a;
    } else {
      assert all[..|es|] == es && InsertedAt(all, |es|, a, capacity, limit);
      FirstInFirstOut(all, |es|, a, capacity, limit);
    }
  }
}
