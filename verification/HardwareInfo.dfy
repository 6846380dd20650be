/** The hardware-info response: a number and six length-prefixed strings (src/gopro_packet.c). */
module HardwareInfo {
  import opened Bytes

  const TEXT_SIZE := 20
  const TEXTS := 5  // model name, firmware version, serial number, AP SSID, AP MAC; a sixth string is skipped
  const RESERVED := 11

  // ---- bitwise or, and the number it builds ----

  function Pow256(k: nat): (p: nat)
    ensures p > 0
  {
    if k == 0 then 1 else 256 * Pow256(k - 1)
  }

  function Pow2(k: nat): nat {
    if k == 0 then 1 else 2 * Pow2(k - 1)
  }

  /** C's `v << 8 * k`, where nothing is shifted out. */
  function Shift(v: nat, k: nat): (r: nat)
    ensures r == v * Pow256(k)
    decreases k
  {
    if k == 0 then v else Shift(256 * v, k - 1)
  }

  /** C's `|` on unsigned numbers, bit by bit. */
  function Or(a: nat, b: nat): nat {
    if a == 0 && b == 0 then 0
    else 2 * Or(a / 2, b / 2) + (if a % 2 == 1 || b % 2 == 1 then 1 else 0)
  }

  /** Numbers without a common bit: below and above a power of two. */
  lemma {:induction false} OrDisjoint(high: nat, low: nat, bits: nat, bound: nat)
    requires low < bound && bound == Pow2(bits)
    ensures Or(high * bound, low) == high * bound + low
  {
    if bits == 0 {
      OrWithZero(high);
    } else {
      var half := Pow2(bits - 1);
      assert high * bound == 2 * (high * half);
      OrDisjoint(high, low / 2, bits - 1, half);
      assert high * bound / 2 == high * half && high * bound % 2 == 0;
    }
  }

  lemma {:induction false} OrWithZero(a: nat)
    ensures Or(a, 0) == a
  {
    if a > 0 {
      OrWithZero(a / 2);
    }
  }

  lemma {:induction false} Pow256IsPow2(k: nat)
    ensures Pow256(k) == Pow2(8 * k)
  {
    if k > 0 {
      Pow256IsPow2(k - 1);
      assert Pow2(8 * k) == 2 * Pow2(8 * k - 1) == 4 * Pow2(8 * k - 2) == 8 * Pow2(8 * k - 3) == 16 * Pow2(8 * k - 4);
      assert Pow2(8 * k - 4) == 2 * Pow2(8 * k - 5) == 4 * Pow2(8 * k - 6) == 8 * Pow2(8 * k - 7)
             == 16 * Pow2(8 * k - 8);
    }
  }

  lemma ByteBelow(v: nat, d: byte, p: nat, q: nat)
    requires q == 256 * p && p > 0
    ensures 0 <= d * p < q && (v * 256 + d) * p == v * q + d * p
  {
    assert v * q == v * 256 * p;
  }

  /** Adding one byte below the bytes already there. */
  lemma OrNextByte(v: nat, d: byte, k: nat)
    ensures Or(Shift(v, k + 1), Shift(d, k)) == Shift(v * 256 + d, k)
  {
    var p, q := Pow256(k), Pow256(k + 1);
    Pow256IsPow2(k + 1);
    ByteBelow(v, d, p, q);
    OrDisjoint(v, d * p, 8 * (k + 1), q);
  }

  /** The model-number loop: big-endian bytes or-ed into place. */
  method ReadModelNumber(mem: Memory, n: nat) returns (modelNumber: nat)
    requires n <= 4
    ensures modelNumber == BigEndian(Slice(mem, 1, n)) < TWO32
  {
    modelNumber := 0;
    var i: nat := n;
    while i > 0
      invariant 0 <= i <= n
      invariant modelNumber == Shift(BigEndian(Slice(mem, 1, n - i)), i)
    {
      ghost var prefix := Slice(mem, 1, n - i);
      assert Slice(mem, 1, n - i + 1)[..n - i] == prefix;
      OrNextByte(BigEndian(prefix), mem(1 + n - i), i - 1);
      modelNumber := Or(modelNumber, Shift(mem(1 + n - i), i - 1));
      i := i - 1;
    }
    FourBytesFit(Slice(mem, 1, n));
  }

  lemma FourBytesFit(s: seq<byte>)
    requires |s| <= 4
    ensures BigEndian(s) < TWO32
  {
    BigEndianBound(s);
    assert Pow256(1) == 256 && Pow256(2) == 256 * Pow256(1) && Pow256(3) == 256 * Pow256(2);
  }

  lemma {:induction false} BigEndianBound(s: seq<byte>)
    ensures BigEndian(s) < Pow256(|s|)
  {
    if s != [] {
      BigEndianBound(s[..|s| - 1]);
    }
  }

  // ---- the strings ----

  /** memcpy of `s` and the terminator that follows; older bytes stay behind it. */
  function Stored(field: seq<byte>, s: seq<byte>): seq<byte>
    requires |s| < |field|
  {
    s + [0] + field[|s| + 1..]
  }

  /** How the parse ends: at an index, or at the text that does not fit. */
  datatype Outcome = Done(index: nat) | BadModelNumber | TooLong(text: nat)

  /** The final check: the parse got to the end, and the packet is just as long with the reserved bytes. */
  ghost predicate LengthChecks(outcome: Outcome, packetLen: uint32) {
    outcome.Done? && outcome.index + RESERVED == packetLen
  }

  ghost predicate IsTexts(fields: seq<seq<byte>>) {
    |fields| == TEXTS && forall i | 0 <= i < TEXTS :: |fields[i]| == TEXT_SIZE
  }

  /** Where text `k + 1` starts if text `k` starts at `at`; the skipped string comes after text 0. */
  function NextAt(mem: Memory, at: nat, k: nat): nat {
    var next := at + 1 + mem(at);
    if k == 0 then next + 1 + mem(next) else next
  }

  /** How reading texts `k` and later ends. */
  ghost function EndOf(mem: Memory, at: nat, k: nat): Outcome
    requires k <= TEXTS
    decreases TEXTS - k
  {
    if k == TEXTS then Done(at)
    else if mem(at) >= TEXT_SIZE then TooLong(k)
    else EndOf(mem, NextAt(mem, at, k), k + 1)
  }

  /** What it stores. */
  ghost function Texts(mem: Memory, at: nat, fields: seq<seq<byte>>, k: nat): seq<seq<byte>>
    requires IsTexts(fields) && k <= TEXTS
    decreases TEXTS - k
  {
    if k == TEXTS || mem(at) >= TEXT_SIZE then fields
    else Texts(mem, NextAt(mem, at, k), fields[k := Stored(fields[k], Slice(mem, at + 1, mem(at)))], k + 1)
  }

  /** The texts of `gopro_state`. */
  class HardwareTexts {
    const modelName: array<byte>
    const firmwareVersion: array<byte>
    const serialNumber: array<byte>
    const wifiSsid: array<byte>
    const apMac: array<byte>

    ghost predicate Valid() {
      && modelName.Length == firmwareVersion.Length == serialNumber.Length == wifiSsid.Length == apMac.Length
         == TEXT_SIZE
      && modelName !in {firmwareVersion, serialNumber, wifiSsid, apMac}
      && firmwareVersion !in {serialNumber, wifiSsid, apMac}
      && serialNumber !in {wifiSsid, apMac}
      && wifiSsid != apMac
    }

    ghost function Abs(): (fields: seq<seq<byte>>)
      requires Valid()
      reads modelName, firmwareVersion, serialNumber, wifiSsid, apMac
      ensures IsTexts(fields)
    {
      [modelName[..], firmwareVersion[..], serialNumber[..], wifiSsid[..], apMac[..]]
    }

    constructor ()
      ensures Valid() && fresh({modelName, firmwareVersion, serialNumber, wifiSsid, apMac})
    {
      modelName, firmwareVersion, serialNumber := new byte[TEXT_SIZE], new byte[TEXT_SIZE], new byte[TEXT_SIZE];
      wifiSsid, apMac := new byte[TEXT_SIZE], new byte[TEXT_SIZE];
    }

    /** One length-prefixed string into one field, unless it is too long. */
    static method TakeText(mem: Memory, at: nat, field: array<byte>) returns (ok: bool, next: nat)
      requires field.Length == TEXT_SIZE
      modifies field
      ensures ok <==> mem(at) < TEXT_SIZE
      ensures ok ==> next == at + 1 + mem(at) && field[..] == Stored(old(field[..]), Slice(mem, at + 1, mem(at)))
      ensures !ok ==> field[..] == old(field[..])
    {
      var n := mem(at);
      if n >= TEXT_SIZE {
        return false, at + 1;
      }
      for i := 0 to n
        invariant field[..i] == Slice(mem, at + 1, i) && field[i..] == old(field[..])[i..]
      {
        assert field[i + 1..] == old(field[..])[i + 1..];
        field[i] := mem(at + 1 + i);
        assert field[..i + 1] == field[..i] + [mem(at + 1 + i)];
      }
      assert field[n + 1..] == old(field[..])[n + 1..];
      field[n] := 0;
      assert field[..] == field[..n] + [field[n]] + field[n + 1..];
      return true, at + 1 + n;
    }

    ghost function Field(k: nat): array<byte>
      requires k < TEXTS
    {
      [modelName, firmwareVersion, serialNumber, wifiSsid, apMac][k]
    }

    /** The same, seen from the whole parse: either it ends here, or the rest of it remains to be done. */
    method TakeField(mem: Memory, at: nat, field: array<byte>, ghost k: nat) returns (ok: bool, next: nat)
      requires Valid() && k < TEXTS && field == Field(k)
      modifies field
      ensures ok ==> next == at + 1 + mem(at)
                     && EndOf(mem, at, k) == EndOf(mem, NextAt(mem, at, k), k + 1)
                     && Texts(mem, at, old(Abs()), k) == Texts(mem, NextAt(mem, at, k), Abs(), k + 1)
      ensures !ok ==> EndOf(mem, at, k) == TooLong(k) && Texts(mem, at, old(Abs()), k) == Abs()
    {
      ok, next := TakeText(mem, at, field);
      assert ok ==> Abs() == old(Abs())[k := field[..]];
      assert !ok ==> Abs() == old(Abs());
    }

    /** gopro_parse_response_hw_info, on the bytes behind feature and action. */
    method Parse(mem: Memory, packetLen: uint32) returns (ghost outcome: Outcome, modelNumber: nat, complete: bool)
      requires Valid()
      modifies modelName, firmwareVersion, serialNumber, wifiSsid, apMac
      ensures mem(0) > 4 ==> outcome == BadModelNumber && Abs() == old(Abs())
      ensures mem(0) <= 4 ==>
                && modelNumber == BigEndian(Slice(mem, 1, mem(0)))
                && outcome == EndOf(mem, 1 + mem(0), 0) && Abs() == Texts(mem, 1 + mem(0), old(Abs()), 0)
      ensures complete <==> LengthChecks(outcome, packetLen)
    {
      outcome, modelNumber, complete := BadModelNumber, 0, false;
      if mem(0) > 4 {
        return;
      }
      modelNumber := ReadModelNumber(mem, mem(0));
      outcome, complete := ParseTexts(mem, 1 + mem(0), packetLen);
    }

    /** The part behind the model number. */
    method ParseTexts(mem: Memory, at: nat, packetLen: uint32) returns (ghost outcome: Outcome, complete: bool)
      requires Valid()
      modifies modelName, firmwareVersion, serialNumber, wifiSsid, apMac
      ensures outcome == EndOf(mem, at, 0) && Abs() == Texts(mem, at, old(Abs()), 0)
      ensures complete <==> LengthChecks(outcome, packetLen)
    {
      complete := false;
      var ok, index := TakeField(mem, at, modelName, 0);
      if !ok {
        return TooLong(0), complete;
      }
      index := index + 1 + mem(index);
      assert index == NextAt(mem, at, 0);
      outcome, complete := ParseVersions(mem, index, packetLen);
    }

    /** The part behind the skipped string. */
    method ParseVersions(mem: Memory, at: nat, packetLen: uint32) returns (ghost outcome: Outcome, complete: bool)
      requires Valid()
      modifies firmwareVersion, serialNumber, wifiSsid, apMac
      ensures outcome == EndOf(mem, at, 1) && Abs() == Texts(mem, at, old(Abs()), 1)
      ensures complete <==> LengthChecks(outcome, packetLen)
    {
      complete := false;
      var ok, index := TakeField(mem, at, firmwareVersion, 1);
      if !ok {
        return TooLong(1), complete;
      }
      ok, index := TakeField(mem, index, serialNumber, 2);
      if !ok {
        return TooLong(2), complete;
      }
      outcome, complete := ParseNetwork(mem, index, packetLen);
    }

    /** The access point, and the final length check. */
    method ParseNetwork(mem: Memory, at: nat, packetLen: uint32) returns (ghost outcome: Outcome, complete: bool)
      requires Valid()
      modifies wifiSsid, apMac
      ensures outcome == EndOf(mem, at, 3) && Abs() == Texts(mem, at, old(Abs()), 3)
      ensures complete <==> LengthChecks(outcome, packetLen)
    {
      complete := false;
      var ok, index := TakeField(mem, at, wifiSsid, 3);
      if !ok {
        return TooLong(3), complete;
      }
      ok, index := TakeField(mem, index, apMac, 4);
      if !ok {
        return TooLong(4), complete;
      }
      outcome := Done(index);
      index := index + RESERVED;
      complete := index == packetLen;
    }
  }

  // ---- the encoding, and what parsing it restores ----

  datatype Record = Record(modelNumber: seq<byte>, texts: seq<seq<byte>>, skipped: seq<byte>) {
    /** Every length fits its byte; a text may still be too long to be stored. */
    ghost predicate Valid() {
      && |modelNumber| <= 4 && |skipped| < 0x100
      && |texts| == TEXTS && forall i | 0 <= i < TEXTS :: |texts[i]| < 0x100
    }

    /** Texts `k` and later, each behind its length, and the skipped string after text 0. */
    ghost function EncodeTexts(k: nat): seq<byte>
      requires Valid() && k <= TEXTS
      decreases TEXTS - k
    {
      if k == TEXTS then []
      else [|texts[k]|] + (texts[k] + ((if k == 0 then [|skipped|] + skipped else []) + EncodeTexts(k + 1)))
    }

    ghost function Encode(): seq<byte>
      requires Valid()
    {
      [|modelNumber|] + (modelNumber + EncodeTexts(0))
    }

    /** The first text from `k` on that does not fit its field, or TEXTS. */
    ghost function FirstTooLong(k: nat): (j: nat)
      requires Valid() && k <= TEXTS
      ensures k <= j <= TEXTS && (j < TEXTS ==> |texts[j]| >= TEXT_SIZE)
      ensures forall i | k <= i < j :: |texts[i]| < TEXT_SIZE
      decreases TEXTS - k
    {
      if k == TEXTS || |texts[k]| >= TEXT_SIZE then k else FirstTooLong(k + 1)
    }
  }

  /** Parsing an encoded record stores each text before the first that is too long, leaves that one and all later
      ones alone, and without such a text ends exactly behind the last. */
  lemma {:induction false} TakeEncodedTexts(mem: Memory, at: nat, fields: seq<seq<byte>>, r: Record, k: nat)
    requires IsTexts(fields) && r.Valid() && k <= TEXTS && Holds(mem, at, r.EncodeTexts(k))
    ensures var j := r.FirstTooLong(k);
            && EndOf(mem, at, k) == (if j == TEXTS then Done(at + |r.EncodeTexts(k)|) else TooLong(j))
            && |Texts(mem, at, fields, k)| == TEXTS
            && forall i | 0 <= i < TEXTS ::
                 Texts(mem, at, fields, k)[i] == if k <= i < j then Stored(fields[i], r.texts[i]) else fields[i]
    decreases TEXTS - k
  {
    if k < TEXTS {
      var text := r.texts[k];
      TextOnWire(mem, at, r, k);
      if |text| < TEXT_SIZE {
        TakeEncodedTexts(mem, NextAt(mem, at, k), fields[k := Stored(fields[k], text)], r, k + 1);
      }
    }
  }

  /** One text in memory: its length, its bytes, and what follows it. */
  lemma {:induction false} TextOnWire(mem: Memory, at: nat, r: Record, k: nat)
    requires r.Valid() && k < TEXTS && Holds(mem, at, r.EncodeTexts(k))
    ensures mem(at) == |r.texts[k]| && Slice(mem, at + 1, mem(at)) == r.texts[k]
    ensures Holds(mem, NextAt(mem, at, k), r.EncodeTexts(k + 1))
    ensures NextAt(mem, at, k) + |r.EncodeTexts(k + 1)| == at + |r.EncodeTexts(k)|
  {
    var text, rest := r.texts[k], r.EncodeTexts(k + 1);
    var skip := if k == 0 then [|r.skipped|] + r.skipped else [];
    HoldsCounted(mem, at, text, skip + rest);
    HoldsSplit(mem, at + 1 + |text|, skip, rest);
  }

  /** The bytes of a C string: up to its terminator. */
  function CString(field: seq<byte>): seq<byte> {
    if field == [] || field[0] == 0 then [] else [field[0]] + CString(field[1..])
  }

  lemma {:induction false} StoredReadsBack(field: seq<byte>, s: seq<byte>)
    requires |s| < |field| && 0 !in s
    ensures CString(Stored(field, s)) == s && |Stored(field, s)| == |field|
    ensures forall i | |s| < i < |field| :: Stored(field, s)[i] == field[i]
  {
    if s != [] {
      assert s[0] in s;
      assert Stored(field, s)[1..] == Stored(field[1..], s[1..]);
      StoredReadsBack(field[1..], s[1..]);
    }
  }

  /** Round trip: a record whose texts fit is restored, terminators included, and the length check succeeds exactly
      with 11 bytes behind it. */
  lemma {:induction false} RecordRoundTrip(mem: Memory, fields: seq<seq<byte>>, r: Record, packetLen: uint32)
    requires IsTexts(fields) && r.Valid() && Holds(mem, 0, r.Encode()) && r.FirstTooLong(0) == TEXTS
    ensures mem(0) == |r.modelNumber| && Slice(mem, 1, mem(0)) == r.modelNumber
    ensures EndOf(mem, 1 + mem(0), 0) == Done(|r.Encode()|)
    ensures LengthChecks(EndOf(mem, 1 + mem(0), 0), packetLen) <==> packetLen == |r.Encode()| + 11
    ensures var stored := Texts(mem, 1 + mem(0), fields, 0);
            && |stored| == TEXTS
            && forall i | 0 <= i < TEXTS && 0 !in r.texts[i] :: CString(stored[i]) == r.texts[i]
  {
    NumberOnWire(mem, r);
    TakeEncodedTexts(mem, 1 + mem(0), fields, r, 0);
    TextsReadBack(fields, r, Texts(mem, 1 + mem(0), fields, 0));
  }

  lemma {:induction false} NumberOnWire(mem: Memory, r: Record)
    requires r.Valid() && Holds(mem, 0, r.Encode())
    ensures mem(0) == |r.modelNumber| && Slice(mem, 1, mem(0)) == r.modelNumber
    ensures Holds(mem, 1 + mem(0), r.EncodeTexts(0)) && |r.Encode()| == 1 + mem(0) + |r.EncodeTexts(0)|
  {
    CountedFirst(mem, r.modelNumber, r.EncodeTexts(0), r.Encode());
  }

  lemma {:induction false} CountedFirst(mem: Memory, s: seq<byte>, t: seq<byte>, all: seq<byte>)
    requires |s| < 0x100 && Holds(mem, 0, all) && all == [|s|] + (s + t)
    ensures mem(0) == |s| && Slice(mem, 1, mem(0)) == s
    ensures Holds(mem, 1 + mem(0), t) && |all| == 1 + mem(0) + |t|
  {
    HoldsCounted(mem, 0, s, t);
  }

  lemma TextsReadBack(fields: seq<seq<byte>>, r: Record, stored: seq<seq<byte>>)
    requires IsTexts(fields) && r.Valid() && |stored| == TEXTS
    requires forall i | 0 <= i < TEXTS :: |r.texts[i]| < TEXT_SIZE && stored[i] == Stored(fields[i], r.texts[i])
    ensures forall i | 0 <= i < TEXTS && 0 !in r.texts[i] :: CString(stored[i]) == r.texts[i]
  {
    forall i | 0 <= i < TEXTS && 0 !in r.texts[i]
      ensures CString(stored[i]) == r.texts[i]
    {
      StoredReadsBack(fields[i], r.texts[i]);
    }
  }
}
