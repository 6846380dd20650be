/** Bluetooth UUIDs as the attribute protocol compares them. */
module Uuids {
  import opened Bytes

  /** A 128-bit UUID is given by its first 32 bits and the 96 bits behind them. */
  datatype Uuid = Uuid16(v16: uint16) | Uuid32(v32: uint32) | Uuid128(head: uint32, tail: nat)

  /** The last 96 bits of the Bluetooth base UUID. */
  const BASE_TAIL: nat := 0x0000_1000_8000_0080_5F9B_34FB

  const PRIMARY := Uuid16(0x2800)
  const SECONDARY := Uuid16(0x2801)
  const CHRC := Uuid16(0x2803)

  /** Short UUIDs stand for 128-bit ones built on the Bluetooth base UUID. */
  function Expand(u: Uuid): (uint32, nat) {
    match u
    case Uuid16(v) => (v, BASE_TAIL)
    case Uuid32(v) => (v, BASE_TAIL)
    case Uuid128(head, tail) => (head, tail)
  }

  /** bt_uuid_cmp(a, b) == 0. */
  predicate SameUuid(a: Uuid, b: Uuid) {
    Expand(a) == Expand(b)
  }

  predicate IsService(u: Uuid) {
    SameUuid(u, PRIMARY) || SameUuid(u, SECONDARY)
  }

  /** The assigned numbers, in whatever width they are given. */
  lemma AssignedNumbers(v: uint32)
    ensures IsService(Uuid32(v)) <==> v in {0x2800, 0x2801}
    ensures SameUuid(Uuid32(v), CHRC) <==> v == 0x2803
    ensures forall u: Uuid :: SameUuid(u, CHRC) ==> !IsService(u)
  {
  }
}
