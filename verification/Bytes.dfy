/** Fixed-width integers of the firmware, the arithmetic its shifts and masks stand for, and memory. */
module Bytes {

  datatype Option<T> = None | Some(value: T)

  const TWO32: int := 0x1_0000_0000

  type byte = x: int | 0 <= x < 0x100
  type uint16 = x: int | 0 <= x < 0x1_0000
  type uint32 = x: int | 0 <= x < TWO32

  function Min(a: nat, b: nat): nat {
    if a < b then a else b
  }

  /** C's unsigned 32-bit subtraction, which wraps. */
  function Sub32(a: uint32, b: uint32): uint32 {
    if b <= a then a - b else a - b + TWO32
  }

  /** C's conversion of -1 or of a small number to `uint32_t`. */
  function ToUint32(x: int): uint32
    requires -1 <= x < TWO32
  {
    if x == -1 then TWO32 - 1 else x
  }

  /** What `memset(p, 0, n)` leaves behind. */
  function Zeros(n: nat): seq<byte> {
    seq(n, _ => 0)
  }

  /** The masks used by the frame headers, on real bit vectors, equal the arithmetic used in this project. */
  lemma HeaderMasks(b: bv8)
    ensures b & 0x80 != 0 <==> b >= 0x80
    ensures (b & 0x60) >> 5 == (b / 32) % 4
    ensures b & 0x1F == b % 32
    ensures 0x80 | (b & 0x0F) == 0x80 + b % 16
    ensures (b & 0x1F) | (1 << 5) == 32 + b % 32
  {
  }

  /** The same for lengths of two bytes, which C computes on wider integers: read from a start frame, and written. */
  lemma HeaderJoins(a: bv32, b: bv32, n: bv32)
    requires a < 0x100 && b < 0x100
    ensures ((a & 0x1F) << 8) | b == a % 32 * 256 + b
    ensures (a << 8) | b == a * 256 + b
    ensures ((n >> 8) & 0x1F) | (1 << 5) == n / 256 % 32 + 32
    ensures n & 0xFF == n % 256
  {
  }

  /** The number written by a sequence of bytes, most significant first. */
  function BigEndian(s: seq<byte>): nat {
    if s == [] then 0 else 256 * BigEndian(s[..|s| - 1]) + s[|s| - 1]
  }

  /** Memory from the start of a message on; the message is only its first bytes. */
  type Memory = nat -> byte

  ghost predicate Holds(mem: Memory, at: nat, s: seq<byte>) {
    forall i | 0 <= i < |s| :: mem(at + i) == s[i]
  }

  function Slice(mem: Memory, at: nat, n: nat): (s: seq<byte>)
    ensures |s| == n && forall i | 0 <= i < n :: s[i] == mem(at + i)
  {
    seq(n, i requires 0 <= i < n => mem(at + i))
  }

  lemma HoldsSplit(mem: Memory, at: nat, s: seq<byte>, t: seq<byte>)
    requires Holds(mem, at, s + t)
    ensures Holds(mem, at, s) && Holds(mem, at + |s|, t) && Slice(mem, at, |s|) == s
    ensures s != [] ==> mem(at) == s[0]
  {
    forall i | 0 <= i < |s|
      ensures mem(at + i) == s[i]
    {
      assert (s + t)[i] == s[i];
    }
    forall i | 0 <= i < |t|
      ensures mem(at + |s| + i) == t[i]
    {
      assert (s + t)[|s| + i] == t[i];
    }
  }

  /** A length byte, the bytes it counts, and what follows them. */
  lemma {:induction false} HoldsCounted(mem: Memory, at: nat, s: seq<byte>, t: seq<byte>)
    requires |s| < 0x100 && Holds(mem, at, [|s|] + (s + t))
    ensures mem(at) == |s| && Slice(mem, at + 1, mem(at)) == s && Holds(mem, at + 1 + |s|, t)
  {
    HoldsSplit(mem, at, [|s|], s + t);
    HoldsSplit(mem, at + 1, s, t);
  }
}
