/**
 * The 32-bit sequence numbers of uIP: four bytes, most significant first, with
 * byte-wise addition (`uip_add32`) and increment.
 */
module SequenceNumbers {
  import opened Bytes

  const TWO_32 := 0x1_0000_0000

  datatype Seq4 = Seq4(b0: byte, b1: byte, b2: byte, b3: byte) {
    /** The number the four bytes stand for. */
    function Value(): (v: nat) {
      0x1000000 * b0 + 0x10000 * b1 + 0x100 * b2 + b3
    }
  }

  lemma ValueInRange(x: Seq4)
    ensures x.Value() < TWO_32
  {
  }

  lemma ValueIsInjective(x: Seq4, y: Seq4)
    requires x.Value() == y.Value()
    ensures x == y
  {
    assert x.b0 == y.b0;
    assert x.b1 == y.b1;
    assert x.b2 == y.b2;
  }

  /** Assignment of a sum to a byte. */
  function Add8(a: byte, b: byte): (r: byte)
    ensures r == (a + b) % 256
  {
    if a + b < 256 then a + b else a + b - 256
  }

  /** `uip_add32`, with its carries found by comparison. */
  function Add32(op32: Seq4, op16: uint16): Seq4 {
    var (hi: byte, lo: byte) := (op16 / 256, op16 % 256);
    var a3 := Add8(op32.b3, lo);
    var a2 := Add8(op32.b2, hi);
    // carry out of the second byte
    var a1 := if a2 < hi then Add8(op32.b1, 1) else op32.b1;
    var a0 := if a2 < hi && a1 == 0 then Add8(op32.b0, 1) else op32.b0;
    // carry out of the lowest byte
    if a3 < lo then
      var c2 := Add8(a2, 1);
      var c1 := if c2 == 0 then Add8(a1, 1) else a1;
      var c0 := if c2 == 0 && c1 == 0 then Add8(a0, 1) else a0;
      Seq4(c0, c1, c2, a3)
    else
      Seq4(a0, a1, a2, a3)
  }

  /** The chained increment used for `iss` and for the acknowledgment of a reset. */
  function Increment(s: Seq4): Seq4 {
    var c3 := Add8(s.b3, 1);
    var c2 := if c3 == 0 then Add8(s.b2, 1) else s.b2;
    var c1 := if c3 == 0 && c2 == 0 then Add8(s.b1, 1) else s.b1;
    var c0 := if c3 == 0 && c2 == 0 && c1 == 0 then Add8(s.b0, 1) else s.b0;
    Seq4(c0, c1, c2, c3)
  }

  lemma SplitWord(w: uint16)
    ensures w == 256 * (w / 256) + w % 256
  {
  }

  /** The byte-wise addition is addition modulo 2^32. */
  lemma Add32IsModular(x: Seq4, n: uint16)
    ensures Add32(x, n).Value() == (x.Value() + n) % TWO_32
  {
    SplitWord(n);
    var r, total := Add32(x, n).Value(), x.Value() + n;
    assert r == total || r == total - TWO_32;
    ValueInRange(Add32(x, n));
  }

  lemma IncrementIsModular(x: Seq4)
    ensures Increment(x).Value() == (x.Value() + 1) % TWO_32
  {
    var r, total := Increment(x).Value(), x.Value() + 1;
    assert r == total || r == total - TWO_32;
    ValueInRange(Increment(x));
  }

  /** Offsets less than 2^32 are told apart by their sequence numbers. */
  lemma OffsetIsUnique(base: nat, m: nat, n: nat)
    requires m < TWO_32 && n < TWO_32
    ensures (base + m) % TWO_32 == (base + n) % TWO_32 ==> m == n
  {
  }

  /** Adding in two steps. */
  lemma AddTwice(base: nat, n: nat)
    ensures (base % TWO_32 + n) % TWO_32 == (base + n) % TWO_32
  {
  }

  /** `uip_acc32`, the global in which `uip_add32` leaves its result. */
  class Accumulator {
    const acc32: array<byte>

    ghost predicate Valid() {
      acc32.Length == 4
    }

    constructor ()
      ensures Valid() && fresh(acc32)
    {
      acc32 := new byte[4];
    }

    /** `uip_add32`, byte by byte in place. */
    method UipAdd32(op32: Seq4, op16: uint16)
      requires Valid()
      modifies acc32
      ensures Seq4(acc32[0], acc32[1], acc32[2], acc32[3]) == Add32(op32, op16)
      ensures Seq4(acc32[0], acc32[1], acc32[2], acc32[3]).Value() == (op32.Value() + op16) % TWO_32
    {
      Add32IsModular(op32, op16);
      acc32[3] := Add8(op32.b3, op16 % 256);
      acc32[2] := Add8(op32.b2, op16 / 256);
      acc32[1] := op32.b1;
      acc32[0] := op32.b0;
      if acc32[2] < op16 / 256 {
        acc32[1] := Add8(acc32[1], 1);
        if acc32[1] == 0 {
          acc32[0] := Add8(acc32[0], 1);
        }
      }
      if acc32[3] < op16 % 256 {
        acc32[2] := Add8(acc32[2], 1);
        if acc32[2] == 0 {
          acc32[1] := Add8(acc32[1], 1);
          if acc32[1] == 0 {
            acc32[0] := Add8(acc32[0], 1);
          }
        }
      }
    }
  }
}
