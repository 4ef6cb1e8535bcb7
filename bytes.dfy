/**
  * Raw node storage as the dumper sees it: bytes, the zero test
  * `is_all_zero`, and the value of a multi-byte field.
  */
module Bytes {

  /** One byte of a node's storage, as `unsigned char` sees it. */
  newtype byte = x: int | 0 <= x < 256

  /** Every byte of `s` is zero. */
  predicate AllZero(s: seq<byte>) {
    forall i :: 0 <= i < |s| ==> s[i] == 0
  }

  /** `n` zero bytes (what `memset(p, 0, n)` leaves behind). */
  function Zeros(n: nat): (z: seq<byte>)
    ensures |z| == n && AllZero(z)
  {
    seq(n, _ => 0)
  }

  /**
    * `is_all_zero(data, size)`: scans `[0, size)` and stops at the first
    * nonzero byte.
    */
  method IsAllZero(data: array<byte>, size: nat) returns (zero: bool)
    requires size <= data.Length
    ensures zero <==> AllZero(data[..size])
  {
    var i := 0;
    while i < size
      invariant 0 <= i <= size
      invariant AllZero(data[..i])
    {
      if data[i] != 0 {
        assert data[..size][i] != 0;
        return false;
      }
      i := i + 1;
    }
    assert data[..i] == data[..size];
    return true;
  }

  /** The unsigned value of a field stored least significant byte first. */
  function LittleEndian(s: seq<byte>): nat {
    if s == [] then 0 else s[0] as nat + 256 * LittleEndian(s[1..])
  }

  /** A field is "present" (nonzero as an integer or pointer) exactly when one of its bytes is. */
  lemma {:induction false} LittleEndianZero(s: seq<byte>)
    ensures LittleEndian(s) == 0 <==> AllZero(s)
  {
    if s != [] {
      LittleEndianZero(s[1..]);
      assert AllZero(s) <==> s[0] == 0 && AllZero(s[1..]) by {
        if s[0] == 0 && AllZero(s[1..]) {
          forall i | 0 <= i < |s| ensures s[i] == 0 {
            if i > 0 { assert s[i] == s[1..][i - 1]; }
          }
        }
        if AllZero(s) {
          forall i | 0 <= i < |s| - 1 ensures s[1..][i] == 0 {
            assert s[1..][i] == s[i + 1];
          }
        }
      }
    }
  }

  /** A little-endian field of `n` bytes holds a value below 256^n. */
  function Pow256(n: nat): (p: nat)
    ensures p >= 1
  {
    if n == 0 then 1 else 256 * Pow256(n - 1)
  }

  lemma {:induction false} LittleEndianBound(s: seq<byte>)
    ensures LittleEndian(s) < Pow256(|s|)
  {
    if s != [] {
      LittleEndianBound(s[1..]);
    }
  }

  /**
    * Bitwise `x & m` on unsigned integers, bit by bit from the least
    * significant end.
    */
  function And(x: nat, m: nat): nat
    decreases x
  {
    if x == 0 || m == 0 then 0 else 2 * And(x / 2, m / 2) + (if x % 2 == 1 && m % 2 == 1 then 1 else 0)
  }

  /** Bitwise `x & ~m`: `x` with the bits of the mask `m` cleared. */
  function AndNot(x: nat, m: nat): nat
    decreases x
  {
    if x == 0 then 0 else 2 * AndNot(x / 2, m / 2) + (if x % 2 == 1 && m % 2 == 0 then 1 else 0)
  }

  /** Clearing bits never makes a value larger, so a cleared byte is still a byte. */
  lemma {:induction false} AndNotAtMost(x: nat, m: nat)
    ensures AndNot(x, m) <= x
  {
    if x != 0 {
      AndNotAtMost(x / 2, m / 2);
    }
  }

  /** After `x &= ~m` no bit of the mask is left. */
  lemma {:induction false} AndNotClears(x: nat, m: nat)
    ensures And(AndNot(x, m), m) == 0
  {
    if x != 0 && m != 0 {
      AndNotClears(x / 2, m / 2);
      var y := AndNot(x, m);
      assert y / 2 == AndNot(x / 2, m / 2);
    }
  }

  /** When no masked bit is set, clearing the mask changes nothing. */
  lemma {:induction false} AndNotNoop(x: nat, m: nat)
    requires And(x, m) == 0
    ensures AndNot(x, m) == x
  {
    if x != 0 {
      assert And(x / 2, m / 2) == 0;
      AndNotNoop(x / 2, m / 2);
    }
  }

  /** Bits outside the mask keep their values: for every `k` disjoint from `m`, `(x & ~m) & k == x & k`. */
  lemma {:induction false} AndNotKeeps(x: nat, m: nat, k: nat)
    requires And(k, m) == 0
    ensures And(AndNot(x, m), k) == And(x, k)
  {
    if x != 0 && k != 0 {
      if m != 0 {
        AndNotKeeps(x / 2, m / 2, k / 2);
      } else {
        AndNotNoop(x, m);
      }
      var y := AndNot(x, m);
      assert y / 2 == AndNot(x / 2, m / 2) && y % 2 == (if x % 2 == 1 && m % 2 == 0 then 1 else 0);
    }
  }

  /** `1 << k`. */
  function Pow2(k: nat): (p: nat)
    ensures p >= 1
  {
    if k == 0 then 1 else 2 * Pow2(k - 1)
  }

  /** Bit `k` of `x`, counted from the least significant end. */
  function BitAt(x: nat, k: nat): nat {
    if k == 0 then x % 2 else BitAt(x / 2, k - 1)
  }

  /**
    * The value of the bit-field that the mask `m` selects in the word `x`,
    * `(x & m) >> shift`: word and mask move right together until the
    * mask's lowest bit is bit 0.
    */
  function Extract(x: nat, m: nat): nat
    requires m > 0
    decreases m
  {
    if m % 2 == 1 then And(x, m) else Extract(x / 2, m / 2)
  }

  /**
    * A one-bit bit-field at bit `k` reads as bit `k` of the word, so it is
    * always 0 or 1.
    */
  lemma {:induction false} OneBit(x: nat, k: nat)
    ensures Extract(x, Pow2(k)) == BitAt(x, k) <= 1
  {
    if k == 0 {
      assert And(x / 2, 0) == 0;
      assert And(x, 1) == x % 2;
    } else {
      OneBit(x / 2, k - 1);
      assert Pow2(k) / 2 == Pow2(k - 1) && Pow2(k) % 2 == 0;
    }
  }
}
