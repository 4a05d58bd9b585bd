/**
 * Bytes as page and log images hold them, and their bits. A byte is read as
 * unsigned; bit n has weight 2^n. Java's shifts and masks on a byte
 * ((x & (1 << n)) >> n, x ^ (1 << n), x | (1 << n)) are stated here by what
 * they do to the value: read bit n, or add or take away 2^n.
 */
module Bits {
  newtype byte = b: int | 0 <= b < 256

  function Pow2(n: nat): (r: nat)
    ensures r >= 1
  {
    if n == 0 then 1 else 2 * Pow2(n - 1)
  }

  /** Bit n of x. */
  predicate Bit(x: nat, n: nat)
  {
    if n == 0 then x % 2 == 1 else Bit(x / 2, n - 1)
  }

  /** No bit of zero is set. */
  lemma {:induction false} ZeroHasNoBits(n: nat)
    ensures !Bit(0, n)
  {
    if n > 0 {
      ZeroHasNoBits(n - 1);
    }
  }

  /** Setting a clear bit n adds 2^n; it sets bit n and leaves every other bit. */
  lemma {:induction false} SetClearBit(x: nat, n: nat, m: nat)
    requires !Bit(x, n)
    ensures Bit(x + Pow2(n), m) == (m == n || Bit(x, m))
  {
    if n == 0 {
      if m > 0 {
        assert (x + 1) / 2 == x / 2;
      }
    } else {
      var p := Pow2(n - 1);
      assert (x + Pow2(n)) / 2 == x / 2 + p;
      if m > 0 {
        SetClearBit(x / 2, n - 1, m - 1);
      }
    }
  }

  /** Clearing a set bit n takes away 2^n; it clears bit n and leaves every other bit. */
  lemma {:induction false} ClearSetBit(x: nat, n: nat, m: nat)
    requires Bit(x, n)
    ensures x >= Pow2(n)
    ensures Bit(x - Pow2(n), m) == (m != n && Bit(x, m))
  {
    if n == 0 {
      if m > 0 {
        assert (x - 1) / 2 == x / 2;
      }
    } else {
      var p := Pow2(n - 1);
      ClearSetBit(x / 2, n - 1, 0);
      assert (x - Pow2(n)) / 2 == x / 2 - p;
      if m > 0 {
        ClearSetBit(x / 2, n - 1, m - 1);
      }
    }
  }

  lemma {:induction false} SetClearBitAll(x: nat, n: nat)
    requires !Bit(x, n)
    ensures forall m: nat :: Bit(x + Pow2(n), m) == (m == n || Bit(x, m))
  {
    forall m: nat
      ensures Bit(x + Pow2(n), m) == (m == n || Bit(x, m))
    {
      SetClearBit(x, n, m);
    }
  }

  lemma {:induction false} ClearSetBitAll(x: nat, n: nat)
    requires Bit(x, n)
    ensures x >= Pow2(n)
    ensures forall m: nat :: Bit(x - Pow2(n), m) == (m != n && Bit(x, m))
  {
    ClearSetBit(x, n, 0);
    forall m: nat
      ensures Bit(x - Pow2(n), m) == (m != n && Bit(x, m))
    {
      ClearSetBit(x, n, m);
    }
  }

  /** A value below 2^k with bit n (n < k) clear stays below 2^k when bit n is set. */
  lemma {:induction false} SetClearBitBound(x: nat, n: nat, k: nat)
    requires n < k && x < Pow2(k) && !Bit(x, n)
    ensures x + Pow2(n) < Pow2(k)
  {
    var q := Pow2(k - 1);
    assert Pow2(k) == 2 * q;
    if n > 0 {
      assert Pow2(n) == 2 * Pow2(n - 1);
      SetClearBitBound(x / 2, n - 1, k - 1);
    }
  }

  /** Bit n of a byte value, n < 8, as Java's (x & (1 << n)) >> n gives it: 0 or 1. */
  function GetBit(x: byte, n: nat): (r: int)
    requires n < 8
    ensures r == 0 || r == 1
  {
    if Bit(x as int, n) then 1 else 0
  }

  /** The byte with bit n (n < 8) set or cleared and every other bit kept. */
  function WithBit(x: byte, n: nat, value: bool): (r: byte)
    requires n < 8
    ensures GetBit(r, n) == (if value then 1 else 0)
    ensures forall m :: 0 <= m < 8 && m != n ==> GetBit(r, m) == GetBit(x, m)
  {
    if Bit(x as int, n) == value then x
    else if value then
      SetClearBitBound(x as int, n, 8);
      SetClearBitAll(x as int, n);
      (x as int + Pow2(n)) as byte
    else
      ClearSetBitAll(x as int, n);
      (x as int - Pow2(n)) as byte
  }

  /** Appending byte strings is associative. */
  lemma {:induction false} AppendAssoc(a: seq<byte>, b: seq<byte>, c: seq<byte>)
    ensures (a + b) + c == a + (b + c)
  {
  }
}
