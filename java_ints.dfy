/** Java's fixed-width integer arithmetic, written out over unbounded integers. */
module JavaInts {
  const INT_MIN: int := -0x8000_0000
  const INT_MAX: int := 0x7fff_ffff
  const TWO_32: int := 0x1_0000_0000

  newtype int32 = x: int | -0x8000_0000 <= x < 0x8000_0000
  newtype int64 = x: int | -0x8000_0000_0000_0000 <= x < 0x8000_0000_0000_0000

  /** Two's-complement wrap-around of an int result, as Java's `int` arithmetic does. */
  function Wrap32(x: int): (r: int32)
    ensures (r as int - x) % TWO_32 == 0
    ensures INT_MIN <= x <= INT_MAX ==> r as int == x
  {
    ((x - INT_MIN) % TWO_32 + INT_MIN) as int32
  }

  /** Wrapping an intermediate result changes nothing: a running `int` sum equals the wrapped total. */
  lemma {:induction false} Wrap32Add(a: int, b: int)
    ensures Wrap32(Wrap32(a) as int + b) == Wrap32(a + b)
  {
    var k := (Wrap32(a) as int - a) / TWO_32;
    assert Wrap32(a) as int == a + k * TWO_32;
    WrapShift(a + b, k);
  }

  lemma {:induction false} WrapShift(x: int, k: int)
    ensures Wrap32(x + k * TWO_32) == Wrap32(x)
  {
    ModShift(x - INT_MIN, k);
    assert x + k * TWO_32 - INT_MIN == (x - INT_MIN) + k * TWO_32;
  }

  lemma {:induction false} ModShift(y: int, k: int)
    ensures (y + k * 0x1_0000_0000) % 0x1_0000_0000 == y % 0x1_0000_0000
  {
  }

  function Abs(x: int): nat { if x < 0 then -x else x }

  /** Java's `/`, which truncates toward zero (Dafny's `/` is Euclidean). */
  function JavaDiv(a: int, b: int): (q: int)
    requires b != 0
    ensures Abs(q) == Abs(a) / Abs(b)
    ensures q == 0 || ((q < 0) <==> ((a < 0) != (b < 0)))
  {
    var u: nat := DivNat(Abs(a), Abs(b));
    if (a < 0) != (b < 0) then -(u as int) else u as int
  }

  function DivNat(a: nat, b: nat): (u: nat)
    requires b > 0
    ensures u == a / b
  {
    a / b
  }

  /** The quotient's magnitude is the largest whole number of divisors that fits. */
  lemma {:induction false} JavaDivTruncates(a: int, b: int)
    requires b != 0
    ensures Abs(JavaDiv(a, b)) * Abs(b) <= Abs(a) < (Abs(JavaDiv(a, b)) + 1) * Abs(b)
  {
    DivBounds(Abs(a), Abs(b));
  }

  lemma {:induction false} DivBounds(a: nat, b: nat)
    requires b > 0
    ensures (a / b) * b <= a < (a / b + 1) * b
  {
    var u := a / b;
    assert a == u * b + a % b;
    assert (u + 1) * b == u * b + b;
  }

  /** Dividing by a positive number never makes a non-negative number larger. */
  lemma {:induction false} QuotientSmaller(a: nat, n: nat)
    requires n >= 1
    ensures a / n <= a
  {
    var u := a / n;
    assert a == u * n + a % n;
    MulMono(u, n);
  }

  lemma {:induction false} MulMono(u: nat, n: nat)
    requires n >= 1
    ensures u <= u * n
  {
  }

  /** Math.min on ints. */
  function Min(a: int, b: int): (r: int)
    ensures r <= a && r <= b && (r == a || r == b)
  {
    if a < b then a else b
  }
}
