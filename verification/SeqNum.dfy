/** Modular sequence numbers (include/tcp.h).

    The code keeps sequence numbers in `uint32_t` and compares them with the sign of their
    32-bit difference.  The specifications of this project use unbounded numbers instead;
    `Wrap` maps the latter to the former, and `DiffExact` is the bridge between the two. */
module SeqNum {

  const M16 := 0x1_0000
  const M32 := 0x1_0000_0000
  const HALF := 0x8000_0000

  type u8 = x: int | 0 <= x < 0x100
  type u16 = x: int | 0 <= x < 0x1_0000
  type u32 = x: int | 0 <= x < 0x1_0000_0000

  function Min(a: int, b: int): int { if a < b then a else b }

  function Max(a: int, b: int): int { if a < b then b else a }

  function Wrap(n: int): u32 {
    n % M32
  }

  function Wrap16(n: int): u16 {
    n % M16
  }

  /** `(int)(a - b)` for two `uint32_t`. */
  function Diff(a: u32, b: u32): (d: int)
    ensures -HALF <= d < HALF
  {
    var d := a - b;
    if d < -HALF then d + M32 else if d >= HALF then d - M32 else d
  }

  predicate SeqLt(a: u32, b: u32) { Diff(a, b) < 0 }

  predicate SeqLe(a: u32, b: u32) { Diff(a, b) <= 0 }

  predicate SeqGt(a: u32, b: u32) { Diff(a, b) > 0 }

  predicate SeqGe(a: u32, b: u32) { Diff(a, b) >= 0 }

  /** The number congruent to `x` that is closest to `near`: what the code takes `x` to mean. */
  function Unwrap(x: u32, near: int): (n: int)
    ensures -HALF <= n - near < HALF
    ensures Wrap(n) == x
  {
    WrapPlusDiff(x, near);
    near + Diff(x, Wrap(near))
  }

  lemma WrapPlusDiff(x: u32, near: int)
    ensures Wrap(near + Diff(x, Wrap(near))) == x
  {
    var q := near / M32;
    assert near == q * M32 + Wrap(near);
    var d := Diff(x, Wrap(near));
    assert Wrap(near) + d == x || Wrap(near) + d == x - M32 || Wrap(near) + d == x + M32;
    if Wrap(near) + d == x {
      WrapUnique(near + d, q, x);
    } else if Wrap(near) + d == x - M32 {
      WrapUnique(near + d, q - 1, x);
    } else {
      WrapUnique(near + d, q + 1, x);
    }
  }

  lemma WrapUnique(n: int, q: int, x: u32)
    requires n == q * M32 + x
    ensures Wrap(n) == x
  {
  }

  lemma WrapAdd(a: int, n: int)
    ensures Wrap(Wrap(a) + n) == Wrap(a + n)
  {
    var q := a / M32;
    var q' := (a + n) / M32;
    WrapUnique(Wrap(a) + n, q' - q, Wrap(a + n));
  }

  /** The signed 32-bit difference of two wrapped numbers is their true difference, exactly
      when that fits in 31 bits. */
  lemma DiffExact(a: int, b: int)
    ensures Diff(Wrap(a), Wrap(b)) == a - b <==> -HALF <= a - b < HALF
  {
    var qa := a / M32;
    var qb := b / M32;
    assert a == qa * M32 + Wrap(a) && b == qb * M32 + Wrap(b);
    var d := Diff(Wrap(a), Wrap(b));
    if -HALF <= a - b < HALF {
      var k := qa - qb;
      assert a - b == k * M32 + (Wrap(a) - Wrap(b));
      assert -2 < k < 2;
    }
  }

  /** For numbers less than 2^32 apart the modular order is the true order exactly when
      they are in the same half range; outside it the modular order is the reverse. */
  lemma SeqLtExact(a: int, b: int)
    requires -M32 < a - b < M32
    ensures (SeqLt(Wrap(a), Wrap(b)) <==> a < b) <==> -HALF <= a - b < HALF
  {
    DiffExact(a, b);
    if a - b >= HALF {
      DiffExact(a - M32, b);
      WrapUnique(a - M32, a / M32 - 1, Wrap(a));
    } else if a - b < -HALF {
      DiffExact(a + M32, b);
      WrapUnique(a + M32, a / M32 + 1, Wrap(a));
    }
  }

  /** The same for sums of a wrapped number and a length. */
  lemma DiffSum(a: int, n: int, b: int, m: int)
    requires -HALF <= (a + n) - (b + m) < HALF
    ensures Diff(Wrap(Wrap(a) + n), Wrap(Wrap(b) + m)) == (a + n) - (b + m)
  {
    WrapAdd(a, n);
    WrapAdd(b, m);
    DiffExact(a + n, b + m);
  }

  /** Numbers less than 2^32 apart are equal when they are equal modulo 2^32. */
  lemma WrapInjective(a: int, b: int)
    requires -HALF <= a - b < HALF
    ensures Wrap(a) == Wrap(b) <==> a == b
  {
    DiffExact(a, b);
  }

  /** `(int)x` for a `uint32_t`. */
  function Signed(x: u32): int { Diff(x, 0) }

  lemma SignedExact(x: int)
    requires -HALF <= x < HALF
    ensures Signed(Wrap(x)) == x
  {
    DiffExact(x, 0);
  }

  lemma WrapSmall(x: int)
    requires 0 <= x < M32
    ensures Wrap(x) == x
  {
  }

  /** The distance back to an earlier number, less than 2^32 before. */
  lemma WrapDiff(a: int, b: int)
    requires 0 <= a - b < M32
    ensures Wrap(Wrap(a) - Wrap(b)) == a - b
  {
    WrapUnique(Wrap(a) - Wrap(b), b / M32 - a / M32, a - b);
  }

  lemma WrapDiff16(a: int, b: int)
    requires 0 <= a - b < M16
    ensures Wrap16(Wrap16(a) - Wrap16(b)) == a - b
  {
  }

  lemma WrapAdd16(a: int, n: int)
    ensures Wrap16(Wrap16(a) + n) == Wrap16(a + n)
  {
  }
}
