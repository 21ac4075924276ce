/** The few pieces of .NET semantics the engine depends on: the ranges that
    `System.Random.Next` can return, C#'s integer division (which truncates
    toward zero) and 32-bit wrap-around of `int` multiplication. */
module DotNet {

  /** `r` is a value that `Random.Next(n)` can return: a number in `[0, n)`,
      or 0 when `n == 0`. For a negative `n` the call throws, so no value qualifies. */
  predicate IsNextBelow(n: int, r: int)
    // the bound `n` itself is returned only by `Next(0)`
    ensures IsNextBelow(n, r) ==> 0 <= r <= n && (r == n ==> n == 0)
    ensures n < 0 ==> !IsNextBelow(n, r)
  {
    if n > 0 then 0 <= r < n else n == 0 && r == 0
  }

  /** `r` is a value that `Random.Next(lo, hi)` can return: a number in `[lo, hi)`,
      or `lo` itself when `lo == hi`. For `lo > hi` the call throws. */
  predicate IsNextBetween(lo: int, hi: int, r: int)
    // the upper bound `hi` is returned only when the range is empty
    ensures IsNextBetween(lo, hi, r) ==> lo <= r <= hi && (r == hi ==> lo == hi)
    ensures lo > hi ==> !IsNextBetween(lo, hi, r)
  {
    if lo < hi then lo <= r < hi else lo == hi && r == lo
  }

  function Abs(x: int): nat {
    if x < 0 then -x else x
  }

  /** Dividing magnitudes gives a magnitude, which is positive only for a positive dividend. */
  lemma DivOfNaturals(x: nat, y: nat)
    requires y > 0
    ensures 0 <= x / y && (x / y > 0 ==> x > 0)
  {
  }

  /** C#'s `a / b` on `int`: the quotient truncated toward zero. Its magnitude is
      that of the floor quotient of the magnitudes, and its sign is the sign of
      the exact quotient (or it is 0). */
  function Quot(a: int, b: int): (q: int)
    requires b != 0
    ensures Abs(q) == Abs(a) / Abs(b)
    ensures q > 0 ==> (a > 0) == (b > 0)
    ensures q < 0 ==> (a > 0) != (b > 0)
  {
    DivOfNaturals(Abs(a), Abs(b));
    var m := Abs(a) / Abs(b);
    if (a >= 0) == (b > 0) then m else -m
  }

  /** The 32-bit two's-complement value of `x`, as C#'s unchecked `int` arithmetic
      leaves it: in the `int` range, congruent to `x` modulo 2^32, and `x` itself
      when `x` fits. */
  function Wrap32(x: int): (r: int)
    ensures -0x8000_0000 <= r < 0x8000_0000
    ensures (x - r) % 0x1_0000_0000 == 0
    ensures -0x8000_0000 <= x < 0x8000_0000 ==> r == x
  {
    var m := x % 0x1_0000_0000;
    if m >= 0x8000_0000 then m - 0x1_0000_0000 else m
  }
}
