/**
 * The factorial lookup table of superpermutations.go.
 *
 * `Fact` is the mathematical definition every other module reasons with;
 * `Factorial` is the table lookup the code performs, with its guard corrected,
 * and `FactorialAsWritten` keeps the guard exactly as the source has it.
 */
module Factorials {

  /** n!, the reference definition. */
  function Fact(n: nat): (r: nat)
    ensures r >= 1
  {
    if n == 0 then 1 else n * Fact(n - 1)
  }

  /** The largest value of Go's 64-bit `int`. */
  const Int64Max: int := 0x7FFF_FFFF_FFFF_FFFF

  /** The literal table `f`: entry a is a!, for a from 0 to 20. */
  const Table: seq<int> := [1, 1, 2, 6, 24, 120, 720, 5040, 40320, 362880, 3628800,
                            39916800, 479001600, 6227020800, 87178291200, 1307674368000,
                            20922789888000, 355687428096000, 6402373705728000,
                            121645100408832000, 2432902008176640000]

  /** Why the lookup can fail: the guard's own panic, or Go's index-out-of-range panic. */
  datatype Fault = TooLarge | OutOfRange

  datatype Outcome = Ok(value: nat) | Err(fault: Fault)

  /** Every entry of the literal table is the factorial of its index. */
  lemma {:induction false} TableIsFactorial(a: nat)
    requires a < |Table|
    ensures Table[a] == Fact(a)
  {
    if a > 0 {
      TableIsFactorial(a - 1);
      TableStep(a);
    }
  }

  /** Each entry of the literal table is its index times the one before. */
  lemma TableStep(a: nat)
    requires 1 <= a < |Table|
    ensures Table[a] == a * Table[a - 1]
  {
  }

  /** The table stops where 64-bit integers do: 20! fits, 21! does not. */
  lemma TableFitsInt64()
    ensures Fact(20) <= Int64Max < Fact(21)
  {
    TableIsFactorial(20);
  }

  /**
   * `factorial` exactly as written: the guard `a > len(f)` lets a = 21 through,
   * and that call then dies on the index instead of on the guard.
   */
  function FactorialAsWritten(a: int): (r: Outcome)
    ensures 0 <= a < |Table| ==> r == Ok(Fact(a))
    ensures a == |Table| ==> r == Err(OutOfRange)
    ensures a > |Table| ==> r == Err(TooLarge)
  {
    if a > |Table| then Err(TooLarge)
    else if a < 0 || a >= |Table| then Err(OutOfRange)
    else TableIsFactorial(a); Ok(Table[a])
  }

  /**
   * `factorial` with the guard the panic message describes: every a past the
   * table is refused by the guard. The rest of the model calls this one.
   */
  function Factorial(a: int): (r: Outcome)
    ensures r.Ok? <==> 0 <= a <= 20
    ensures r.Ok? ==> r.value == Fact(a)
    ensures a > 20 ==> r == Err(TooLarge)
  {
    if a >= |Table| then Err(TooLarge)
    else if a < 0 then Err(OutOfRange)
    else TableIsFactorial(a); Ok(Table[a])
  }

  /** The two guards differ on exactly one input, 21. */
  lemma GuardOffByOne()
    ensures FactorialAsWritten(21) == Err(OutOfRange) && Factorial(21) == Err(TooLarge)
    ensures forall a :: a != 21 ==> FactorialAsWritten(a) == Factorial(a)
  {
  }

  /** n! = n * (n-1)! read the other way round, for callers that index by blocks of (n-1)!. */
  lemma FactStep(n: nat)
    requires n >= 1
    ensures Fact(n) == n * Fact(n - 1)
  {
  }

  /** i! divides n! whenever i <= n: n! = i! * (n!/i!). */
  lemma {:induction false} FactDivides(i: nat, n: nat)
    requires i <= n
    ensures Fact(n) % Fact(i) == 0
    ensures Fact(n) == Fact(i) * (Fact(n) / Fact(i))
  {
    if i == n {
      DivOfMultiple(Fact(n), 1);
    } else {
      FactDivides(i, n - 1);
      var m := Fact(n - 1) / Fact(i);
      Regroup(n, Fact(i), m);
      DivOfMultiple(Fact(i), n * m);
    }
  }

  /** n * (d * m) == d * (n * m). */
  lemma Regroup(n: int, d: int, m: int)
    ensures n * (d * m) == d * (n * m)
  {
  }

  /** For i >= 2, i! is even and at least 2. */
  lemma {:induction false} FactEven(i: nat)
    requires i >= 2
    ensures Fact(i) % 2 == 0 && Fact(i) >= 2
  {
    if i > 2 {
      FactEven(i - 1);
      var h := Fact(i - 1) / 2;
      assert Fact(i - 1) == 2 * h;
      Regroup(i, 2, h);
      DivOfMultiple(2, i * h);
    }
  }

  /** Dividing a multiple of d by d gives the multiplier back. */
  lemma DivOfMultiple(d: nat, q: nat)
    requires d >= 1
    ensures (d * q) % d == 0 && (d * q) / d == q
  {
    DivUnique(d * q, d, q, 0);
  }

  /** Euclidean division is determined by quotient and remainder. */
  lemma DivUnique(x: int, d: int, q: int, r: int)
    requires d >= 1 && 0 <= r < d && x == d * q + r
    ensures x / d == q && x % d == r
  {
    var q', r' := x / d, x % d;
    assert x == d * q' + r';
    if q' < q {
      MulStep(d, q', q);
    } else if q' > q {
      MulStep(d, q, q');
    }
  }

  /** Multiplying by a positive d keeps a gap of at least d between distinct quotients. */
  lemma {:induction false} MulStep(d: int, a: int, b: int)
    requires d >= 1 && a < b
    ensures d * b >= d * a + d
    decreases b - a
  {
    if b > a + 1 {
      MulStep(d, a, b - 1);
    }
    assert d * b == d * (b - 1) + d;
  }
}
