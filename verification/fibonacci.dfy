/** Fibonacci numbers as computed by the static method `f` of MyTree. */
module Fibonacci {

  /** Largest value of a Java `int`. */
  const Int32Max: int := 0x7fff_ffff

  /** The largest Fibonacci number that fits in a Java `int`: F(46). */
  const MaxFibInt32: int := 1836311903

  /** `f(n)`: 0 for 0, 1 for 1, and the sum of the two previous values otherwise.
      The source takes any `int`; a negative argument never reaches a base case,
      so the model takes a `nat`. */
  function F(n: nat): nat
  {
    if n == 0 then 0
    else if n == 1 then 1
    else F(n - 1) + F(n - 2)
  }

  /** A Fibonacci number of positive index: the values `f` returns for n >= 1. */
  ghost predicate IsFibonacci(x: int)
  {
    exists k: nat :: 1 <= k && F(k) == x
  }

  /** Every Fibonacci number of positive index is at least 1. */
  lemma {:induction false} FibPositive(n: nat)
    requires n >= 1
    ensures F(n) >= 1
  {
    if n >= 3 {
      FibPositive(n - 1);
    }
  }

  /** From index 2 on, the sequence grows strictly. */
  lemma FibStrictStep(n: nat)
    requires n >= 2
    ensures F(n) < F(n + 1)
  {
    FibPositive(n - 1);
  }

  /** The sequence never decreases. */
  lemma {:induction false} FibMonotone(i: nat, j: nat)
    requires i <= j
    ensures F(i) <= F(j)
    decreases j - i
  {
    if i < j {
      FibMonotone(i + 1, j);
      if i == 0 {
        assert F(0) == 0;
      } else if i == 1 {
        assert F(2) == 1;
      } else {
        FibStrictStep(i);
      }
    }
  }

  /** A smaller Fibonacci number has a smaller index. */
  lemma {:induction false} FibIndexBelow(i: nat, j: nat)
    requires F(i) < F(j)
    ensures i < j
  {
    if j <= i {
      FibMonotone(j, i);
    }
  }

  /** From index 2 on, the sequence is strictly increasing. */
  lemma {:induction false} FibStrictMonotone(i: nat, j: nat)
    requires 2 <= i < j
    ensures F(i) < F(j)
  {
    FibStrictStep(i);
    FibMonotone(i + 1, j);
  }

  /** Two indices give the same Fibonacci number only when they are equal,
      or when they are 1 and 2 (F(1) == F(2) == 1). */
  lemma FibInjective(a: nat, b: nat)
    requires F(a) == F(b)
    ensures a == b || (1 <= a <= 2 && 1 <= b <= 2)
  {
    var lo, hi := if a <= b then a else b, if a <= b then b else a;
    if lo == 0 && hi >= 1 {
      FibPositive(hi);
    } else if lo < hi && hi > 2 {
      FibStrictMonotone(if lo >= 2 then lo else 2, hi);
    }
  }

  /** The values of F up to the first one beyond a Java `int`. */
  lemma FibTable()
    ensures F(46) == MaxFibInt32
    ensures F(47) == 2971215073
  {
    assert F(2) == 1;
    assert F(3) == 2;
    assert F(4) == 3;
    assert F(5) == 5;
    assert F(6) == 8;
    assert F(7) == 13;
    assert F(8) == 21;
    assert F(9) == 34;
    assert F(10) == 55;
    assert F(11) == 89;
    assert F(12) == 144;
    assert F(13) == 233;
    assert F(14) == 377;
    assert F(15) == 610;
    assert F(16) == 987;
    assert F(17) == 1597;
    assert F(18) == 2584;
    assert F(19) == 4181;
    assert F(20) == 6765;
    assert F(21) == 10946;
    assert F(22) == 17711;
    assert F(23) == 28657;
    assert F(24) == 46368;
    assert F(25) == 75025;
    assert F(26) == 121393;
    assert F(27) == 196418;
    assert F(28) == 317811;
    assert F(29) == 514229;
    assert F(30) == 832040;
    assert F(31) == 1346269;
    assert F(32) == 2178309;
    assert F(33) == 3524578;
    assert F(34) == 5702887;
    assert F(35) == 9227465;
    assert F(36) == 14930352;
    assert F(37) == 24157817;
    assert F(38) == 39088169;
    assert F(39) == 63245986;
    assert F(40) == 102334155;
    assert F(41) == 165580141;
    assert F(42) == 267914296;
    assert F(43) == 433494437;
    assert F(44) == 701408733;
    assert F(45) == 1134903170;
    assert F(46) == 1836311903;
    assert F(47) == 2971215073;
  }

  /** `f(n)` is computed without `int` overflow exactly when n <= 46: this is the
      range on which the unbounded model agrees with the Java method. */
  lemma FibFitsInt32(n: nat)
    ensures F(n) <= Int32Max <==> n <= 46
  {
    FibTable();
    if n <= 46 {
      FibMonotone(n, 46);
    } else {
      FibMonotone(47, n);
    }
  }
}
