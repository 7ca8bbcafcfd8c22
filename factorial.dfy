/**
 * The iterative factorial of the threading exercise and the results list
 * of its sequential run. Python integers are unbounded, as Dafny's are.
 */
module Factorial {

  /** n! = n * (n - 1) * ... * 1, and 1 when n <= 0 (the empty product). */
  function Fact(n: int): (r: int)
    ensures r >= 1
    ensures n >= 1 ==> r >= n
    decreases if n <= 0 then 0 else n
  {
    if n <= 0 then 1 else MulGrows(n, Fact(n - 1)); n * Fact(n - 1)
  }

  /** A factor of at least 1 does not shrink a positive number. */
  lemma MulGrows(a: int, b: int)
    requires a >= 1 && b >= 1
    ensures a * b >= a && a * b >= b
  {
  }

  /** Factorials never decrease. */
  lemma {:induction false} FactMonotone(m: int, n: int)
    requires m <= n
    ensures Fact(m) <= Fact(n)
    decreases n - m
  {
    if m < n {
      FactMonotone(m, n - 1);
      if n >= 1 {
        MulGrows(n, Fact(n - 1));
      }
    }
  }

  /** lo * (lo + 1) * ... * hi, multiplied from the left; 1 when lo > hi. */
  function Product(lo: int, hi: int): int
    decreases hi - lo
  {
    if lo > hi then 1 else lo * Product(lo + 1, hi)
  }

  /** Multiplying (lo - 1)! by lo, ..., hi in turn gives hi!. */
  lemma {:induction false} ProductCompletesFact(lo: int, hi: int)
    requires 1 <= lo <= hi + 1
    ensures Fact(lo - 1) * Product(lo, hi) == Fact(hi)
    decreases hi - lo
  {
    if lo <= hi {
      ProductCompletesFact(lo + 1, hi);
      var f, p := Fact(lo - 1), Product(lo + 1, hi);
      assert Product(lo, hi) == lo * p && Fact(lo) == lo * f;
      Regroup(f, lo, p);
    }
  }

  lemma Regroup(a: int, b: int, c: int)
    ensures a * (b * c) == (b * a) * c
  {
  }

  /** n! = 1 * 2 * ... * n, the order in which the loop multiplies; both
      are the empty product 1 when n <= 0. */
  lemma FactIsAscendingProduct(n: int)
    ensures Fact(n) == Product(1, n)
  {
    if n >= 0 {
      ProductCompletesFact(1, n);
    }
  }

  /** Multiplies `result` by 1, 2, ..., n in turn. */
  method CalculateFactorial(n: int) returns (result: int)
    ensures result == Fact(n)
  {
    result := 1;
    var i := 1;
    while i <= n
      invariant 1 <= i && (i <= n + 1 || i == 1)
      invariant result == Fact(i - 1)
      decreases n - i
    {
      assert Fact(i) == i * result;
      result := result * i;
      i := i + 1;
    }
  }

  /** One round of the sequential run: the factorial of each number, in order. */
  method SequentialRound(numbers: seq<int>) returns (results: seq<int>)
    ensures |results| == |numbers|
    ensures forall i | 0 <= i < |numbers| :: results[i] == Fact(numbers[i])
  {
    results := [];
    for i := 0 to |numbers|
      invariant |results| == i
      invariant forall j | 0 <= j < i :: results[j] == Fact(numbers[j])
    {
      var result := CalculateFactorial(numbers[i]);
      results := results + [result];
    }
  }
}
