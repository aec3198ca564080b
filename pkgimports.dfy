/** `Divide` and `GoDbcRun` of package `pkgimports` (pkgimports/godbc.go):
    the contract check tests `b != 1` while its message speaks of zero, so a
    zero divisor reaches Go's division and panics there. */
module PkgImports {
  import opened GoInt
  import opened GoRuntime
  import opened Godbc

  const Message: string := "b should not be 0"

  /** `Divide(a, b)` as written: a contract check that `b != 1`, then the quotient. */
  function Divide(a: Int, b: Int): (o: Outcome<Int>)
    ensures b == 1 ==> o == Panicked(ContractViolation(Message))
    ensures b == 0 ==> o == Panicked(DivideByZero)
    ensures o.Returned? <==> b != 0 && b != 1
    ensures o.Returned? && !(a == MinInt && b == -1) ==> IsTruncatedQuotient(a, b, o.value)
    ensures o.Returned? && a == MinInt && b == -1 ==> o.value == MinInt
    ensures o.Returned? ==> Abs(o.value) <= Abs(a)
  {
    match Require(b != 1, Message)
    case Panicked(p) => Panicked(p)
    case Returned(_) => GoDivide(a, b)
  }

  /** For every divisor other than 0 and 1 whose quotient fits in `int`,
      Divide returns exactly the quotient truncated toward zero. */
  lemma DivideIsTruncDiv(a: Int, b: Int)
    requires b != 0 && b != 1 && !(a == MinInt && b == -1)
    ensures Divide(a, b) == Returned(TruncDiv(a, b))
  {
    TruncDivCharacterized(a, b, Divide(a, b).value);
  }

  /** The guard rejects the divisor one, although the division itself is
      defined there and would return the dividend. */
  lemma DivisorOneRejected(a: Int)
    ensures Divide(a, 1) == Panicked(ContractViolation(Message))
    ensures GoDivide(a, 1) == Returned(a)
  {
    TruncDivCharacterized(a, 1, a);
  }

  /** A zero divisor passes the contract check and then panics in the division. */
  lemma ZeroDivisorPassesCheck(a: Int)
    ensures Require(0 != 1, Message) == Returned(())
    ensures Divide(a, 0) == Panicked(DivideByZero)
  {
  }

  /** Go's truncation, not Dafny's Euclidean division: `-7 / 2` is -3 and
      `7 / -1` is -7. */
  lemma DivideExamples()
    ensures Divide(-7, 2) == Returned(-3) && -7 / 2 == -4
    ensures Divide(7, -1) == Returned(-7)
  {
    assert Divide(-7, 2) == Returned(-3) by {
      TruncatedQuotientUnique(-7, 2, Divide(-7, 2).value, -3);
    }
    assert Divide(7, -1) == Returned(-7) by {
      TruncatedQuotientUnique(7, -1, Divide(7, -1).value, -7);
    }
  }

  /** Dividing by minus one negates the dividend, except that MinInt wraps to itself. */
  lemma DivideByMinusOne(a: Int)
    ensures a != MinInt ==> Divide(a, -1) == Returned(-a)
    ensures Divide(MinInt, -1) == Returned(MinInt)
  {
    if a != MinInt {
      TruncatedQuotientUnique(a, -1, Divide(a, -1).value, -a);
    }
  }

  /** `GoDbcRun`: the outcome of the call `Divide(1, 1)` whose value would be printed. */
  function GoDbcRun(): (o: Outcome<Int>)
    ensures o == Panicked(ContractViolation("b should not be 0"))
  {
    Divide(1, 1)
  }

  /** `Divide` with the guard its message describes: the divisor is checked
      against zero, so every call either fails the contract check or returns. */
  function DivideIntended(a: Int, b: Int): (o: Outcome<Int>)
    ensures o.Panicked? <==> b == 0
    ensures o.Panicked? ==> o.panic == ContractViolation(Message)
    ensures o.Returned? && !(a == MinInt && b == -1) ==> IsTruncatedQuotient(a, b, o.value)
    ensures o.Returned? && a == MinInt && b == -1 ==> o.value == MinInt
    ensures o.Returned? ==> Abs(o.value) <= Abs(a)
  {
    match Require(b != 0, Message)
    case Panicked(p) => Panicked(p)
    case Returned(_) => GoDivide(a, b)
  }

  /** As written, Divide disagrees with its intended version on exactly the
      divisors zero and one. */
  lemma DivideDeviatesOnlyAtZeroAndOne(a: Int, b: Int)
    ensures Divide(a, b) != DivideIntended(a, b) <==> b == 0 || b == 1
  {
  }
}
