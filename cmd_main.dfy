/** `Divide` and `GoDbcRun` of package `main` (cmd/main/godbc.go): the
    divisor is checked against zero, then Go's `a / b` is returned. */
module CmdMain {
  import opened GoInt
  import opened GoRuntime
  import opened Godbc

  const Message: string := "b should not be 0"

  /** `Divide(a, b)`: a contract check that `b != 0`, then the quotient. */
  function Divide(a: Int, b: Int): (o: Outcome<Int>)
    ensures o.Panicked? <==> b == 0
    ensures o.Panicked? ==> o.panic == ContractViolation(Message)
    ensures o.Returned? && !(a == MinInt && b == -1) ==> IsTruncatedQuotient(a, b, o.value)
    ensures o.Returned? && a == MinInt && b == -1 ==> o.value == MinInt
    ensures o.Returned? ==> Abs(o.value) <= Abs(a)
  {
    match Require(b != 0, Message)
    case Panicked(p) => Panicked(p)
    case Returned(_) => GoDivide(a, b)
  }

  /** For every non-zero divisor whose quotient fits in `int`, Divide returns
      exactly the quotient truncated toward zero. */
  lemma DivideIsTruncDiv(a: Int, b: Int)
    requires b != 0 && !(a == MinInt && b == -1)
    ensures Divide(a, b) == Returned(TruncDiv(a, b))
  {
    TruncDivCharacterized(a, b, Divide(a, b).value);
  }

  /** Dividing by one returns the dividend, for every `int`. */
  lemma DivideByOne(a: Int)
    ensures Divide(a, 1) == Returned(a)
  {
    TruncDivCharacterized(a, 1, a);
  }

  /** Go's truncation differs from Dafny's Euclidean division for negative dividends. */
  lemma DivideExamples()
    ensures Divide(10, 2) == Returned(5)
    ensures Divide(-7, 2) == Returned(-3) && -7 / 2 == -4
    ensures Divide(-9, 2) == Returned(-4) && -9 / 2 == -5
  {
    assert Divide(10, 2) == Returned(5) by {
      TruncatedQuotientUnique(10, 2, Divide(10, 2).value, 5);
    }
    assert Divide(-7, 2) == Returned(-3) by {
      TruncatedQuotientUnique(-7, 2, Divide(-7, 2).value, -3);
    }
    assert Divide(-9, 2) == Returned(-4) by {
      TruncatedQuotientUnique(-9, 2, Divide(-9, 2).value, -4);
    }
  }

  /** `GoDbcRun`: the outcome of the call `Divide(1, 0)` whose value would be printed. */
  function GoDbcRun(): (o: Outcome<Int>)
    ensures o == Panicked(ContractViolation("b should not be 0"))
  {
    Divide(1, 0)
  }
}
