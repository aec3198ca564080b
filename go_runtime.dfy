/** What a Go call can end in: a returned value or a panic. Go's integer
    division panics at run time when the divisor is zero. */
module GoRuntime {
  import opened GoInt

  /** Why a call stopped: a failed contract check carrying its message, or Go's
      run-time panic for an integer division by zero. */
  datatype Panic = ContractViolation(message: string) | DivideByZero

  /** The outcome of a Go call: it returns a value, or it panics. */
  datatype Outcome<+T> = Returned(value: T) | Panicked(panic: Panic)

  /** Go's `a / b` as a statement of a function: a zero divisor is a run-time
      panic, any other divisor yields Go's quotient. */
  function GoDivide(a: Int, b: Int): (o: Outcome<Int>)
    ensures o.Panicked? <==> b == 0
    ensures o.Panicked? ==> o.panic == DivideByZero
    ensures o.Returned? ==> o.value == Quotient(a, b)
  {
    if b == 0 then Panicked(DivideByZero) else Returned(Quotient(a, b))
  }
}
