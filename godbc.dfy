/** The design-by-contract helper the snippets call (`godbc.Require`). */
module Godbc {
  import opened GoRuntime

  /** `godbc.Require(cond, message)`: returns normally when the condition holds,
      and otherwise stops the caller with a contract violation carrying the message. */
  function Require(cond: bool, message: string): (o: Outcome<()>)
    ensures o.Returned? <==> cond
    ensures o.Panicked? ==> o.panic == ContractViolation(message)
  {
    if cond then Returned(()) else Panicked(ContractViolation(message))
  }
}
