# Checked integer division with a design-by-contract guard

The repository holds two near-identical Go snippets. Each defines
`Divide(a, b int) int`, which calls `godbc.Require` to check the divisor and
then returns Go's integer quotient `a / b`, and `GoDbcRun`, which prints the
result of one fixed call.

- Package `main` (`cmd/main/godbc.go`) checks `b != 0`; its `GoDbcRun` calls
  `Divide(1, 0)`, which fails the check.
- Package `pkgimports` (`pkgimports/godbc.go`) checks `b != 1` but keeps the
  message "b should not be 0". A divisor of one is rejected, and a divisor of
  zero passes the check and then hits Go's run-time division-by-zero panic.
  Its `GoDbcRun` calls `Divide(1, 1)`, which fails the check.

The model has five modules:

- `GoInt` models Go's 64-bit `int` and its `/` operator. The Go language
  specification ("Integer operators", under "Arithmetic operators") defines
  the quotient by `x == q*y + r`, `|r| < |y|`, with `r` zero or of the sign
  of `x`. The predicate `IsTruncatedQuotient` states that characterisation.
  `TruncDiv` takes the number of whole divisors that fit in the dividend's
  magnitude and gives it the sign of the operands. `TruncatedQuotientUnique`
  and `TruncDivCharacterized` prove that `TruncDiv` is the only value that
  satisfies `IsTruncatedQuotient`. `Quotient`
  adds the overflow rule: `MinInt / -1` wraps to `MinInt`. Dafny's own `/`
  is Euclidean, and a lemma says exactly when the two agree.
- `GoRuntime` models the outcome of a Go call. A call either returns a value
  or panics, and the panic records whether it came from a failed contract
  check (with its message) or from a division by zero. `GoDivide` is Go's
  `a / b` statement, which panics on a zero divisor; both `Divide`s use it.
- `Godbc` models `Require`.
- `CmdMain` and `PkgImports` model the two packages. Each `Divide` is a
  function to that outcome.

## Model

| member | source | states |
|---|---|---|
| `GoInt.WholeCopies` | cmd/main/godbc.go:11 | the count `k` of whole divisors in a magnitude satisfies `k*d <= n < k*d + d`, so it is the magnitude of the truncated quotient |
| `GoInt.TruncDiv` | cmd/main/godbc.go:11 | the quotient meets the Go equations (`a - q*b` is below `|b|` in magnitude and is zero or has the sign of `a`), and `|q| <= |a|` |
| `GoInt.TruncatedQuotientUnique` | cmd/main/godbc.go:11 | the Go equations determine the quotient: two quotients that both satisfy them are equal |
| `GoInt.TruncDivCharacterized` | cmd/main/godbc.go:11 | a candidate satisfies the Go equations if and only if it is `TruncDiv`'s result |
| `GoInt.TruncDivVersusEuclidean` | cmd/main/godbc.go:11 | truncated division equals Dafny's Euclidean `/` exactly when the dividend is non-negative or the divisor divides it |
| `GoInt.Wrap` | cmd/main/godbc.go:9 | reducing an integer into the 64-bit range leaves in-range values alone and changes others only by a multiple of 2^64 |
| `GoInt.Quotient` | cmd/main/godbc.go:11 | Go's `a / b` on `int`: the truncated quotient, except `MinInt / -1`, which yields the dividend; in every case `|q| <= |a|` |
| `GoInt.QuotientIsTruncDiv` | pkgimports/godbc.go:11 | Go's `/` equals the unbounded truncated quotient if and only if the operands are not `MinInt` and `-1` |
| `Godbc.Require` | cmd/main/godbc.go:10 | the check returns normally if and only if its condition holds; otherwise it fails with the given message |
| `CmdMain.Divide` | cmd/main/godbc.go:9-12 | fails the contract check with "b should not be 0" if and only if `b == 0`; otherwise returns the truncated quotient (the dividend for `MinInt / -1`), bounded by `|a|` |
| `CmdMain.DivideIsTruncDiv` | cmd/main/godbc.go:11 | for every non-zero divisor whose quotient fits, the result is exactly `TruncDiv(a, b)` |
| `CmdMain.DivideByOne` | cmd/main/godbc.go:11 | `Divide(a, 1)` returns `a` for every `int` |
| `CmdMain.DivideExamples` | cmd/main/godbc.go:11 | `Divide(10, 2) == 5`, `Divide(-7, 2) == -3` and `Divide(-9, 2) == -4`, while Euclidean division gives -4 and -5 |
| `CmdMain.GoDbcRun` | cmd/main/godbc.go:14-16 | the fixed call `Divide(1, 0)` fails the contract check, so no quotient reaches the print |
| `GoRuntime.GoDivide` | pkgimports/godbc.go:11 | Go's division panics with a division-by-zero error if and only if `b == 0`; otherwise it returns Go's quotient |
| `PkgImports.Divide` | pkgimports/godbc.go:9-12 | `b == 1` fails the contract check with "b should not be 0"; `b == 0` panics in the division; it returns if and only if `b` is neither, and then the result is the truncated quotient (the dividend for `MinInt / -1`), bounded by `|a|` |
| `PkgImports.DivideIsTruncDiv` | pkgimports/godbc.go:11 | for every divisor other than 0 and 1 whose quotient fits, the result is exactly `TruncDiv(a, b)` |
| `PkgImports.DivisorOneRejected` | pkgimports/godbc.go:10 | `Divide(a, 1)` fails the contract check although the division alone would return `a` |
| `PkgImports.ZeroDivisorPassesCheck` | pkgimports/godbc.go:10-11 | a zero divisor passes the contract check and `Divide(a, 0)` ends in a division-by-zero panic |
| `PkgImports.DivideExamples` | pkgimports/godbc.go:11 | `Divide(-7, 2) == -3`, where Euclidean division gives -4 |
| `PkgImports.DivideByMinusOne` | pkgimports/godbc.go:11 | dividing by -1 negates every dividend except `MinInt`, which wraps to itself; in particular `Divide(7, -1) == -7` |
| `PkgImports.GoDbcRun` | pkgimports/godbc.go:14-16 | the fixed call `Divide(1, 1)` fails the contract check, so no quotient reaches the print |
| `PkgImports.DivideIntended` | pkgimports/godbc.go:10 | with the guard its message describes, the call fails the check if and only if `b == 0`, never panics in the division, and otherwise returns the truncated quotient (the dividend for `MinInt / -1`), bounded by `|a|` |
| `PkgImports.DivideDeviatesOnlyAtZeroAndOne` | pkgimports/godbc.go:10 | the as-written and the intended `Divide` differ exactly on the divisors 0 and 1 |

## Left out

- `fmt.Println` in both `GoDbcRun` functions is output I/O. `GoDbcRun` gives the outcome of the call it prints; a returned value is what would be printed.
- The internals of `github.com/lpabon/godbc` are not part of this model. `Require` is modelled as "fail with the message when the condition is false". The formatting of its panic text and any way of compiling the checks out are not modelled.
- A panic is modelled as a `Panicked` outcome. Nothing in the source recovers it, so the model does not say how the process terminates.
- Go's `int` is modelled as 64 bits wide. The 32-bit width of some platforms is not modelled.
- Repeated calls with the same arguments give the same result. This holds because every member is a Dafny function of its arguments, so no separate lemma states it.
- Go's `%` operator does not occur in the source. The remainder appears only as `a - q*b` inside `IsTruncatedQuotient`.

## Findings

| source | as written | input that shows it | evidently intended | confidence | as-written member | corrected member |
|---|---|---|---|---|---|---|
| pkgimports/godbc.go:10 | the guard is `b != 1`, while the message says "b should not be 0" | `Divide(1, 0)` passes the check and panics dividing by zero; `Divide(1, 1)` is rejected although 1 is a valid divisor | the guard `b != 0`, as in cmd/main/godbc.go:10 | medium, not executed | `PkgImports.ZeroDivisorPassesCheck` | `PkgImports.DivideIntended` |

`PkgImports.GoDbcRun` keeps the as-written `Divide`, because it models the call the program actually makes.
