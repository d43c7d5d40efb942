# Structured errors: a Dafny model

This project models the structured error value of `errors/errors.go`. An
`Error` carries three things:

- a numeric `code`;
- a `message`;
- an ordered list of `details`.

The model covers how such a value is built with `New` and `Newf` and how it
is extended with `WithDetails`. Its main subject is the `Is` hook, which
decides whether a target error is "the same kind" of error.

## Layout

- `errors.dfy`, module `Errors`. The data model:
  - `ErrorInfo(reason, message)`.
  - `Detail`: `Info(ErrorInfo)` stands for a `*ErrorInfo` pointer. `Other(shape)` stands for any other dynamic value, including a non-pointer `ErrorInfo` struct, which the Go type assertion rejects.
  - `Error(code, message, details)`.
  - `Target`: either `Structured(Error)` or `Foreign(..)`, an error of another type.

  The module also holds the constructors and `WithDetails`. Go's
  `WithDetails` mutates the receiver in place. Here it is a pure function
  that returns the extended value.
- `sums.dfy`, module `Sums`. A generic finite sum of a natural-number weight
  over a sequence, with the facts the proofs need: concatenation,
  permutation invariance, index-wise congruence and domination.
- `equivalence.dfy`, module `Equivalence`. `Equivalent` states the matching
  rule with sums. The method `Is` runs the loops of the Go code:
  1. collect the receiver's `*ErrorInfo` records into `errs`;
  2. for every target `*ErrorInfo` and every record of `errs` with the same
     reason, add one to `n`;
  3. answer `len(errs) == n`.

  `Is` is proved to decide `Equivalent`.
- `equivalence_properties.dfy`, module `EquivalenceProperties`. It restates
  the rule directly over the two detail lists, as a count of matching
  (target, receiver) pairs, and proves four things from it:
  - the result does not change when the target's details are permuted;
  - the result does not change when the receiver's details are permuted;
  - messages are never read;
  - an error matches itself exactly when its reasons are distinct.
- `examples.dfy`, module `EquivalenceExamples`. Each example is stated for
  every code, message and reason of the given shape.

The count is of PAIRS, not of matched target records. A receiver
`[Info A, Info A]` against a target `[Info A, Other]` has two receiver
records and two matching pairs, so it matches. Swap the two lists and they
do not match. So `Is` is neither set equality of reasons nor symmetric.
Reading the rule as set equality of reasons would call this a non-match;
the model follows the code as written (`DuplicateReasonsMatch`).

## Model

| member | source | states |
|---|---|---|
| `Errors.New` | errors/errors.go:69-71 | the result holds the given code, message and details, each verbatim and in order |
| `Errors.Newf` | errors/errors.go:73-76 | the result keeps the given code, takes the formatter's output as its message and has an empty detail list |
| `Errors.WithDetails` | errors/errors.go:26-29 | code and message are kept; the old details stay in front in order; the new ones follow in the order given |
| `Errors.WithNoDetails` | errors/errors.go:27-29 | appending no details leaves the error unchanged |
| `Errors.WithDetailsTwice` | errors/errors.go:27-29 | two appends in a row equal one append of both lists |
| `Errors.NewThenWithDetails` | errors/errors.go:27-29 | extending a fresh error equals building it with all the details at once |
| `Errors.WithDetailsLastTwo` | errors/errors.go:27-29 | after appending `a` and then `b`, the last two details are `a` then `b`, whatever came before |
| `Equivalence.Is` | errors/errors.go:32-62 | the loops decide `Equivalent`; a foreign target is rejected; a different code or a different total detail count is rejected; same code with both lists empty is accepted |
| `EquivalenceProperties.InfosLength` | errors/errors.go:47-51 | the collected `errs` list has exactly one entry per `*ErrorInfo` detail; other details add nothing |
| `EquivalenceProperties.PairCountByMatches` | errors/errors.go:52-60 | `n` is the number of (target `*ErrorInfo`, receiver `*ErrorInfo`) pairs with equal reasons |
| `EquivalenceProperties.EquivalentByMatches` | errors/errors.go:37-61 | `Is` holds iff the codes are equal, the detail counts are equal, and either both lists are empty or the receiver's `*ErrorInfo` count equals the number of matching pairs |
| `EquivalenceProperties.TargetPermutation` | errors/errors.go:52-60 | permuting the target's details does not change the result |
| `EquivalenceProperties.ReceiverPermutation` | errors/errors.go:47-60 | permuting the receiver's details, or changing its message, does not change the result |
| `EquivalenceProperties.MessagesIgnored` | errors/errors.go:37-61 | the result depends only on the codes, the positions of `*ErrorInfo` records and their reasons; no message is read |
| `EquivalenceProperties.SelfMatches` | errors/errors.go:52-58 | a receiver `*ErrorInfo` pairs with itself, and with nothing else iff no other record shares its reason |
| `EquivalenceProperties.SelfEquivalence` | errors/errors.go:43-61 | `e.Is(e)` iff the reasons of `e`'s `*ErrorInfo` records are pairwise distinct |
| `EquivalenceExamples.EmptyDetailsMatch` | errors/errors.go:40-42 | same code and no details match, whatever the messages |
| `EquivalenceExamples.CodesDiffer` | errors/errors.go:37-39 | different codes never match |
| `EquivalenceExamples.ExtraDetailBreaksMatch` | errors/errors.go:37-39 | a detail of any shape counts toward the length check |
| `EquivalenceExamples.ReasonOnly` | errors/errors.go:52-58 | one `*ErrorInfo` on each side with the same reason matches, whatever the messages |
| `EquivalenceExamples.DuplicateReasonsMatch` | errors/errors.go:52-61 | receiver `[A, A]` matches target `[A, other]`: two pairs for two receiver records |
| `EquivalenceExamples.DuplicateReasonsAsymmetric` | errors/errors.go:52-61 | receiver `[A, other]` does not match target `[A, A]`: two pairs for one receiver record |
| `EquivalenceExamples.RepeatedReasonNotReflexive` | errors/errors.go:43-61 | an error whose `*ErrorInfo` reasons repeat does not match itself |

## Left out

- `Error()` string rendering (errors/errors.go:64-66) is not modelled. It depends on Go's `%+v` formatting of arbitrary values.
- `Errors.Newf`: `fmt.Sprintf` is a parameter `sprintf`, so nothing is stated about the formatted text itself.
- The JSON field tags (errors/errors.go:10-23) are not modelled. Encoding is done by the Go library.
- `Errors.New` builds a pure value. Go's `New` stores the caller's variadic slice as `Details` without copying it (errors/errors.go:70), so a later write to that slice changes the error's details and can change what `Is` answers; the model does not represent this sharing.
- `Errors.WithDetails` is a pure function. Go's in-place mutation of the receiver and the slice aliasing of `append` are not modelled.
- Nil pointers are not modelled. A nil receiver or a typed-nil `*Error` target panics at errors/errors.go:37 when the target is an `*Error`; with a target of another type the code returns false at errors/errors.go:33-35 before dereferencing anything.
- Typed-nil `*ErrorInfo` details are not modelled: `Detail` cannot represent them. In Go a receiver one passes the type assertion at errors/errors.go:48, is appended to `errs` and counts toward `len(errs)`; a target one passes the assertion at errors/errors.go:53 but is not appended; either panics only if errors/errors.go:55 reads its `Reason`. For example a receiver `[(*ErrorInfo)(nil)]` against a target `[Other]` returns false, and a receiver `[Other]` against a target `[(*ErrorInfo)(nil)]` leaves `errs` empty and returns true at errors/errors.go:61, both without a panic.
- The standard library's `errors.Is` chain traversal that calls this hook is not modelled. It is foreign code.
- `Equivalence.Is` counts with an unbounded `nat`, so it does not model wrap-around of Go's `int` counter `n`. Where `int` is 64 bits that needs more than 2^63 - 1 matching pairs. Where `int` is 32 bits (386, arm) the Go answer can differ once there are more than 2^31 - 1 pairs: a receiver of 65536 `Info(A)` plus one `Other` against a target of 65537 `Info(A)` gives n = 2^32 + 2^16, which wraps to 65536 = `len(errs)`, so Go answers true where the model answers false. Codes are compared only for equality, so their width does not matter.
