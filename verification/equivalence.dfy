/**
 The `Is` hook of errors/errors.go, which decides whether an error is "the
 same kind" as a target error.

 The rule, as the Go code has it: the target must be a structured error
 with the same code and the same number of details; two empty detail lists
 match; otherwise the receiver's error-info records are collected, every
 (target error-info, receiver error-info) pair with equal reasons is
 counted, and the errors match when that pair count equals the number of
 receiver error-info records. Messages are never compared.

 `Equivalent` states that rule with sums; the method `Is` performs the
 loops of the Go code and is proved to decide `Equivalent`.
 */
module Equivalence {
  import opened Errors
  import opened Sums

  /** The `*ErrorInfo` records among `ds`, in order. */
  function Infos(ds: seq<Detail>): seq<ErrorInfo>
  {
    if |ds| == 0 then []
    else Infos(ds[..|ds| - 1]) + (if ds[|ds| - 1].Info? then [ds[|ds| - 1].info] else [])
  }

  /** Weight 1 on records whose reason is `reason`. */
  function ReasonIs(reason: string): ErrorInfo -> nat
  {
    (x: ErrorInfo) => if x.reason == reason then 1 else 0
  }

  /** Lifts a weight on error-info records to details; other details weigh 0. */
  function Lift(g: ErrorInfo -> nat): Detail -> nat
  {
    (d: Detail) => if d.Info? then g(d.info) else 0
  }

  /** Weight 1 on the error-info details. */
  function InfoWeight(d: Detail): nat
  {
    if d.Info? then 1 else 0
  }

  /** How many records of `errs` carry `reason`. */
  function CountReason(errs: seq<ErrorInfo>, reason: string): nat
  {
    Sum(errs, ReasonIs(reason))
  }

  /** The weight of a target record: how many of `errs` share its reason. */
  function Partners(errs: seq<ErrorInfo>): ErrorInfo -> nat
  {
    (x: ErrorInfo) => CountReason(errs, x.reason)
  }

  /** The number of (target error-info, record of `errs`) pairs with equal
      reasons, over the target details `ts`. */
  function PairCount(ts: seq<Detail>, errs: seq<ErrorInfo>): nat
  {
    Sum(ts, Lift(Partners(errs)))
  }

  /** The matching rule of `Is`. */
  predicate Equivalent(e: Error, target: Target)
  {
    match target
    case Foreign(_) => false
    case Structured(te) =>
      && e.code == te.code
      && |e.details| == |te.details|
      && (|e.details| == 0 || |Infos(e.details)| == PairCount(te.details, Infos(e.details)))
  }

  /** Collecting error-info records one more detail at a time. */
  lemma InfosPrefix(ds: seq<Detail>, i: nat)
    requires i < |ds|
    ensures Infos(ds[..i + 1]) == Infos(ds[..i]) + (if ds[i].Info? then [ds[i].info] else [])
  {
    assert ds[..i + 1][..i] == ds[..i];
  }

  /** Decides whether `e` is the same kind of error as `target`, by the
      steps of the Go code: a type check, the code and length check, the
      empty case, one loop collecting the receiver's error-info records and
      a nested loop counting the pairs with equal reasons. */
  method Is(e: Error, target: Target) returns (b: bool)
    ensures b <==> Equivalent(e, target)
    ensures target.Foreign? ==> !b
    ensures target.Structured? && e.code != target.err.code ==> !b
    ensures target.Structured? && |e.details| != |target.err.details| ==> !b
    ensures target.Structured? && e.code == target.err.code && e.details == [] && target.err.details == [] ==> b
  {
    if !target.Structured? {
      return false;
    }
    var te := target.err;
    if e.code != te.code || |e.details| != |te.details| {
      return false;
    }
    if e.code == te.code && |e.details| == 0 && |te.details| == 0 {
      return true;
    }
    var n: nat := 0;
    var errs: seq<ErrorInfo> := [];
    for i := 0 to |e.details|
      invariant errs == Infos(e.details[..i])
    {
      InfosPrefix(e.details, i);
      if e.details[i].Info? {
        errs := errs + [e.details[i].info];
      }
    }
    assert e.details[..|e.details|] == e.details;
    for j := 0 to |te.details|
      invariant n == PairCount(te.details[..j], errs)
    {
      SumPrefix(te.details, j, Lift(Partners(errs)));
      var d := te.details[j];
      if d.Info? {
        for k := 0 to |errs|
          invariant n == PairCount(te.details[..j], errs) + CountReason(errs[..k], d.info.reason)
        {
          SumPrefix(errs, k, ReasonIs(d.info.reason));
          if d.info.reason == errs[k].reason {
            n := n + 1;
          }
        }
        assert errs[..|errs|] == errs;
      }
    }
    assert te.details[..|te.details|] == te.details;
    return |errs| == n;
  }
}
