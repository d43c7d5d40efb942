/**
 What the matching rule of `Is` does and does not look at, stated over the
 detail lists themselves rather than over the collected error-info list.

 The rule counts PAIRS: a receiver [A, A] against a target [A, x] (x not an
 error-info record) yields two pairs for two receiver records and matches,
 while the same two lists the other way round do not. It is therefore
 neither set equality of reasons nor symmetric, and an error whose detail
 list repeats a reason does not match itself.
 */
module EquivalenceProperties {
  import opened Errors
  import opened Sums
  import opened Equivalence

  /** 1 when `t` and `d` are both error-info records with the same reason. */
  function Match(t: Detail, d: Detail): nat
  {
    if t.Info? && d.Info? && t.info.reason == d.info.reason then 1 else 0
  }

  /** The matches of the fixed target record `t`, as a weight on details. */
  function MatchWith(t: Detail): Detail -> nat
  {
    (d: Detail) => Match(t, d)
  }

  /** The number of records of `ds` that a target record matches. */
  function PairsWith(ds: seq<Detail>): Detail -> nat
  {
    (t: Detail) => Sum(ds, MatchWith(t))
  }

  /** The error-info records of `ds` have pairwise distinct reasons. */
  predicate DistinctInfoReasons(ds: seq<Detail>)
  {
    forall i, j :: 0 <= i < j < |ds| && ds[i].Info? && ds[j].Info? ==> ds[i].info.reason != ds[j].info.reason
  }

  /** `a` and `b` agree in everything the rule could look at: the same
      length, error-info records at the same positions, with the same
      reasons. Messages and the contents of other records may differ. */
  predicate SameReasons(a: seq<Detail>, b: seq<Detail>)
  {
    && |a| == |b|
    && forall i :: 0 <= i < |a| ==> a[i].Info? == b[i].Info? && (a[i].Info? ==> a[i].info.reason == b[i].info.reason)
  }

  /** The collected list has one record per error-info detail. */
  lemma {:induction false} InfosLength(ds: seq<Detail>)
    ensures |Infos(ds)| == Sum(ds, InfoWeight)
  {
    if |ds| != 0 {
      InfosLength(ds[..|ds| - 1]);
    }
  }

  /** A sum over the collected records is the lifted sum over the details. */
  lemma {:induction false} InfosLift(ds: seq<Detail>, g: ErrorInfo -> nat)
    ensures Sum(Infos(ds), g) == Sum(ds, Lift(g))
  {
    if |ds| != 0 {
      var p := ds[..|ds| - 1];
      var d := ds[|ds| - 1];
      InfosLift(p, g);
      if d.Info? {
        SumConcat(Infos(p), [d.info], g);
        assert [d.info][..0] == [];
      } else {
        assert Infos(ds) == Infos(p) + [] == Infos(p);
        assert Lift(g)(d) == 0;
      }
    }
  }

  /** The pair count of the Go loops is the number of (target, receiver)
      detail pairs that match. */
  lemma PairCountByMatches(ts: seq<Detail>, ds: seq<Detail>)
    ensures PairCount(ts, Infos(ds)) == Sum(ts, PairsWith(ds))
  {
    forall i | 0 <= i < |ts|
      ensures Lift(Partners(Infos(ds)))(ts[i]) == PairsWith(ds)(ts[i])
    {
      var t := ts[i];
      if t.Info? {
        InfosLift(ds, ReasonIs(t.info.reason));
        SumIndexwise(ds, Lift(ReasonIs(t.info.reason)), ds, MatchWith(t));
      } else {
        SumZero(ds, MatchWith(t));
      }
    }
    SumIndexwise(ts, Lift(Partners(Infos(ds))), ts, PairsWith(ds));
  }

  /** `Is` in the system's own terms: a structured target with the same code
      and the same number of details matches when both lists are empty, or
      else when the receiver's error-info count equals the number of
      (target error-info, receiver error-info) pairs with equal reasons. */
  lemma EquivalentByMatches(e: Error, te: Error)
    ensures Equivalent(e, Structured(te)) <==>
      && e.code == te.code
      && |e.details| == |te.details|
      && (|e.details| == 0 || Sum(e.details, InfoWeight) == Sum(te.details, PairsWith(e.details)))
  {
    InfosLength(e.details);
    PairCountByMatches(te.details, e.details);
  }

  /** Reordering the target's details does not change the outcome. */
  lemma TargetPermutation(e: Error, te: Error, te': Error)
    requires te'.code == te.code
    requires multiset(te'.details) == multiset(te.details)
    ensures Equivalent(e, Structured(te')) <==> Equivalent(e, Structured(te))
  {
    EquivalentByMatches(e, te);
    EquivalentByMatches(e, te');
    SumPermutation(te.details, te'.details, PairsWith(e.details));
    assert |te.details| == |multiset(te.details)| == |te'.details|;
  }

  /** Reordering the receiver's details does not change the outcome; nor
      does the receiver's message. */
  lemma ReceiverPermutation(e: Error, e': Error, te: Error)
    requires e'.code == e.code
    requires multiset(e'.details) == multiset(e.details)
    ensures Equivalent(e', Structured(te)) <==> Equivalent(e, Structured(te))
  {
    EquivalentByMatches(e, te);
    EquivalentByMatches(e', te);
    assert |e.details| == |multiset(e.details)| == |e'.details|;
    SumPermutation(e.details, e'.details, InfoWeight);
    forall i | 0 <= i < |te.details|
      ensures PairsWith(e.details)(te.details[i]) == PairsWith(e'.details)(te.details[i])
    {
      SumPermutation(e.details, e'.details, MatchWith(te.details[i]));
    }
    SumIndexwise(te.details, PairsWith(e.details), te.details, PairsWith(e'.details));
  }

  /** Only codes, positions of error-info records and their reasons matter:
      neither error's message, nor any error-info message, nor the contents
      of other detail records is ever read. */
  lemma MessagesIgnored(e: Error, e': Error, te: Error, te': Error)
    requires e'.code == e.code && te'.code == te.code
    requires SameReasons(e.details, e'.details)
    requires SameReasons(te.details, te'.details)
    ensures Equivalent(e', Structured(te')) <==> Equivalent(e, Structured(te))
  {
    EquivalentByMatches(e, te);
    EquivalentByMatches(e', te');
    SumIndexwise(e.details, InfoWeight, e'.details, InfoWeight);
    forall i | 0 <= i < |te.details|
      ensures PairsWith(e.details)(te.details[i]) == PairsWith(e'.details)(te'.details[i])
    {
      SumIndexwise(e.details, MatchWith(te.details[i]), e'.details, MatchWith(te'.details[i]));
    }
    SumIndexwise(te.details, PairsWith(e.details), te'.details, PairsWith(e'.details));
  }

  /** A record's matches within its own list: none for a record that is not
      error-info; at least one (itself) for an error-info record, and
      exactly one when no other error-info record shares its reason. */
  lemma SelfMatches(ds: seq<Detail>, i: nat)
    requires i < |ds|
    ensures !ds[i].Info? ==> PairsWith(ds)(ds[i]) == 0
    ensures ds[i].Info? ==> PairsWith(ds)(ds[i]) >= 1
    ensures ds[i].Info? ==>
      (PairsWith(ds)(ds[i]) == 1 <==>
       forall j :: 0 <= j < |ds| && j != i && ds[j].Info? ==> ds[j].info.reason != ds[i].info.reason)
  {
    var t := ds[i];
    if !t.Info? {
      SumZero(ds, MatchWith(t));
    } else {
      SumSplit(ds, i, MatchWith(t));
      if forall j :: 0 <= j < |ds| && j != i && ds[j].Info? ==> ds[j].info.reason != t.info.reason {
        SumSingle(ds, i, MatchWith(t));
      } else {
        var j :| 0 <= j < |ds| && j != i && ds[j].Info? && ds[j].info.reason == t.info.reason;
        if i < j {
          SumPair(ds, i, j, MatchWith(t));
        } else {
          SumPair(ds, j, i, MatchWith(t));
        }
      }
    }
  }

  /** An error matches itself exactly when the reasons of its error-info
      records are pairwise distinct (trivially so when it has none). */
  lemma SelfEquivalence(e: Error)
    ensures Equivalent(e, Structured(e)) <==> DistinctInfoReasons(e.details)
  {
    var ds := e.details;
    EquivalentByMatches(e, e);
    forall i | 0 <= i < |ds|
      ensures InfoWeight(ds[i]) <= PairsWith(ds)(ds[i])
    {
      SelfMatches(ds, i);
    }
    SumDominates(ds, PairsWith(ds), InfoWeight);
    if DistinctInfoReasons(ds) {
      forall i | 0 <= i < |ds|
        ensures InfoWeight(ds[i]) == PairsWith(ds)(ds[i])
      {
        SelfMatches(ds, i);
      }
    } else {
      var i, j :| 0 <= i < j < |ds| && ds[i].Info? && ds[j].Info? && ds[i].info.reason == ds[j].info.reason;
      SelfMatches(ds, i);
    }
  }
}
