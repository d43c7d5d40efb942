/**
 Worked instances of the matching rule of `Is`, each for every choice of
 code, messages and reasons that fits its shape.
 */
module EquivalenceExamples {
  import opened Errors
  import opened Sums
  import opened Equivalence
  import opened EquivalenceProperties

  /** Two errors with the same code and no details match, whatever their
      messages. */
  lemma EmptyDetailsMatch(code: int, m1: string, m2: string)
    ensures Equivalent(New(code, m1, []), Structured(New(code, m2, [])))
  {
  }

  /** Different codes never match. */
  lemma CodesDiffer(c1: int, c2: int, m1: string, m2: string, ds: seq<Detail>, ts: seq<Detail>)
    requires c1 != c2
    ensures !Equivalent(New(c1, m1, ds), Structured(New(c2, m2, ts)))
  {
  }

  /** A detail of any shape counts toward the length check. */
  lemma ExtraDetailBreaksMatch(code: int, m1: string, m2: string, d: Detail)
    ensures !Equivalent(New(code, m1, [d]), Structured(New(code, m2, [])))
  {
  }

  /** Error-info records with the same reason match whatever their
      messages. */
  lemma ReasonOnly(code: int, m1: string, m2: string, x: ErrorInfo, y: ErrorInfo)
    requires x.reason == y.reason
    ensures Equivalent(WithDetails(New(code, m1, []), [Info(x)]), Structured(WithDetails(New(code, m2, []), [Info(y)])))
  {
    var ds := [Info(x)];
    EquivalentByMatches(New(code, m1, ds), New(code, m2, [Info(y)]));
    SumShort(Info(x), Info(x), InfoWeight);
    SumShort(Info(y), Info(y), PairsWith(ds));
    SumShort(Info(x), Info(x), MatchWith(Info(y)));
  }

  /** Pairs, not target records, are counted: a receiver with two records
      of one reason matches a target with one record of that reason and one
      other detail, because the single target record pairs with both. */
  lemma DuplicateReasonsMatch(code: int, m1: string, m2: string, x: ErrorInfo, y: ErrorInfo, z: ErrorInfo, o: string)
    requires x.reason == y.reason == z.reason
    ensures Equivalent(New(code, m1, [Info(x), Info(y)]), Structured(New(code, m2, [Info(z), Other(o)])))
  {
    var ds := [Info(x), Info(y)];
    var ts := [Info(z), Other(o)];
    EquivalentByMatches(New(code, m1, ds), New(code, m2, ts));
    SumShort(Info(x), Info(y), InfoWeight);
    SumShort(Info(z), Other(o), PairsWith(ds));
    SumShort(Info(x), Info(y), MatchWith(Info(z)));
    SumShort(Info(x), Info(y), MatchWith(Other(o)));
  }

  /** The rule is not symmetric: the same two lists the other way round do
      not match, since the receiver's one record meets two partners. */
  lemma DuplicateReasonsAsymmetric(code: int, m1: string, m2: string, x: ErrorInfo, y: ErrorInfo, z: ErrorInfo, o: string)
    requires x.reason == y.reason == z.reason
    ensures !Equivalent(New(code, m2, [Info(z), Other(o)]), Structured(New(code, m1, [Info(x), Info(y)])))
  {
    var ds := [Info(z), Other(o)];
    var ts := [Info(x), Info(y)];
    EquivalentByMatches(New(code, m2, ds), New(code, m1, ts));
    SumShort(Info(z), Other(o), InfoWeight);
    SumShort(Info(x), Info(y), PairsWith(ds));
    SumShort(Info(z), Other(o), MatchWith(Info(x)));
    SumShort(Info(z), Other(o), MatchWith(Info(y)));
  }

  /** An error whose detail list repeats a reason does not match itself. */
  lemma RepeatedReasonNotReflexive(e: Error, i: nat, j: nat)
    requires i < j < |e.details|
    requires e.details[i].Info? && e.details[j].Info?
    requires e.details[i].info.reason == e.details[j].info.reason
    ensures !Equivalent(e, Structured(e))
  {
    SelfEquivalence(e);
  }
}
