/**
 * What one attempt of the draw produces, stated on values: partial and
 * complete draws, dead ends, and the secret-santa property a completed
 * draw has.
 */
module Assignments {
  import opened Basics
  import opened Constraints

  /** A (giver, recipient) pair. */
  type Pair = (Name, Name)

  function Givers(pairs: seq<Pair>): seq<Name> {
    seq(|pairs|, t requires 0 <= t < |pairs| => pairs[t].0)
  }

  function Recipients(pairs: seq<Pair>): seq<Name> {
    seq(|pairs|, t requires 0 <= t < |pairs| => pairs[t].1)
  }

  /** `giver` may draw `recipient` after the pairs `drawn`: not oneself, not excluded, not yet taken. */
  predicate Eligible(cs: seq<Constraint>, giver: Name, recipient: Name, drawn: seq<Pair>) {
    recipient != giver && !Excluded(cs, giver, recipient) && recipient !in Recipients(drawn)
  }

  /**
   * `drawn` is the start of one attempt over `order`: the t-th pair is
   * `order[t]` with a person that was eligible for them at that point.
   */
  predicate IsDraw(drawn: seq<Pair>, order: seq<Name>, cs: seq<Constraint>) {
    |drawn| <= |order| &&
    forall t :: 0 <= t < |drawn| ==>
      drawn[t].0 == order[t] && drawn[t].1 in order && Eligible(cs, order[t], drawn[t].1, drawn[..t])
  }

  /** The attempt `drawn` has reached a person for whom nobody is eligible. */
  predicate Stuck(drawn: seq<Pair>, order: seq<Name>, cs: seq<Constraint>) {
    IsDraw(drawn, order, cs) && |drawn| < |order| &&
    forall j :: 0 <= j < |order| ==> !Eligible(cs, order[|drawn|], order[j], drawn)
  }

  /**
   * What a successful assignment promises: each person gives exactly once
   * and receives exactly once, nobody draws themselves and no pair is
   * excluded.
   */
  predicate IsSecretSanta(pairs: seq<Pair>, people: set<Name>, cs: seq<Constraint>) {
    Distinct(Givers(pairs)) && Elements(Givers(pairs)) == people &&
    Distinct(Recipients(pairs)) && Elements(Recipients(pairs)) == people &&
    forall t :: 0 <= t < |pairs| ==> pairs[t].0 != pairs[t].1 && !Excluded(cs, pairs[t].0, pairs[t].1)
  }

  /** Drawing one more eligible person extends a partial draw. */
  lemma DrawExtend(drawn: seq<Pair>, order: seq<Name>, cs: seq<Constraint>, recipient: Name)
    requires IsDraw(drawn, order, cs) && |drawn| < |order|
    requires recipient in order && Eligible(cs, order[|drawn|], recipient, drawn)
    ensures IsDraw(drawn + [(order[|drawn|], recipient)], order, cs)
    ensures Recipients(drawn + [(order[|drawn|], recipient)]) == Recipients(drawn) + [recipient]
  {
    var next := drawn + [(order[|drawn|], recipient)];
    assert next[..|drawn|] == drawn;
    assert forall t :: 0 <= t < |drawn| ==> next[..t] == drawn[..t];
  }

  /** Every completed draw over an ordering of the people is a secret-santa assignment. */
  lemma {:induction false} CompleteDrawIsSecretSanta(drawn: seq<Pair>, order: seq<Name>, people: set<Name>, cs: seq<Constraint>)
    requires IsOrdering(order, people)
    requires IsDraw(drawn, order, cs) && |drawn| == |order|
    ensures IsSecretSanta(drawn, people, cs)
  {
    assert Givers(drawn) == order;
    var rs := Recipients(drawn);
    forall s, t | 0 <= s < t < |drawn|
      ensures rs[s] != rs[t]
    {
      assert Recipients(drawn[..t])[s] == drawn[s].1;
    }
    assert Elements(rs) <= people;
    DistinctCard(order);
    FillsSet(rs, people);
  }

  /** A secret-santa assignment has one pair per person, each joining two different people of the group. */
  lemma SecretSantaShape(pairs: seq<Pair>, people: set<Name>, cs: seq<Constraint>)
    requires IsSecretSanta(pairs, people, cs)
    ensures |pairs| == |people|
    ensures forall t :: 0 <= t < |pairs| ==> pairs[t].0 in people && pairs[t].1 in people && pairs[t].0 != pairs[t].1
  {
    DistinctCard(Givers(pairs));
    forall t | 0 <= t < |pairs|
      ensures pairs[t].0 in people && pairs[t].1 in people
    {
      assert Givers(pairs)[t] in Elements(Givers(pairs));
      assert Recipients(pairs)[t] in Elements(Recipients(pairs));
    }
  }

  /** With one person, anyone who gives and anyone who receives is that person. */
  lemma SingletonGivesToSelf(pairs: seq<Pair>, people: set<Name>)
    requires |people| == 1 && Distinct(Givers(pairs))
    requires Elements(Givers(pairs)) == people && Elements(Recipients(pairs)) == people
    ensures |pairs| == 1 && pairs[0].0 == pairs[0].1
  {
    DistinctCard(Givers(pairs));
    var p :| p in people;
    assert people == {p};
    assert pairs[0].0 in Elements(Givers(pairs));
    assert pairs[0].1 in Elements(Recipients(pairs));
  }

  /** With one person there is no secret-santa assignment at all. */
  lemma SingletonHasNone(pairs: seq<Pair>, people: set<Name>, cs: seq<Constraint>)
    requires |people| == 1
    ensures !IsSecretSanta(pairs, people, cs)
  {
    if Distinct(Givers(pairs)) && Elements(Givers(pairs)) == people && Elements(Recipients(pairs)) == people {
      SingletonGivesToSelf(pairs, people);
    }
  }
}
