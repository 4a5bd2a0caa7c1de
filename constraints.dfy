/**
 * Exclusion rules of a group and the validation of the names they
 * mention.
 */
module Constraints {
  import opened Basics

  /**
   * `ExcludePair(a, b)` forbids a giving to b and b giving to a;
   * `Exclude(from, to)` forbids only from giving to to.
   */
  datatype Constraint =
    | ExcludePair(a: Name, b: Name)
    | Exclude(from: Name, to: Name)

  /** Whether the single constraint `c` forbids `giver` drawing `recipient`. */
  predicate Blocks(c: Constraint, giver: Name, recipient: Name) {
    match c
    case ExcludePair(a, b) => (giver == a && recipient == b) || (giver == b && recipient == a)
    case Exclude(from, to) => giver == from && recipient == to
  }

  /** Whether some constraint in `cs` forbids `giver` drawing `recipient` (checked from the last one back). */
  predicate Excluded(cs: seq<Constraint>, giver: Name, recipient: Name) {
    cs != [] && (Blocks(cs[|cs| - 1], giver, recipient) || Excluded(cs[..|cs| - 1], giver, recipient))
  }

  /** An edge is excluded exactly when one of the constraints blocks it. */
  lemma {:induction false} ExcludedMeans(cs: seq<Constraint>, giver: Name, recipient: Name)
    ensures Excluded(cs, giver, recipient) <==> exists k :: 0 <= k < |cs| && Blocks(cs[k], giver, recipient)
  {
    if cs != [] {
      var init := cs[..|cs| - 1];
      ExcludedMeans(init, giver, recipient);
      assert forall k :: 0 <= k < |init| ==> init[k] == cs[k];
    }
  }

  /** Both names `c` mentions are people of the group. */
  predicate Known(c: Constraint, people: set<Name>) {
    match c
    case ExcludePair(a, b) => a in people && b in people
    case Exclude(from, to) => from in people && to in people
  }

  /** The name reported for an invalid constraint: its first name if unknown, else its second. */
  function UnknownName(c: Constraint, people: set<Name>): (n: Name)
    requires !Known(c, people)
    ensures n !in people
    ensures c.ExcludePair? && c.a !in people ==> n == c.a
    ensures c.Exclude? && c.from !in people ==> n == c.from
    ensures c.ExcludePair? && c.a in people ==> n == c.b
    ensures c.Exclude? && c.from in people ==> n == c.to
  {
    match c
    case ExcludePair(a, b) => if a !in people then a else b
    case Exclude(from, to) => if from !in people then from else to
  }

  /** The name that validation reports: that of the first constraint, in list order, naming a stranger. */
  function FirstUnknown(cs: seq<Constraint>, people: set<Name>): (r: Option<Name>)
    ensures r.Some? ==> r.value !in people
  {
    if cs == [] then None
    else if !Known(cs[0], people) then Some(UnknownName(cs[0], people))
    else FirstUnknown(cs[1..], people)
  }

  /** Validation passes exactly when every constraint names only people of the group. */
  lemma {:induction false} FirstUnknownNone(cs: seq<Constraint>, people: set<Name>)
    ensures FirstUnknown(cs, people) == None <==> forall k :: 0 <= k < |cs| ==> Known(cs[k], people)
  {
    if cs != [] {
      FirstUnknownNone(cs[1..], people);
      assert forall k :: 1 <= k < |cs| ==> cs[k] == cs[1..][k - 1];
    }
  }

  /**
   * When validation fails it reports constraint k, the first one naming a
   * stranger, and within it the first unknown name.
   */
  lemma {:induction false} FirstUnknownAt(cs: seq<Constraint>, people: set<Name>) returns (k: nat)
    requires FirstUnknown(cs, people).Some?
    ensures k < |cs| && !Known(cs[k], people)
    ensures forall j :: 0 <= j < k ==> Known(cs[j], people)
    ensures FirstUnknown(cs, people) == Some(UnknownName(cs[k], people))
  {
    if !Known(cs[0], people) {
      k := 0;
    } else {
      var k' := FirstUnknownAt(cs[1..], people);
      k := k' + 1;
      assert forall j :: 1 <= j < k ==> cs[j] == cs[1..][j - 1];
    }
  }

  /** Validating a concatenation: the left part's answer if it fails, else the right part's. */
  lemma {:induction false} FirstUnknownAppend(xs: seq<Constraint>, ys: seq<Constraint>, people: set<Name>)
    ensures FirstUnknown(xs + ys, people) ==
            if FirstUnknown(xs, people).Some? then FirstUnknown(xs, people) else FirstUnknown(ys, people)
  {
    if xs != [] {
      assert (xs + ys)[0] == xs[0];
      assert (xs + ys)[1..] == xs[1..] + ys;
      FirstUnknownAppend(xs[1..], ys, people);
    } else {
      assert xs + ys == ys;
    }
  }

  /** Adding one constraint at the end adds exactly the edges it blocks. */
  lemma ExcludedSnoc(cs: seq<Constraint>, c: Constraint, giver: Name, recipient: Name)
    ensures Excluded(cs + [c], giver, recipient) <==> Excluded(cs, giver, recipient) || Blocks(c, giver, recipient)
  {
    assert (cs + [c])[..|cs|] == cs;
  }
}
