/**
 * The group of people, its constraints, and the randomized
 * draw-with-retry assignment. The random source appears only as choices:
 * the shuffle may produce any duplicate-free ordering and each draw may
 * pick any eligible person (`:|`).
 */
module SantaGroup {
  import opened Basics
  import opened GiftMatrix
  import opened Constraints
  import opened Assignments
  import opened GridSpec

  datatype AssignError =
    | BadConstraint(name: Name)
    | GivingUp

  /**
   * The shuffle of the people: collects the set into some order. The
   * order is an arbitrary one; its uniformity is not modelled.
   */
  method Shuffle(people: set<Name>) returns (order: seq<Name>)
    ensures IsOrdering(order, people)
  {
    order := [];
    var rest := people;
    while rest != {}
      invariant Distinct(order)
      invariant Elements(order) + rest == people
      invariant forall x :: x in rest ==> x !in order
      decreases rest
    {
      var x :| x in rest;
      assert Elements(order + [x]) == Elements(order) + {x};
      order := order + [x];
      rest := rest - {x};
    }
  }

  /**
   * Applies one constraint: checks its names against the matrix, first
   * name first, and reports the first unknown one; otherwise clears the
   * edges it blocks and no other cell.
   */
  method ApplyConstraint(m: Matrix, c: Constraint) returns (bad: Option<Name>)
    requires m.Valid()
    modifies m
    ensures m.Valid() && m.keys == old(m.keys)
    ensures bad == if Known(c, Elements(m.keys)) then None else Some(UnknownName(c, Elements(m.keys)))
    ensures bad.None? ==> ClearedBy(m.data, old(m.data), m.keys, [c])
  {
    KeysDistinct(m);
    ghost var d0 := m.data;
    match c {
      case ExcludePair(a, b) =>
        if !m.Contains(a) {
          return Some(a);
        }
        if !m.Contains(b) {
          return Some(b);
        }
        m.Set(a, b, false);
        ghost var d1 := m.data;
        m.Set(b, a, false);
        PairCleared(m.data, d1, d0, m.keys, m.indexes[a], m.indexes[b]);
      case Exclude(from, to) =>
        if !m.Contains(from) {
          return Some(from);
        }
        if !m.Contains(to) {
          return Some(to);
        }
        m.Set(from, to, false);
        ExcludeCleared(m.data, d0, m.keys, m.indexes[from], m.indexes[to]);
    }
    bad := None;
  }

  /**
   * Applies the constraints in list order. The first constraint naming a
   * stranger stops the loop and its unknown name is returned. Otherwise
   * every blocked edge is cleared and no other cell changes.
   */
  method ApplyConstraints(m: Matrix, cs: seq<Constraint>) returns (bad: Option<Name>)
    requires m.Valid()
    modifies m
    ensures m.Valid() && m.keys == old(m.keys)
    ensures bad == FirstUnknown(cs, Elements(m.keys))
    ensures bad.None? ==> ClearedBy(m.data, old(m.data), m.keys, cs)
  {
    ghost var keys := m.keys;
    ghost var people := Elements(keys);
    ghost var d0 := m.data;
    ClearedByNothing(d0, keys);
    assert cs[..0] == [];
    var k := 0;
    while k < |cs|
      invariant k <= |cs|
      invariant m.Valid() && m.keys == keys
      invariant FirstUnknown(cs[..k], people) == None
      invariant ClearedBy(m.data, d0, keys, cs[..k])
    {
      ghost var before := m.data;
      var r := ApplyConstraint(m, cs[k]);
      if r.Some? {
        ApplyFailsAt(cs, k, people);
        return r;
      }
      ApplyPassesAt(cs, k, people);
      ClearedByPrefix(m.data, before, d0, keys, cs, k);
      k := k + 1;
    }
    assert cs[..k] == cs;
    bad := None;
  }

  /** Validation of `cs` fails at k when its first k constraints pass and constraint k does not. */
  lemma ApplyFailsAt(cs: seq<Constraint>, k: nat, people: set<Name>)
    requires k < |cs| && FirstUnknown(cs[..k], people) == None && !Known(cs[k], people)
    ensures FirstUnknown(cs, people) == Some(UnknownName(cs[k], people))
  {
    assert cs == cs[..k] + cs[k..];
    assert cs[k..][0] == cs[k];
    FirstUnknownAppend(cs[..k], cs[k..], people);
  }

  /** Passing validation for the first k constraints and for constraint k passes it for the first k + 1. */
  lemma ApplyPassesAt(cs: seq<Constraint>, k: nat, people: set<Name>)
    requires k < |cs| && FirstUnknown(cs[..k], people) == None && Known(cs[k], people)
    ensures FirstUnknown(cs[..k + 1], people) == None
  {
    assert cs[..k + 1] == cs[..k] + [cs[k]];
    FirstUnknownAppend(cs[..k], [cs[k]], people);
  }

  /** The people x may still give to, in key order. */
  method CollectBasket(m: Matrix, x: Name) returns (basket: seq<Name>)
    requires m.Valid() && x in m.indexes
    ensures forall y :: y in basket ==> y in m.indexes
    ensures forall j :: 0 <= j < |m.keys| ==> (m.keys[j] in basket <==> m.Get(x, m.keys[j]))
  {
    var row := m.GetRow(x);
    basket := [];
    for i := 0 to |row|
      invariant forall y :: y in basket ==> y in m.indexes
      invariant forall j :: 0 <= j < |m.keys| ==> (m.keys[j] in basket <==> j < i && row[j])
    {
      if row[i] {
        basket := basket + [m.KeyAt(i)];
      }
    }
  }

  /**
   * One attempt of the draw: each person in turn takes an eligible
   * recipient, whose column is then cleared. The matrix must hold exactly
   * the constraint-permitted, non-self edges. An attempt either completes
   * or stops at the first person with an empty basket.
   */
  method DrawAttempt(m: Matrix, people: seq<Name>, ghost cs: seq<Constraint>)
    returns (drawn: Option<seq<Pair>>, ghost stuck: seq<Pair>)
    requires m.Valid() && m.keys == people
    requires Reflects(m.data, people, cs, [])
    modifies m
    ensures m.Valid() && m.keys == people
    ensures drawn.Some? ==> Reflects(m.data, people, cs, drawn.value)
    ensures drawn.Some? ==> |drawn.value| == |people| && IsDraw(drawn.value, people, cs)
    ensures drawn.None? ==> Stuck(stuck, people, cs)
    ensures people == [] ==> drawn == Some([])
  {
    KeysDistinct(m);
    var assignments: seq<Pair> := [];
    var k := 0;
    while k < |people|
      invariant k <= |people|
      invariant m.Valid() && m.keys == people
      invariant |assignments| == k && IsDraw(assignments, people, cs)
      invariant Reflects(m.data, people, cs, assignments)
    {
      var next := DrawStep(m, people, cs, assignments, k);
      if next.None? {
        return None, assignments;
      }
      assignments := next.value;
      k := k + 1;
    }
    return Some(assignments), [];
  }

  /**
   * Person k's draw, after the pairs `drawn`: collects their basket and,
   * unless it is empty, chooses some recipient from it. An empty basket
   * means the attempt is stuck.
   */
  method PickRecipient(m: Matrix, people: seq<Name>, ghost cs: seq<Constraint>, ghost drawn: seq<Pair>, k: nat)
    returns (choice: Option<Name>)
    requires m.Valid() && m.keys == people
    requires IsDraw(drawn, people, cs) && k == |drawn| < |people|
    requires Reflects(m.data, people, cs, drawn)
    ensures choice.None? ==> Stuck(drawn, people, cs)
    ensures choice.Some? ==> choice.value in people && Eligible(cs, people[k], choice.value, drawn)
  {
    var person := people[k];
    var basket := CollectBasket(m, person);
    if basket == [] {
      forall j | 0 <= j < |people| ensures !m.data[k][j] {
        assert m.Get(person, people[j]) == m.data[k][j];
      }
      EmptyRowStuck(m.data, people, cs, drawn);
      return None;
    }
    assert basket[0] in basket;
    var c :| c in basket;
    ghost var jc := m.indexes[c];
    assert m.Get(person, c) == m.data[k][jc];
    choice := Some(c);
  }

  /**
   * The turn of person k, after the pairs `drawn`: picks a recipient; when
   * there is one, clears their column and appends the pair.
   */
  method DrawStep(m: Matrix, people: seq<Name>, ghost cs: seq<Constraint>, drawn: seq<Pair>, k: nat)
    returns (next: Option<seq<Pair>>)
    requires m.Valid() && m.keys == people && Distinct(people)
    requires IsDraw(drawn, people, cs) && k == |drawn| < |people|
    requires Reflects(m.data, people, cs, drawn)
    modifies m
    ensures m.Valid() && m.keys == people
    ensures next.None? ==> Stuck(drawn, people, cs)
    ensures next.Some? ==> |next.value| == k + 1 && next.value == drawn + [(people[k], next.value[k].1)]
    ensures next.Some? ==> IsDraw(next.value, people, cs) && Reflects(m.data, people, cs, next.value)
  {
    var choice := PickRecipient(m, people, cs, drawn, k);
    if choice.None? {
      return None;
    }
    var c := choice.value;
    DrawExtend(drawn, people, cs, c);
    ghost var jc := m.indexes[c];
    ghost var before := m.data;
    m.SetCol(c, false);
    ClearColumnReflects(before, m.data, people, cs, drawn, people[k], jc);
    next := Some(drawn + [(people[k], c)]);
  }

  /** The keys of a valid matrix are distinct, since the index map inverts them. */
  lemma KeysDistinct(m: Matrix)
    requires m.Valid()
    ensures Distinct(m.keys)
  {
    forall i, j | 0 <= i < j < |m.keys| ensures m.keys[i] != m.keys[j] {
      assert m.indexes[m.keys[i]] == i && m.indexes[m.keys[j]] == j;
    }
  }

  /**
   * One attempt of `assign`: a fresh matrix over the people, the
   * constraints applied to it, then the draw. Reports validation's first
   * unknown name, or else the completed draw or the dead end reached.
   */
  method Attempt(people: seq<Name>, cs: seq<Constraint>)
    returns (bad: Option<Name>, drawn: Option<seq<Pair>>, ghost stuck: seq<Pair>)
    requires Distinct(people)
    ensures bad == FirstUnknown(cs, Elements(people))
    ensures bad.None? && drawn.Some? ==> |drawn.value| == |people| && IsDraw(drawn.value, people, cs)
    ensures bad.None? && drawn.Some? ==> IsSecretSanta(drawn.value, Elements(people), cs)
    ensures bad.None? && drawn.None? ==> Stuck(stuck, people, cs)
    ensures bad.None? && people == [] ==> drawn == Some([])
    ensures bad.None? && |people| == 1 ==> drawn.None?
  {
    var matrix := new Matrix(people);
    ghost var initial := matrix.data;
    bad := ApplyConstraints(matrix, cs);
    if bad.Some? {
      return bad, None, [];
    }
    FreshClearedReflects(matrix.data, initial, people, cs);
    drawn, stuck := DrawAttempt(matrix, people, cs);
    if drawn.Some? {
      CompleteDrawIsSecretSanta(drawn.value, people, Elements(people), cs);
      if |people| == 1 {
        DistinctCard(people);
        SingletonHasNone(drawn.value, Elements(people), cs);
      }
    }
  }

  class Group {
    var peopleSet: set<Name>
    var constraints: seq<Constraint>
    const maxAttempts: nat := 1000

    constructor ()
      ensures peopleSet == {} && constraints == []
    {
      peopleSet := {};
      constraints := [];
    }

    /** Adds a person; adding one already present changes nothing. */
    method Add(name: Name)
      modifies this
      ensures peopleSet == old(peopleSet) + {name} && constraints == old(constraints)
    {
      peopleSet := peopleSet + {name};
    }

    method AddConstraint(c: Constraint)
      modifies this
      ensures constraints == old(constraints) + [c] && peopleSet == old(peopleSet)
    {
      constraints := constraints + [c];
    }

    /** Forbids `from` drawing `to`; the names are checked only when assigning. */
    method Exclude(from: Name, to: Name)
      modifies this
      ensures constraints == old(constraints) + [Constraint.Exclude(from, to)] && peopleSet == old(peopleSet)
    {
      AddConstraint(Constraint.Exclude(from, to));
    }

    /** Forbids `a` and `b` drawing each other; the names are checked only when assigning. */
    method ExcludePair(a: Name, b: Name)
      modifies this
      ensures constraints == old(constraints) + [Constraint.ExcludePair(a, b)] && peopleSet == old(peopleSet)
    {
      AddConstraint(Constraint.ExcludePair(a, b));
    }

    /** Whether `name` has been added. */
    function ContainsName(name: Name): (r: bool)
      reads this
      ensures r <==> name in peopleSet
    {
      name in peopleSet
    }

    /**
     * Draws a secret-santa assignment. The people are shuffled once; then
     * up to `maxAttempts` attempts each build a fresh matrix, apply the
     * constraints and draw. Ghost outputs: the shuffled `order` and, for
     * each failed attempt, the partial draw at which it got stuck.
     */
    method Assign() returns (r: Result<seq<Pair>, AssignError>, ghost order: seq<Name>, ghost dead: seq<seq<Pair>>)
      ensures IsOrdering(order, peopleSet)
      ensures (r.Err? && r.error.BadConstraint?) <==> FirstUnknown(constraints, peopleSet).Some?
      ensures FirstUnknown(constraints, peopleSet).Some? ==>
                r == Err(BadConstraint(FirstUnknown(constraints, peopleSet).value))
      ensures r.Ok? ==> IsSecretSanta(r.value, peopleSet, constraints)
      ensures r.Ok? ==> Givers(r.value) == order && IsDraw(r.value, order, constraints)
      ensures r == Err(GivingUp) ==>
                |dead| == maxAttempts && forall d :: d in dead ==> Stuck(d, order, constraints)
      ensures r == Err(GivingUp) ==> |peopleSet| >= 1
      ensures peopleSet == {} && FirstUnknown(constraints, peopleSet).None? ==> r == Ok([])
      ensures |peopleSet| == 1 && FirstUnknown(constraints, peopleSet).None? ==> r == Err(GivingUp)
    {
      var people := Shuffle(peopleSet);
      order := people;
      DistinctCard(people);
      dead := [];
      for attempt := 0 to maxAttempts
        invariant |dead| == attempt
        invariant forall d :: d in dead ==> Stuck(d, order, constraints)
        invariant attempt > 0 ==> FirstUnknown(constraints, peopleSet).None?
        invariant attempt > 0 ==> |peopleSet| >= 1
      {
        var bad, drawn;
        ghost var stuck;
        bad, drawn, stuck := Attempt(people, constraints);
        if bad.Some? {
          return Err(BadConstraint(bad.value)), order, dead;
        }
        if drawn.Some? {
          return Ok(drawn.value), order, dead;
        }
        dead := dead + [stuck];
      }
      r := Err(GivingUp);
    }
  }
}
