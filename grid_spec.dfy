/**
 * States of the gift matrix during one attempt, described on the grid
 * value: freshly built, constraints cleared, and in step with a partial
 * draw. The engine's loops keep these as invariants.
 */
module GridSpec {
  import opened Basics
  import opened Constraints
  import opened Assignments

  /** `data` is an n-by-n grid. */
  ghost predicate Square(data: seq<seq<bool>>, n: nat) {
    |data| == n && forall i :: 0 <= i < n ==> |data[i]| == n
  }

  /** A freshly built grid: every cell true except the diagonal. */
  ghost predicate Fresh(data: seq<seq<bool>>, n: nat) {
    Square(data, n) && forall i, j :: 0 <= i < n && 0 <= j < n ==> data[i][j] == (i != j)
  }

  /** `after` is `before` with exactly the edges blocked by one of `cs` cleared. */
  ghost predicate ClearedBy(after: seq<seq<bool>>, before: seq<seq<bool>>, keys: seq<Name>, cs: seq<Constraint>) {
    Square(after, |keys|) && Square(before, |keys|) &&
    forall i, j :: 0 <= i < |keys| && 0 <= j < |keys| ==>
      after[i][j] == (before[i][j] && !Excluded(cs, keys[i], keys[j]))
  }

  /** The grid holds, for every two people, exactly whether the second is still eligible for the first. */
  ghost predicate Reflects(data: seq<seq<bool>>, people: seq<Name>, cs: seq<Constraint>, drawn: seq<Pair>) {
    Square(data, |people|) &&
    forall i, j :: 0 <= i < |people| && 0 <= j < |people| ==>
      data[i][j] == Eligible(cs, people[i], people[j], drawn)
  }

  lemma ClearedByNothing(data: seq<seq<bool>>, keys: seq<Name>)
    requires Square(data, |keys|)
    ensures ClearedBy(data, data, keys, [])
  {
  }

  /** Clearing for `cs` and then for `c` is clearing for `cs + [c]`. */
  lemma ClearedBySnoc(after: seq<seq<bool>>, mid: seq<seq<bool>>, before: seq<seq<bool>>,
                      keys: seq<Name>, cs: seq<Constraint>, c: Constraint)
    requires ClearedBy(mid, before, keys, cs) && ClearedBy(after, mid, keys, [c])
    ensures ClearedBy(after, before, keys, cs + [c])
  {
    forall i, j | 0 <= i < |keys| && 0 <= j < |keys|
      ensures after[i][j] == (before[i][j] && !Excluded(cs + [c], keys[i], keys[j]))
    {
      ExcludedSnoc(cs, c, keys[i], keys[j]);
      ExcludedSnoc([], c, keys[i], keys[j]);
      assert [] + [c] == [c];
    }
  }

  /** Clearing for the first k constraints and then for constraint k is clearing for the first k + 1. */
  lemma ClearedByPrefix(after: seq<seq<bool>>, mid: seq<seq<bool>>, before: seq<seq<bool>>,
                        keys: seq<Name>, cs: seq<Constraint>, k: nat)
    requires k < |cs|
    requires ClearedBy(mid, before, keys, cs[..k]) && ClearedBy(after, mid, keys, [cs[k]])
    ensures ClearedBy(after, before, keys, cs[..k + 1])
  {
    assert cs[..k + 1] == cs[..k] + [cs[k]];
    ClearedBySnoc(after, mid, before, keys, cs[..k], cs[k]);
  }

  /** `after` is `before` with the single cell (r, c) set to false. */
  ghost predicate CellCleared(after: seq<seq<bool>>, before: seq<seq<bool>>, n: nat, r: nat, c: nat) {
    Square(after, n) && Square(before, n) &&
    forall i, j :: 0 <= i < n && 0 <= j < n ==>
      after[i][j] == if i == r && j == c then false else before[i][j]
  }

  /** Clearing the cell from `from` to `to` is clearing for `Exclude(from, to)`. */
  lemma ExcludeCleared(after: seq<seq<bool>>, before: seq<seq<bool>>, keys: seq<Name>, rf: nat, rt: nat)
    requires Distinct(keys) && rf < |keys| && rt < |keys|
    requires CellCleared(after, before, |keys|, rf, rt)
    ensures ClearedBy(after, before, keys, [Exclude(keys[rf], keys[rt])])
  {
    var c := Exclude(keys[rf], keys[rt]);
    forall i, j | 0 <= i < |keys| && 0 <= j < |keys|
      ensures after[i][j] == (before[i][j] && !Excluded([c], keys[i], keys[j]))
    {
      ExcludedSnoc([], c, keys[i], keys[j]);
      assert [] + [c] == [c];
      assert keys[i] == keys[rf] <==> i == rf;
      assert keys[j] == keys[rt] <==> j == rt;
    }
  }

  /** Clearing the cells between a and b in both directions is clearing for `ExcludePair(a, b)`. */
  lemma PairCleared(after: seq<seq<bool>>, mid: seq<seq<bool>>, before: seq<seq<bool>>, keys: seq<Name>, ra: nat, rb: nat)
    requires Distinct(keys) && ra < |keys| && rb < |keys|
    requires CellCleared(mid, before, |keys|, ra, rb) && CellCleared(after, mid, |keys|, rb, ra)
    ensures ClearedBy(after, before, keys, [ExcludePair(keys[ra], keys[rb])])
  {
    var c := ExcludePair(keys[ra], keys[rb]);
    forall i, j | 0 <= i < |keys| && 0 <= j < |keys|
      ensures after[i][j] == (before[i][j] && !Excluded([c], keys[i], keys[j]))
    {
      ExcludedSnoc([], c, keys[i], keys[j]);
      assert [] + [c] == [c];
      assert keys[i] == keys[ra] <==> i == ra;
      assert keys[j] == keys[rb] <==> j == rb;
      assert keys[i] == keys[rb] <==> i == rb;
      assert keys[j] == keys[ra] <==> j == ra;
    }
  }

  /** A fresh grid with the constraints cleared is in step with the empty draw. */
  lemma FreshClearedReflects(data: seq<seq<bool>>, initial: seq<seq<bool>>, people: seq<Name>, cs: seq<Constraint>)
    requires Distinct(people)
    requires Fresh(initial, |people|) && ClearedBy(data, initial, people, cs)
    ensures Reflects(data, people, cs, [])
  {
    forall i, j | 0 <= i < |people| && 0 <= j < |people|
      ensures data[i][j] == Eligible(cs, people[i], people[j], [])
    {
      assert people[i] == people[j] <==> i == j;
    }
  }

  /** Clearing the column of the person just drawn keeps the grid in step with the draw. */
  lemma ClearColumnReflects(data: seq<seq<bool>>, data': seq<seq<bool>>, people: seq<Name>,
                            cs: seq<Constraint>, drawn: seq<Pair>, giver: Name, jc: nat)
    requires Distinct(people) && jc < |people|
    requires Reflects(data, people, cs, drawn) && Square(data', |people|)
    requires forall i, j :: 0 <= i < |people| && 0 <= j < |people| ==>
               data'[i][j] == if j == jc then false else data[i][j]
    ensures Reflects(data', people, cs, drawn + [(giver, people[jc])])
  {
    var drawn' := drawn + [(giver, people[jc])];
    assert Recipients(drawn') == Recipients(drawn) + [people[jc]];
    forall i, j | 0 <= i < |people| && 0 <= j < |people|
      ensures data'[i][j] == Eligible(cs, people[i], people[j], drawn')
    {
      if j != jc {
        assert people[j] != people[jc];
      }
    }
  }

  /** A row with no true cell left, in step with a partial draw of k pairs, is a dead end at person k. */
  lemma EmptyRowStuck(data: seq<seq<bool>>, people: seq<Name>, cs: seq<Constraint>, drawn: seq<Pair>)
    requires Reflects(data, people, cs, drawn) && IsDraw(drawn, people, cs) && |drawn| < |people|
    requires forall j :: 0 <= j < |people| ==> !data[|drawn|][j]
    ensures Stuck(drawn, people, cs)
  {
  }
}
