/**
 * The library's own usage scenarios, stated against the model: a
 * three-person matrix, a set that is undone, and a three-person group
 * whose draw, when it succeeds, gives everyone one of the other two.
 */
module Scenarios {
  import opened Basics
  import opened GiftMatrix
  import opened Constraints
  import opened Assignments
  import opened SantaGroup

  /** A fresh matrix over a, b, c: false on the diagonal, true elsewhere, and rows as listed. */
  method MatrixOverThree() returns (m: Matrix)
    ensures m.Valid() && m.keys == ["a", "b", "c"]
    ensures m.Size() == 3
    ensures m.Contains("a") && m.Contains("b") && m.Contains("c")
    ensures !m.Contains("d") && !m.Contains("aa")
    ensures !m.Get("a", "a") && !m.Get("b", "b") && !m.Get("c", "c")
    ensures m.Get("a", "b") && m.Get("a", "c") && m.Get("b", "a")
    ensures m.Get("b", "c") && m.Get("c", "a") && m.Get("c", "b")
    ensures m.GetRow("a") == [false, true, true]
    ensures m.GetRow("b") == [true, false, true]
    ensures m.GetRow("c") == [true, true, false]
  {
    m := new Matrix(["a", "b", "c"]);
    assert m.keys[0] == "a" && m.keys[1] == "b" && m.keys[2] == "c";
  }

  /** A matrix over a single key has size 1, and its one cell is false. */
  method MatrixOverOne() returns (m: Matrix)
    ensures m.Valid() && m.keys == ["a"]
    ensures m.Size() == 1
    ensures m.Contains("a") && !m.Get("a", "a")
  {
    m := new Matrix(["a"]);
    assert m.keys[0] == "a";
  }

  /** Changing one cell and then writing its old value back leaves the grid as it was. */
  method SetThenRestore(m: Matrix, x: Name, y: Name)
    requires m.Valid() && x in m.indexes && y in m.indexes
    modifies m
    ensures m.Valid() && m.keys == old(m.keys) && m.data == old(m.data)
  {
    var v := m.Get(x, y);
    m.Set(x, y, !v);
    m.Set(x, y, v);
    assert |m.data| == |old(m.data)|;
    forall i | 0 <= i < |m.data| ensures m.data[i] == old(m.data)[i] {
      assert |m.data[i]| == |old(m.data)[i]|;
    }
  }

  /** A new group that is given one name contains that name and no other. */
  method AddThenContains(x: Name, y: Name) returns (group: Group)
    requires x != y
    ensures group.ContainsName(x) && !group.ContainsName(y)
    ensures group.constraints == []
  {
    group := new Group();
    group.Add(x);
  }

  /** A secret-santa assignment among three different people: three pairs, each between two of them. */
  lemma ThreePeoplePairs(pairs: seq<Pair>, x: Name, y: Name, z: Name, cs: seq<Constraint>)
    requires x != y && y != z && x != z
    requires IsSecretSanta(pairs, {x, y, z}, cs)
    ensures |pairs| == 3
    ensures forall t :: 0 <= t < |pairs| ==>
              pairs[t].0 in {x, y, z} && pairs[t].1 in {x, y, z} && pairs[t].0 != pairs[t].1
  {
    ThreeCard(x, y, z);
    SecretSantaShape(pairs, {x, y, z}, cs);
  }

  lemma ThreeCard(x: Name, y: Name, z: Name)
    requires x != y && y != z && x != z
    ensures |{x, y, z}| == 3
  {
  }

  /**
   * A group of three different people without constraints: a successful
   * assignment has three pairs, and each person gives to one of the other
   * two; otherwise every attempt got stuck.
   */
  method ThreeWithoutConstraints(x: Name, y: Name, z: Name) returns (r: Result<seq<Pair>, AssignError>)
    requires x != y && y != z && x != z
    ensures r.Ok? ==> |r.value| == 3
    ensures r.Ok? ==> forall t :: 0 <= t < |r.value| ==>
              r.value[t].0 in {x, y, z} && r.value[t].1 in {x, y, z} && r.value[t].0 != r.value[t].1
    ensures r.Err? ==> r == Err(GivingUp)
  {
    var group := new Group();
    group.Add(x);
    group.Add(y);
    group.Add(z);
    assert group.constraints == [] && group.peopleSet == {x, y, z};
    assert FirstUnknown(group.constraints, group.peopleSet) == None;
    ghost var order, dead;
    r, order, dead := group.Assign();
    if r.Ok? {
      ThreePeoplePairs(r.value, x, y, z, []);
    }
  }
}
