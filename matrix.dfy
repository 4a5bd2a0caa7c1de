/**
 * The "may X give to Y" grid that one assignment attempt works on: a
 * square boolean matrix over an ordered list of identifiers, with a map
 * from identifier to position.
 */
module GiftMatrix {
  import opened Basics

  class Matrix {
    /** The identifiers, in row/column order. */
    var keys: seq<Name>
    /** Position of each identifier in `keys`. */
    var indexes: map<Name, nat>
    /** `data[i][j]`: `keys[i]` may currently give to `keys[j]`. */
    var data: seq<seq<bool>>

    /** The grid is |keys| by |keys| and `indexes` inverts `keys`. */
    ghost predicate Valid()
      reads this
    {
      |data| == |keys| &&
      (forall i :: 0 <= i < |data| ==> |data[i]| == |keys|) &&
      (forall k :: k in indexes ==> indexes[k] < |keys| && keys[indexes[k]] == k) &&
      (forall i :: 0 <= i < |keys| ==> keys[i] in indexes && indexes[keys[i]] == i)
    }

    /**
     * Every cell is true except the diagonal: nobody may give to
     * themselves. The caller passes distinct identifiers (the engine
     * passes the members of a set).
     */
    constructor (keys: seq<Name>)
      requires Distinct(keys)
      ensures Valid() && this.keys == keys
      ensures forall i, j :: 0 <= i < |keys| && 0 <= j < |keys| ==> data[i][j] == (i != j)
    {
      var size := |keys|;
      var lookup: map<Name, nat> := map[];
      for i := 0 to size
        invariant forall k :: k in lookup ==> lookup[k] < i && keys[lookup[k]] == k
        invariant forall j :: 0 <= j < i ==> keys[j] in lookup && lookup[keys[j]] == j
      {
        lookup := lookup[keys[i] := i];
      }
      var grid := seq(size, _ => seq(size, _ => true));
      for i := 0 to size
        invariant |grid| == size
        invariant forall r :: 0 <= r < size ==> |grid[r]| == size
        invariant forall r, c :: 0 <= r < size && 0 <= c < size ==> grid[r][c] == (r != c || r >= i)
      {
        grid := grid[i := grid[i][i := false]];
      }
      this.keys := keys;
      this.indexes := lookup;
      this.data := grid;
    }

    /** The cell for giver `x` and recipient `y`; both must be keys. */
    function Get(x: Name, y: Name): (r: bool)
      reads this
      requires Valid() && x in indexes && y in indexes
      ensures forall i, j :: 0 <= i < |keys| && 0 <= j < |keys| && keys[i] == x && keys[j] == y ==> r == data[i][j]
    {
      data[indexes[x]][indexes[y]]
    }

    /** A copy of x's row: entry j says whether x may give to `keys[j]`. */
    function GetRow(x: Name): (row: seq<bool>)
      reads this
      requires Valid() && x in indexes
      ensures |row| == |keys|
      ensures forall j :: 0 <= j < |keys| ==> row[j] == Get(x, keys[j])
    {
      data[indexes[x]]
    }

    /** Sets one cell; every other cell keeps its value. */
    method Set(x: Name, y: Name, val: bool)
      requires Valid() && x in indexes && y in indexes
      modifies this
      ensures Valid() && keys == old(keys) && indexes == old(indexes)
      ensures Get(x, y) == val
      ensures forall i, j :: 0 <= i < |keys| && 0 <= j < |keys| ==>
                data[i][j] == if i == indexes[x] && j == indexes[y] then val else old(data[i][j])
    {
      var ix, iy := indexes[x], indexes[y];
      data := data[ix := data[ix][iy := val]];
    }

    /** Sets column y in every row; every other column keeps its values. */
    method SetCol(y: Name, val: bool)
      requires Valid() && y in indexes
      modifies this
      ensures Valid() && keys == old(keys) && indexes == old(indexes)
      ensures forall i, j :: 0 <= i < |keys| && 0 <= j < |keys| ==>
                data[i][j] == if j == indexes[y] then val else old(data[i][j])
    {
      var iy := indexes[y];
      for i := 0 to |data|
        invariant keys == old(keys) && indexes == old(indexes)
        invariant |data| == |keys|
        invariant forall r :: 0 <= r < |data| ==> |data[r]| == |keys|
        invariant forall r, c :: 0 <= r < |keys| && 0 <= c < |keys| ==>
                    data[r][c] == if r < i && c == iy then val else old(data[r][c])
      {
        data := data[i := data[i][iy := val]];
      }
    }

    /** Whether `key` is one of the identifiers. */
    function Contains(key: Name): (r: bool)
      reads this
      requires Valid()
      ensures r <==> key in keys
      ensures r <==> key in indexes
    {
      key in indexes
    }

    /** The side length of the square grid. */
    function Size(): (n: nat)
      reads this
      requires Valid()
      ensures n == |data|
      ensures forall i :: 0 <= i < n ==> |data[i]| == n
    {
      |keys|
    }

    /** The identifier at a position: the inverse of the index lookup. */
    function KeyAt(index: nat): (k: Name)
      reads this
      requires Valid() && index < |keys|
      ensures k in indexes && indexes[k] == index
    {
      keys[index]
    }
  }
}
