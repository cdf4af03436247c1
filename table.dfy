/** A pandas data frame, as the scripts use it: named columns of equal height
    whose cells are strings or missing (NaN). Columns are added or overwritten
    in place. */
module Table {
  import opened Common

  /** A cell of a frame; `None` is pandas' NaN. */
  type Cell = Option<string>

  class Frame {
    var height: nat
    var columns: map<string, seq<Cell>>

    ghost predicate Valid()
      reads this
    {
      forall name | name in columns :: |columns[name]| == height
    }

    constructor (height: nat, columns: map<string, seq<Cell>>)
      requires forall name | name in columns :: |columns[name]| == height
      ensures Valid() && this.height == height && this.columns == columns
    {
      this.height := height;
      this.columns := columns;
    }
  }

  /** Applies `f` to every cell of a column, as `Series.apply` and `fillna` do. */
  function MapCells(column: seq<Cell>, f: Cell -> Cell): (r: seq<Cell>)
    ensures |r| == |column|
    ensures forall i | 0 <= i < |r| :: r[i] == f(column[i])
  {
    seq(|column|, i requires 0 <= i < |column| => f(column[i]))
  }
}
