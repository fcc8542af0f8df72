/**
 * The part of a spreadsheet the tools use: cell values, a worksheet written
 * cell by cell or a row at a time, and `coord`, the "A1"-style name of a
 * cell. openpyxl itself is not modelled; `get_column_letter` is a parameter.
 */
module Sheet {
  import opened Wrappers
  import opened Text

  /** A cell's value: empty (`None`), a string, or an integer. */
  datatype Cell = Empty | Str(text: string) | Num(n: int)

  /** Python's `s[i]` for an index that may be negative; `None` where it raises `IndexError`. */
  function PyIndex<T>(s: seq<T>, i: int): (r: Option<T>)
    ensures r.Some? <==> -|s| <= i < |s|
    ensures r.Some? ==> r.value == if i >= 0 then s[i] else s[|s| + i]
  {
    if 0 <= i < |s| then Some(s[i]) else if -|s| <= i < 0 then Some(s[|s| + i]) else None
  }

  /** `['']  * width`: a row of empty strings. */
  function Blank(width: nat): (r: seq<Cell>)
    ensures |r| == width && forall c :: 0 <= c < width ==> r[c] == Str("")
  {
    seq(width, _ => Str(""))
  }

  /**
   * The cells `m` after `values` are written into row `row`, the first value
   * in column 1. Cells are keyed `(row, column)`, both 1-based.
   */
  function Placed(m: map<(nat, nat), Cell>, row: nat, values: seq<Cell>): map<(nat, nat), Cell>
    decreases |values|
  {
    if values == [] then m
    else Placed(m, row, values[..|values| - 1])[(row, |values|) := values[|values| - 1]]
  }

  /** Row `row` of `m` holds `values` from column 1 on. */
  predicate RowHolds(m: map<(nat, nat), Cell>, row: nat, values: seq<Cell>) {
    forall c :: 1 <= c <= |values| ==> (row, c) in m && m[(row, c)] == values[c - 1]
  }

  /** Writing a row sets exactly its cells and leaves every other cell as it was. */
  lemma {:induction false} PlacedCells(m: map<(nat, nat), Cell>, row: nat, values: seq<Cell>)
    ensures forall c :: 1 <= c <= |values| ==> (row, c) in Placed(m, row, values) && Placed(m, row, values)[(row, c)] == values[c - 1]
    ensures forall k: (nat, nat) :: (k.0 != row || k.1 < 1 || k.1 > |values|) ==> (k in Placed(m, row, values) <==> k in m)
    ensures forall k: (nat, nat) :: (k.0 != row || k.1 < 1 || k.1 > |values|) && k in m ==> Placed(m, row, values)[k] == m[k]
    decreases |values|
  {
    if values != [] {
      PlacedCells(m, row, values[..|values| - 1]);
    }
  }

  /** Writing a row over a row of the same width replaces it. */
  lemma PlacedTwice(m: map<(nat, nat), Cell>, row: nat, first: seq<Cell>, second: seq<Cell>)
    requires |first| == |second|
    ensures Placed(Placed(m, row, first), row, second) == Placed(m, row, second)
  {
    var inner := Placed(m, row, first);
    var lhs, rhs := Placed(inner, row, second), Placed(m, row, second);
    PlacedCells(m, row, first);
    PlacedCells(inner, row, second);
    PlacedCells(m, row, second);
    forall k: (nat, nat) | k.0 != row || k.1 < 1 || k.1 > |second|
      ensures (k in lhs <==> k in rhs) && (k in lhs ==> lhs[k] == rhs[k])
    {
    }
    forall k: (nat, nat) | k.0 == row && 1 <= k.1 <= |second|
      ensures k in lhs && k in rhs && lhs[k] == rhs[k]
    {
      assert k == (row, k.1);
    }
    assert lhs.Keys == rhs.Keys;
  }

  /**
   * An openpyxl worksheet: the cells written so far and the row the next
   * `append` writes below. `cell(...)` creates a cell and `append` fills the
   * row after the lowest row any cell was created in.
   */
  class Worksheet {
    var cells: map<(nat, nat), Cell>
    var maxRow: nat

    /** A new, empty sheet. */
    constructor()
      ensures cells == map[] && maxRow == 0
    {
      cells := map[];
      maxRow := 0;
    }

    /** `ws.cell(coord(col, row)).value = v`. */
    method Put(row: nat, col: nat, v: Cell)
      modifies this
      ensures cells == old(cells)[(row, col) := v]
      ensures maxRow == if row > old(maxRow) then row else old(maxRow)
    {
      cells := cells[(row, col) := v];
      if row > maxRow {
        maxRow := row;
      }
    }

    /** `ws.append(values)`: the values fill the next row from column 1. */
    method Append(values: seq<Cell>)
      modifies this
      ensures maxRow == old(maxRow) + 1
      ensures cells == Placed(old(cells), maxRow, values)
    {
      maxRow := maxRow + 1;
      cells := Placed(cells, maxRow, values);
    }

    /** Assigning `.value` to each cell of an existing row, left to right. */
    method Overwrite(row: nat, values: seq<Cell>)
      modifies this
      ensures maxRow == old(maxRow)
      ensures cells == Placed(old(cells), row, values)
    {
      cells := Placed(cells, row, values);
    }
  }

  /**
   * `coord(col, row)` for a numeric column: the column's letters followed by
   * the row number, as `'{}{}'.format(get_column_letter(col), row)`.
   */
  function Coord(col: nat, row: nat, letters: nat -> string): string {
    letters(col) + DecimalString(row)
  }

  lemma CharOfConcat(a: string, b: string, k: nat)
    requires k < |a| + |b|
    ensures (a + b)[k] == if k < |a| then a[k] else b[k - |a|]
  {
  }

  /** Two cells get the same name only if they are the same cell, whenever column letters name columns uniquely. */
  lemma CoordInjective(c1: nat, r1: nat, c2: nat, r2: nat, letters: nat -> string)
    requires forall c: nat, i :: 0 <= i < |letters(c)| ==> !IsDigit(letters(c)[i])
    requires forall a: nat, b: nat :: letters(a) == letters(b) ==> a == b
    requires Coord(c1, r1, letters) == Coord(c2, r2, letters)
    ensures c1 == c2 && r1 == r2
  {
    var l1, l2 := letters(c1), letters(c2);
    var d1, d2 := DecimalString(r1), DecimalString(r2);
    var s := l1 + d1;
    assert s == l2 + d2;
    if |l1| < |l2| {
      CharOfConcat(l1, d1, |l1|);
      assert false;
    } else if |l2| < |l1| {
      CharOfConcat(l1, d1, |l2|);
      assert false;
    }
    assert l1 == s[..|l1|] == l2;
    assert d1 == s[|l1|..] == d2;
    DecimalInjective(r1, r2);
  }
}
