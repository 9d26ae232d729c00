/**
 * The occupied length of a grid row. A row whose last cell is soft-wrapped is
 * occupied to its end; otherwise it is occupied up to and including its last
 * cell whose glyph is not a single space. A row is a sequence of cells.
 */
module LineLength {
  import opened CellFlags
  import opened TermCell

  /** The cell's glyph is exactly one space. */
  predicate Blank(cell: Cell)
    reads cell
  {
    cell.contents == " "
  }

  /** The row's last cell marks a soft line break. */
  predicate Wrapped(row: seq<Cell>)
    reads row
  {
    |row| > 0 && Contains(row[|row| - 1].flags, WRAPLINE)
  }

  /** One past the last cell that is not blank, or 0 when every cell is blank. */
  function TrimmedLength(row: seq<Cell>): nat
    reads row
  {
    if row == [] then 0
    else if !Blank(row[|row| - 1]) then |row|
    else TrimmedLength(row[..|row| - 1])
  }

  /** The occupied length of a row. */
  function OccupiedLength(row: seq<Cell>): nat
    reads row
  {
    if Wrapped(row) then |row| else TrimmedLength(row)
  }

  /** `n` ends the content of `row`: every cell from `n` on is blank and the one before it, if any, is not. */
  ghost predicate EndsContent(row: seq<Cell>, n: nat)
    reads row
  {
    && n <= |row|
    && (forall k :: n <= k < |row| ==> Blank(row[k]))
    && (n > 0 ==> !Blank(row[n - 1]))
  }

  /** The occupied length of a row whose last cell is not wrapped is the one
      position that ends its content. */
  lemma {:induction false} TrimmedLengthEndsContent(row: seq<Cell>, n: nat)
    ensures EndsContent(row, TrimmedLength(row))
    ensures EndsContent(row, n) ==> n == TrimmedLength(row)
    decreases |row|
  {
    if row != [] && Blank(row[|row| - 1]) {
      var front := row[..|row| - 1];
      TrimmedLengthEndsContent(front, n);
      if EndsContent(row, n) {
        assert n < |row|;
        assert EndsContent(front, n);
      }
    } else if row != [] && EndsContent(row, n) {
      assert !(n < |row|);
    }
  }

  /** A soft-wrapped row is occupied to its end, whatever its trailing cells hold. */
  lemma WrappedRowIsFull(row: seq<Cell>)
    requires Wrapped(row)
    ensures OccupiedLength(row) == |row|
  {
  }

  /** A row whose last cell is not wrapped is occupied exactly up to the end of its content. */
  lemma UnwrappedRowEndsAtContent(row: seq<Cell>, n: nat)
    requires !Wrapped(row)
    ensures EndsContent(row, OccupiedLength(row))
    ensures EndsContent(row, n) <==> n == OccupiedLength(row)
  {
    TrimmedLengthEndsContent(row, n);
  }

  /** Every cell that is not blank lies within the occupied length, and so
      everything beyond the occupied length is blank. */
  lemma ContentIsWithinOccupiedLength(row: seq<Cell>, k: nat)
    requires k < |row|
    ensures !Blank(row[k]) ==> k < OccupiedLength(row)
    ensures OccupiedLength(row) <= |row|
  {
    TrimmedLengthEndsContent(row, 0);
  }

  /** A row of ten spaces with `'a'` in column 5 and no wrap has occupied length 6. */
  lemma OneGlyphInTenColumns(row: seq<Cell>)
    requires |row| == 10
    requires forall k :: 0 <= k < 10 && k != 5 ==> row[k].contents == " "
    requires row[5].contents == "a"
    requires !Contains(row[9].flags, WRAPLINE)
    ensures OccupiedLength(row) == 6
  {
    TrimmedLengthEndsContent(row, 6);
  }

  /** Computes the occupied length of a non-empty row by scanning it from the end. */
  method LineLength(row: seq<Cell>) returns (length: nat)
    requires |row| > 0
    ensures length == OccupiedLength(row)
  {
    length := 0;

    if Contains(row[|row| - 1].flags, WRAPLINE) {
      return |row|;
    }

    var index := 0;
    assert row[..|row|] == row;
    while index < |row|
      invariant 0 <= index <= |row|
      invariant TrimmedLength(row[..|row| - index]) == TrimmedLength(row)
    {
      var cell := row[|row| - 1 - index];
      if cell.contents != " " {
        length := |row| - index;
        break;
      }
      assert row[..|row| - index][..|row| - index - 1] == row[..|row| - index - 1];
      index := index + 1;
    }
  }
}
