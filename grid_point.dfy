/**
 * `GridPoint`: an immutable cell coordinate (column, row) of a dashboard grid.
 * The fields are Java `int`s; the constructor refuses negative indices, and
 * `subtract` is component-wise subtraction clamped at zero.
 */
module GridPoints {
  import opened Wrappers
  import opened Decimal

  const MaxInt: int := 0x7fff_ffff

  /** A Java `int`. */
  type Int32 = x: int | -MaxInt - 1 <= x <= MaxInt

  /** A non-negative Java `int`: the only values the constructor lets through. */
  type Index = x: int | 0 <= x <= MaxInt

  /** The exception thrown by a failed `checkArgument`, with its message. */
  datatype Error = IllegalArgumentException(message: string)

  /**
   * A point whose fields are final: a Dafny datatype value cannot be changed
   * after it is built, so every point is as it was constructed.
   */
  datatype GridPoint = GridPoint(col: Index, row: Index) {

    /** `getCol()`: together with the row, the column rebuilds this very point. */
    function GetCol(): (c: Index)
      ensures Make(c, row) == Ok(this)
    {
      col
    }

    /** `getRow()`: together with the column, the row rebuilds this very point. */
    function GetRow(): (r: Index)
      ensures Make(col, r) == Ok(this)
    {
      row
    }

    /**
     * `this.subtract(other)`: builds a new point through the constructor from
     * the clamped differences; the constructor's checks are part of the model.
     */
    function Subtract(other: GridPoint): (r: Result<GridPoint, Error>)
      ensures r.Ok?
      ensures other.col <= col ==> r.value.col + other.col == col
      ensures other.col > col ==> r.value.col == 0
      ensures other.row <= row ==> r.value.row + other.row == row
      ensures other.row > row ==> r.value.row == 0
      ensures r.value.col <= col && r.value.row <= row
    {
      Make(Max(0, col - other.col), Max(0, row - other.row))
    }

    /** `toString()`, which formats with `"GridPoint(%d, %d)"`. */
    function ToString(): (s: string)
      ensures |s| >= 15 && s[..10] == "GridPoint(" && s[|s| - 1] == ')'
    {
      "GridPoint(" + IntToString(col) + ", " + IntToString(row) + ")"
    }
  }

  function Max(a: int, b: int): int {
    if a >= b then a else b
  }

  /** The constructor `new GridPoint(col, row)`: the column is checked first, then the row. */
  function Make(col: Int32, row: Int32): (r: Result<GridPoint, Error>)
    ensures r.Ok? <==> col >= 0 && row >= 0
    ensures r.Ok? ==> r.value.col == col && r.value.row == row
    ensures col < 0 ==> r == Err(IllegalArgumentException("Column index must be non-negative, was " + IntToString(col)))
    ensures col >= 0 && row < 0 ==> r == Err(IllegalArgumentException("Row index must be non-negative, was " + IntToString(row)))
  {
    if col < 0 then
      Err(IllegalArgumentException("Column index must be non-negative, was " + IntToString(col)))
    else if row < 0 then
      Err(IllegalArgumentException("Row index must be non-negative, was " + IntToString(row)))
    else
      Ok(GridPoint(col, row))
  }

  /** The getters return exactly what was passed to a successful construction. */
  lemma MakeThenGet(col: Int32, row: Int32)
    requires col >= 0 && row >= 0
    ensures Make(col, row).Ok?
    ensures Make(col, row).value.GetCol() == col && Make(col, row).value.GetRow() == row
  {
  }

  /** Subtracting a point from itself gives the origin; subtracting the origin changes nothing. */
  lemma SubtractIdentities(a: GridPoint)
    ensures a.Subtract(a) == Ok(GridPoint(0, 0))
    ensures a.Subtract(GridPoint(0, 0)) == Ok(a)
  {
  }

  /** Index of the first ',' in `s`, or `|s|` when there is none. */
  function CommaIndex(s: string): (k: nat)
    ensures k <= |s|
    ensures k < |s| ==> s[k] == ','
    ensures forall j :: 0 <= j < k ==> s[j] != ','
  {
    if |s| == 0 then 0 else if s[0] == ',' then 0 else 1 + CommaIndex(s[1..])
  }

  /** Reads the text `toString()` produces back into a point; `None` for any other text. */
  function Parse(s: string): Option<GridPoint> {
    if |s| < 11 || s[..10] != "GridPoint(" || s[|s| - 1] != ')' then None
    else
      var body := s[10..|s| - 1];
      var k := CommaIndex(body);
      if k + 2 > |body| || body[k..k + 2] != ", " then None
      else
        var c, r := body[..k], body[k + 2..];
        if |c| == 0 || |r| == 0 || !AllDigits(c) || !AllDigits(r) then None
        else if ParseNat(c) > MaxInt || ParseNat(r) > MaxInt then None
        else Some(GridPoint(ParseNat(c), ParseNat(r)))
  }

  /** `toString()` loses nothing: the point can be read back from its text. */
  lemma ParseToString(p: GridPoint)
    ensures Parse(p.ToString()) == Some(p)
  {
    var c, r := NatToString(p.col), NatToString(p.row);
    var s := p.ToString();
    assert s == "GridPoint(" + c + ", " + r + ")";
    var body := s[10..|s| - 1];
    assert body == c + ", " + r;
    assert body[|c|] == ',';
    assert CommaIndex(body) == |c|;
    assert body[..|c|] == c;
    assert body[|c| + 2..] == r;
    ParseNatToString(p.col);
    ParseNatToString(p.row);
  }

  /** Different points have different texts. */
  lemma ToStringInjective(p: GridPoint, q: GridPoint)
    requires p.ToString() == q.ToString()
    ensures p == q
  {
    ParseToString(p);
    ParseToString(q);
  }
}
