/** The grid of people drawn under the accuracy gauges. Each group is laid
    out ten to a row, left to right and then downwards; the first
    `correctCount` people of a group are the correct ones. The minority
    grid starts one row height plus a gap below the last predominant row.
    The stick figures themselves are left to the plotting library: here a
    person is the cell that says where and in which colour it is drawn. */
module Layout {
  import opened Mixer

  const PeoplePerRow: int := 10
  const PersonWidth: real := 0.5
  const PersonHeight: real := 0.8
  const StartX: real := 2.0
  const StartY: real := 5.0
  /** Extra vertical space between the two grids. */
  const GroupGap: real := 0.5

  datatype Group = Predominant | Minority

  /** The palette: blue #3498db and green #2ecc71 for the correct people of
      each group, red #e74c3c for every incorrect one. */
  datatype Colour = Blue | Green | Red

  /** One person: grid row and column, the lower-left corner (x, y) of the
      figure's box, whether it is correct, and its colour. */
  datatype Cell = Cell(row: int, col: int, x: real, y: real, correct: bool, colour: Colour)

  function CorrectColour(g: Group): Colour
  {
    match g
    case Predominant => Blue
    case Minority => Green
  }

  /** Vertical position of a row of a grid whose top row is at originY. */
  function RowY(originY: real, row: int): real
  {
    originY - row as real * PersonHeight
  }

  /** Person i of group g: the cell the drawing loop computes for it. */
  function PersonAt(g: Group, i: int, correctCount: int, originY: real): (c: Cell)
    requires 0 <= i
    ensures 0 <= c.row && 0 <= c.col < PeoplePerRow
    ensures c.row * PeoplePerRow + c.col == i
    ensures StartX <= c.x <= StartX + (PeoplePerRow - 1) as real * PersonWidth
    ensures c.y <= originY
    ensures c.correct <==> i < correctCount
    ensures c.correct ==> c.colour == CorrectColour(g)
    ensures !c.correct ==> c.colour == Red
  {
    var row := i / PeoplePerRow;
    var col := i % PeoplePerRow;
    var correct := i < correctCount;
    Cell(row, col, StartX + col as real * PersonWidth, RowY(originY, row), correct,
         if correct then CorrectColour(g) else Red)
  }

  /** The whole grid of a group of n people, as a specification. */
  function GroupLayout(g: Group, n: nat, correctCount: int, originY: real): (cells: seq<Cell>)
    ensures |cells| == n
  {
    seq(n, i requires 0 <= i => PersonAt(g, i, correctCount, originY))
  }

  /** Number of people marked correct. */
  function CountCorrect(cells: seq<Cell>): (k: nat)
    ensures k <= |cells|
  {
    if |cells| == 0 then 0
    else CountCorrect(cells[..|cells| - 1]) + (if cells[|cells| - 1].correct then 1 else 0)
  }

  function Clamp(k: int, lo: int, hi: int): int
    requires lo <= hi
  {
    if k < lo then lo else if k > hi then hi else k
  }

  /** Exactly correctCount people of a group are correct (clamped to the
      group's size, which the mixer's counts never leave). */
  lemma {:induction false} CountCorrectOfLayout(g: Group, n: nat, correctCount: int, originY: real)
    ensures CountCorrect(GroupLayout(g, n, correctCount, originY)) == Clamp(correctCount, 0, n)
  {
    if n > 0 {
      var cells := GroupLayout(g, n, correctCount, originY);
      assert cells[..n - 1] == GroupLayout(g, n - 1, correctCount, originY);
      CountCorrectOfLayout(g, n - 1, correctCount, originY);
    }
  }

  /** No two people of a group share a grid cell, nor a drawing position. */
  lemma CellsDistinct(g: Group, n: nat, correctCount: int, originY: real, i: int, j: int)
    requires 0 <= i < j < n
    ensures var a, b := PersonAt(g, i, correctCount, originY), PersonAt(g, j, correctCount, originY);
      (a.row, a.col) != (b.row, b.col) && (a.x, a.y) != (b.x, b.y)
  {
  }

  /** Draws the people of one group: appends one cell per person, in index
      order, as the drawing loop does. */
  method LayoutGroup(g: Group, n: nat, correctCount: int, originY: real) returns (cells: seq<Cell>)
    ensures cells == GroupLayout(g, n, correctCount, originY)
    ensures CountCorrect(cells) == Clamp(correctCount, 0, n)
    ensures forall i :: 0 <= i < n ==> (cells[i].correct <==> i < correctCount)
    ensures forall i, j :: 0 <= i < j < n ==> (cells[i].row, cells[i].col) != (cells[j].row, cells[j].col)
    ensures forall i, j :: 0 <= i < j < n ==> (cells[i].x, cells[i].y) != (cells[j].x, cells[j].y)
  {
    cells := [];
    var i := 0;
    while i < n
      invariant 0 <= i <= n
      invariant cells == GroupLayout(g, i, correctCount, originY)
    {
      var row := i / PeoplePerRow;
      var col := i % PeoplePerRow;
      var x := StartX + col as real * PersonWidth;
      var y := originY - row as real * PersonHeight;
      var colour := if i < correctCount then CorrectColour(g) else Red;
      cells := cells + [Cell(row, col, x, y, i < correctCount, colour)];
      i := i + 1;
    }
    CountCorrectOfLayout(g, n, correctCount, originY);
    forall i, j | 0 <= i < j < n
      ensures (cells[i].row, cells[i].col) != (cells[j].row, cells[j].col)
      ensures (cells[i].x, cells[i].y) != (cells[j].x, cells[j].y)
    {
      CellsDistinct(g, n, correctCount, originY, i, j);
    }
  }

  /** Top of the minority grid, for a predominant group of `pred` people. */
  function MinorityOriginY(pred: int): (y: real)
    requires 0 <= pred
    ensures pred == 0 ==> y == StartY - GroupGap
    ensures pred > 0 ==> y == PersonAt(Predominant, pred - 1, 0, StartY).y - PersonHeight - GroupGap
  {
    // Python's floor division and Dafny's Euclidean division agree for a
    // positive divisor, including (-1) / 10 == -1 when pred is 0.
    StartY - ((pred - 1) / PeoplePerRow + 1) as real * PersonHeight - GroupGap
  }

  /** Every minority person is drawn at least a row height plus the gap
      below every predominant person, so the two grids never share a row. */
  lemma GroupsSeparated(pred: nat, i: int, j: int, ccPred: int, ccMin: int)
    requires 0 <= i < pred && 0 <= j
    ensures PersonAt(Predominant, i, ccPred, StartY).y
            - PersonAt(Minority, j, ccMin, MinorityOriginY(pred)).y >= PersonHeight + GroupGap
  {
  }

  /** The people of both groups for the given inputs, laid out as the page
      draws them. */
  method DrawPeople(pa: real, ma: real, w: real) returns (predCells: seq<Cell>, minCells: seq<Cell>)
    requires ValidAccuracy(pa) && ValidAccuracy(ma) && ValidWeight(w)
    ensures var m := Compute(pa, ma, w);
      && predCells == GroupLayout(Predominant, m.predominantPeople, m.correctPredominant, StartY)
      && minCells == GroupLayout(Minority, m.minorityPeople, m.correctMinority, MinorityOriginY(m.predominantPeople))
    ensures |predCells| + |minCells| == TotalPeople
    ensures |predCells| == Compute(pa, ma, w).predominantPeople
    ensures CountCorrect(predCells) == Compute(pa, ma, w).correctPredominant
    ensures CountCorrect(minCells) == Compute(pa, ma, w).correctMinority
    ensures forall c :: c in predCells ==> c.colour != Green
    ensures forall c :: c in minCells ==> c.colour != Blue
    ensures forall a, b :: a in predCells && b in minCells ==> a.y - b.y >= PersonHeight + GroupGap
  {
    var m := Compute(pa, ma, w);
    predCells := LayoutGroup(Predominant, m.predominantPeople, m.correctPredominant, StartY);
    var minorityY := MinorityOriginY(m.predominantPeople);
    minCells := LayoutGroup(Minority, m.minorityPeople, m.correctMinority, minorityY);
    forall a, b | a in predCells && b in minCells
      ensures a.y - b.y >= PersonHeight + GroupGap
    {
      var i :| 0 <= i < |predCells| && predCells[i] == a;
      var j :| 0 <= j < |minCells| && minCells[j] == b;
      GroupsSeparated(m.predominantPeople, i, j, m.correctPredominant, m.correctMinority);
    }
  }
}
