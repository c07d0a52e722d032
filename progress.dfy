/** The loading bar drawn after each encoded frame.

    The bar occupies console columns 0 to 21: '[' at column 0, ']' at
    column 21, and between them '#' cells for the finished part followed by
    '-' cells up to column 20. The number of '#' cells is the number of
    iterations of a loop that runs while i < (19.1 / total) * progress; the
    model uses the exact rational 191/10 for 19.1, so that condition reads
    10 * total * i < 191 * progress. */
module Progress {
  import Arithmetic

  /** Cells between the brackets. */
  const BarLength := 20

  /** The number of '#' cells: the least count c with c >= 19.1 * progress / total. */
  function FilledCells(progress: int, total: int): (c: nat)
    requires total > 0
    ensures 191 * progress <= 10 * total * c
    ensures c == 0 || 10 * total * (c - 1) < 191 * progress
  {
    if progress <= 0 then 0 else CeilDiv(191 * progress, 10 * total)
  }

  /** The number of '-' cells: the second loop runs from the column after
      the last '#' up to column BarLength. */
  function EmptyCells(progress: int, total: int): (d: nat)
    requires total > 0
    ensures FilledCells(progress, total) <= BarLength ==> FilledCells(progress, total) + d == BarLength
    ensures FilledCells(progress, total) >= BarLength ==> d == 0
  {
    var f := FilledCells(progress, total);
    if f < BarLength then BarLength - f else 0
  }

  /** The columns written after `f` '#' cells and `d` '-' cells: column 0
      holds '[', columns 1..f hold '#', columns f+1..f+d hold '-', and
      column BarLength + 1 holds ']' unless a cell was written over it. */
  function Cells(f: nat, d: nat): (m: map<int, char>)
    ensures forall c :: c in m <==> c == 0 || c == BarLength + 1 || 1 <= c <= f + d
    ensures forall c :: c in m ==> m[c] == CellAt(c, f, d)
  {
    map c | c in Written(f + d) :: CellAt(c, f, d)
  }

  function CellAt(c: int, f: nat, d: nat): char
  {
    if c == 0 then '[' else if c <= f then '#' else if c <= f + d then '-' else ']'
  }

  /** The columns written after n cells: the two brackets and columns 1..n. */
  function Written(n: nat): (s: set<int>)
    ensures forall c :: c in s <==> c == 0 || c == BarLength + 1 || 1 <= c <= n
  {
    Columns(n + 1) + {BarLength + 1}
  }

  /** The '#' loop's condition i < 19.1 / total * progress, with total > 0. */
  predicate Unfilled(progress: int, total: int, i: nat)
  {
    10 * total * i < 191 * progress
  }

  /** What LoadingBar draws for (progress, total). */
  function BarRow(progress: int, total: int): map<int, char>
    requires total > 0
  {
    Cells(FilledCells(progress, total), EmptyCells(progress, total))
  }

  /** The displayed percentage: 100 * progress / total rounded to the nearest
      integer, halves away from zero, as the "0" custom format rounds. */
  function Percent(progress: int, total: int): (pct: int)
    requires total > 0
    ensures progress >= 0 ==> pct >= 0 && -total <= 200 * progress - 2 * total * pct < total
    ensures progress < 0 ==> pct <= 0 && -total < 200 * progress - 2 * total * pct <= total
  {
    if progress >= 0 then RoundHalfUp(200 * progress, 2 * total)
    else var q: int := RoundHalfUp(-200 * progress, 2 * total); -q
  }

  /** The loading bar: the bracket columns, then the '#' loop and the '-'
      loop, each moving loadPosition one column to the right per cell. */
  method LoadingBar(progress: int, total: int) returns (row: map<int, char>, percent: int)
    requires total > 0
    ensures row == BarRow(progress, total)
    ensures percent == Percent(progress, total)
  {
    row := map[0 := '[', BarLength + 1 := ']'];
    CellsStart();
    var loadPosition := 1;
    var i := 0;
    while Unfilled(progress, total, i)
      invariant 0 <= i <= FilledCells(progress, total)
      invariant loadPosition == i + 1
      invariant row == Cells(i, 0)
      decreases FilledCells(progress, total) - i
    {
      FilledStep(progress, total, i);
      CellsStepFilled(i);
      row := row[loadPosition := '#'];
      loadPosition := loadPosition + 1;
      i := i + 1;
    }
    FilledStop(progress, total, i);
    ghost var f, d := i, 0;
    var j := loadPosition;
    while j <= BarLength
      invariant loadPosition == j == f + 1 + d
      invariant j <= BarLength + 1 || d == 0
      invariant row == Cells(f, d)
    {
      CellsStepEmpty(f, d);
      row := row[loadPosition := '-'];
      loadPosition := loadPosition + 1;
      j := j + 1;
      d := d + 1;
    }
    percent := Percent(progress, total);
  }

  // ---------------------------------------------------------------------
  // Column maps

  lemma CellsStart()
    ensures map[0 := '[', BarLength + 1 := ']'] == Cells(0, 0)
  {
    var m := map[0 := '[', BarLength + 1 := ']'];
    assert forall c :: c in m.Keys <==> c in Written(0);
  }

  lemma CellsStepFilled(f: nat)
    ensures Cells(f, 0)[f + 1 := '#'] == Cells(f + 1, 0)
  {
    var m := Cells(f, 0)[f + 1 := '#'];
    var m' := Cells(f + 1, 0);
    assert forall c :: c in m.Keys <==> c in m'.Keys;
    assert forall c :: c in m.Keys ==> m[c] == m'[c];
  }

  lemma CellsStepEmpty(f: nat, d: nat)
    ensures Cells(f, d)[f + d + 1 := '-'] == Cells(f, d + 1)
  {
    var m := Cells(f, d)[f + d + 1 := '-'];
    var m' := Cells(f, d + 1);
    assert forall c :: c in m.Keys <==> c in m'.Keys;
    assert forall c :: c in m.Keys ==> m[c] == m'[c];
  }

  // ---------------------------------------------------------------------
  // Arithmetic helpers

  /** The columns 0 .. n - 1. */
  function Columns(n: nat): (s: set<int>)
    ensures forall c :: c in s <==> 0 <= c < n
  {
    if n == 0 then {} else Columns(n - 1) + {n - 1}
  }

  function CeilDiv(a: nat, b: nat): (q: nat)
    requires b > 0
    ensures a <= b * q
    ensures q == 0 || b * (q - 1) < a
  {
    var q := (a + b - 1) / b;
    DivBounds(a + b - 1, b);
    assert b * (q - 1) == b * q - b;
    q
  }

  /** floor(a / b + 1/2), for b even. */
  function RoundHalfUp(a: nat, b: nat): (q: nat)
    requires b > 0 && b % 2 == 0
    ensures -(b / 2) <= a - b * q < b / 2
  {
    var q := (a + b / 2) / b;
    DivBounds(a + b / 2, b);
    q
  }

  lemma DivBounds(a: nat, b: nat)
    requires b > 0
    ensures b * (a / b) <= a < b * (a / b) + b
  {
  }

  lemma FilledStep(progress: int, total: int, i: nat)
    requires total > 0
    requires Unfilled(progress, total, i)
    requires i <= FilledCells(progress, total)
    ensures i + 1 <= FilledCells(progress, total)
  {
  }

  lemma FilledStop(progress: int, total: int, i: nat)
    requires total > 0
    requires !Unfilled(progress, total, i)
    requires i <= FilledCells(progress, total)
    ensures i == FilledCells(progress, total)
  {
    var c := FilledCells(progress, total);
    if i < c {
      Arithmetic.MulMono(10 * total, i, c - 1);
    }
  }

  // ---------------------------------------------------------------------
  // Properties of the bar

  /** While progress does not exceed total, the bar has at most BarLength
      '#' cells and '#' plus '-' cells fill exactly the BarLength columns
      between the brackets; nothing is written outside columns 0..21. */
  lemma BarFillsBrackets(progress: int, total: int)
    requires total > 0
    requires progress <= total
    ensures FilledCells(progress, total) <= BarLength
    ensures FilledCells(progress, total) + EmptyCells(progress, total) == BarLength
    ensures BarRow(progress, total).Keys == Columns(BarLength + 2)
    ensures BarRow(progress, total)[0] == '[' && BarRow(progress, total)[BarLength + 1] == ']'
  {
    var f := FilledCells(progress, total);
    if f > BarLength {
      Arithmetic.MulMono(10 * total, BarLength, f - 1);
    }
    var row := BarRow(progress, total);
    assert forall c :: c in row.Keys <==> c in Columns(BarLength + 2);
  }

  /** Finished work fills the whole bar. */
  lemma FullBar(total: int)
    requires total > 0
    ensures FilledCells(total, total) == BarLength
    ensures EmptyCells(total, total) == 0
    ensures Percent(total, total) == 100
  {
    var f := FilledCells(total, total);
    BarFillsBrackets(total, total);
    if f < BarLength {
      Arithmetic.MulMono(10 * total, f, BarLength - 1);
    }
    var pct := Percent(total, total);
    if pct > 100 {
      Arithmetic.MulMono(2 * total, 101, pct);
    } else if pct < 100 {
      Arithmetic.MulMono(2 * total, pct, 99);
    }
  }

  /** More progress never draws fewer '#' cells. */
  lemma FilledMonotone(p1: int, p2: int, total: int)
    requires total > 0
    requires p1 <= p2
    ensures FilledCells(p1, total) <= FilledCells(p2, total)
  {
    var c1, c2 := FilledCells(p1, total), FilledCells(p2, total);
    if c2 < c1 {
      Arithmetic.MulMono(10 * total, c2, c1 - 1);
    }
  }

  /** Any positive progress shows at least one '#' cell. */
  lemma SomeProgressShows(progress: int, total: int)
    requires total > 0
    requires progress >= 1
    ensures FilledCells(progress, total) >= 1
  {
  }

  /** The percentage of work not above the total lies in 0..100. */
  lemma PercentBounds(progress: int, total: int)
    requires total > 0
    requires 0 <= progress <= total
    ensures 0 <= Percent(progress, total) <= 100
  {
    var pct := Percent(progress, total);
    if pct > 100 {
      Arithmetic.MulMono(2 * total, 101, pct);
    }
  }
}
