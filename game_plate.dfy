/** The board rules of GamePresenter: one grid of cell types, seen through
    row and column views; the start-board repair; the stalemate check; and
    the move handler with its selection and input lock. Presentation
    (views, tweens, animations, log lines) is not modelled. */
module GamePlate {
  import opened MergeRules
  import opened Swipe

  datatype Option<T> = None | Some(value: T)

  /** A cell position (x, y): x is the column, y the row. */
  type Cell = (int, int)

  /** A row or a column, viewed as a line of cells: index i of Row(y) is
      cell (i, y), index i of Column(x) is cell (x, i). */
  datatype Line = Row(y: int) | Column(x: int)

  /** The line across `l` through its index i: the column through cell i
      of a row, the row through cell i of a column. */
  function Across(l: Line, i: int): Line {
    match l
    case Row(_) => Column(i)
    case Column(_) => Row(i)
  }

  /** The index that every cell of `l` shares: its y for a row, its x for a
      column. It is the cell's index in the line across. */
  function Fixed(l: Line): int {
    match l
    case Row(y) => y
    case Column(x) => x
  }

  function CellOf(l: Line, i: int): Cell {
    match l
    case Row(y) => (i, y)
    case Column(x) => (x, i)
  }

  /** The cells of line l at the given indices, in order. */
  function Place(l: Line, ks: seq<int>): seq<Cell> {
    seq(|ks|, k requires 0 <= k < |ks| => CellOf(l, ks[k]))
  }

  function Neighbour(c: Cell, d: Direction): Cell {
    match d
    case Right => (c.0 + 1, c.1)
    case Left => (c.0 - 1, c.1)
    case Up => (c.0, c.1 - 1)
    case Down => (c.0, c.1 + 1)
  }

  /** Two cells side by side in a row or in a column. */
  predicate Adjacent(a: Cell, b: Cell) {
    (a.0 == b.0 && (a.1 - b.1 == 1 || b.1 - a.1 == 1))
    || (a.1 == b.1 && (a.0 - b.0 == 1 || b.0 - a.0 == 1))
  }

  /** The index of cell c on line l. */
  function IndexOn(l: Line, c: Cell): int {
    if l.Row? then c.0 else c.1
  }

  /** The four destruction buffers: runs in the selected cell's side line
      (first), in the neighbour's side line (second), and on the pair's
      line beyond the neighbour (third) and beyond the selected cell
      (fourth). */
  datatype Buffers = Buffers(first: seq<Cell>, second: seq<Cell>, third: seq<Cell>, fourth: seq<Cell>)

  /** The runs that SelectCellsForDestroying collects, given the types
      along the two side lines and the perpendicular line: on each side
      line the runs after and before the cell, looking for the other
      cell's type; on the perpendicular line the run beyond the second
      cell and the run beyond the first. The second side line's
      descending scan starts from firstIndex. */
  function Selection(firstLine: Line, secondLine: Line, perpendicular: Line,
                     firstTypes: seq<int>, secondTypes: seq<int>, perpendicularTypes: seq<int>,
                     firstIndex: int, secondIndex: int, firstAcross: int, secondAcross: int,
                     firstCellType: int, secondCellType: int): Buffers
    requires 0 <= firstIndex < |firstTypes| && 0 <= secondIndex < |secondTypes|
    requires firstIndex <= |secondTypes|
    requires 0 <= firstAcross < |perpendicularTypes| && 0 <= secondAcross < |perpendicularTypes|
  {
    var first := Place(firstLine, RunForward(firstTypes, firstIndex, secondCellType))
                 + Place(firstLine, RunBackward(firstTypes, firstIndex, secondCellType));
    var second := Place(secondLine, RunForward(secondTypes, secondIndex, firstCellType))
                  + Place(secondLine, RunBackward(secondTypes, firstIndex, firstCellType));
    if secondAcross > firstAcross then
      Buffers(first, second,
              Place(perpendicular, RunForward(perpendicularTypes, secondAcross, firstCellType)),
              Place(perpendicular, RunBackward(perpendicularTypes, firstAcross, secondCellType)))
    else
      Buffers(first, second,
              Place(perpendicular, RunBackward(perpendicularTypes, secondAcross, firstCellType)),
              Place(perpendicular, RunForward(perpendicularTypes, firstAcross, secondCellType)))
  }

  /** A buffer counts once it holds two cells or more. */
  function Kept(run: seq<Cell>): seq<Cell> {
    if |run| >= 2 then run else []
  }

  /** The cells DestroyCells marks for disappearing: every buffer of two
      or more cells, then a if the second or third buffer counts, then b if
      the first or fourth does. */
  function ToDisappear(bs: Buffers, a: Cell, b: Cell): seq<Cell> {
    Kept(bs.first) + Kept(bs.second) + Kept(bs.third) + Kept(bs.fourth)
    + (if |bs.second| >= 2 || |bs.third| >= 2 then [a] else [])
    + (if |bs.first| >= 2 || |bs.fourth| >= 2 then [b] else [])
  }

  /** When neither a nor b sits in any buffer, a is marked exactly when
      the second or third buffer counts and b exactly when the first or
      fourth does; everything else marked comes from a counted buffer. */
  lemma MarkedCells(bs: Buffers, a: Cell, b: Cell)
    requires a != b
    requires a !in bs.first + bs.second + bs.third + bs.fourth
    requires b !in bs.first + bs.second + bs.third + bs.fourth
    ensures var marked := ToDisappear(bs, a, b);
      && (forall c :: c in marked ==> c == a || c == b || c in bs.first + bs.second + bs.third + bs.fourth)
      && (a in marked <==> |bs.second| >= 2 || |bs.third| >= 2)
      && (b in marked <==> |bs.first| >= 2 || |bs.fourth| >= 2)
  {
    var runs := Kept(bs.first) + Kept(bs.second) + Kept(bs.third) + Kept(bs.fourth);
    assert forall c :: c in runs ==> c in bs.first + bs.second + bs.third + bs.fourth;
  }

  /** The second half of DestroyCells: the buffer-size tests that set the
      two disappear flags and fill the general buffer. */
  method GatherToDisappear(bs: Buffers, a: Cell, b: Cell) returns (general: seq<Cell>)
    ensures general == ToDisappear(bs, a, b)
  {
    var first, second, third, fourth := bs.first, bs.second, bs.third, bs.fourth;
    general := [];
    var needToDisappearFirst, needToDisappearSecond := false, false;
    if |first| >= 2 {
      needToDisappearSecond := true;
      general := general + first;
    }
    assert general == Kept(first);
    if |second| >= 2 {
      needToDisappearFirst := true;
      general := general + second;
    }
    assert general == Kept(first) + Kept(second);
    if |third| >= 2 {
      needToDisappearFirst := true;
      general := general + third;
    }
    assert general == Kept(first) + Kept(second) + Kept(third);
    if |fourth| >= 2 {
      needToDisappearSecond := true;
      general := general + fourth;
    }
    assert general == Kept(first) + Kept(second) + Kept(third) + Kept(fourth);
    if needToDisappearFirst {
      general := general + [a];
    }
    if needToDisappearSecond {
      general := general + [b];
    }
  }

  class Plate {
    /** Plate size; the source fixes both at 8 (PlateSizeX, PlateSizeY). */
    const width: nat
    const height: nat
    /** The number of cell types, the length of the cell-type enumeration. */
    const typeCount: nat
    /** cells[x, y] is the type of cell (x, y); rows and columns are views. */
    const cells: array2<int>
    /** light[x, y] is the background flag passed to the cell at creation. */
    const light: array2<bool>

    /** The selected cell (_selectedPresenter), if any. */
    var selected: Option<Cell>
    /** The input lock (_isPlateAvailable): false while a move animates. */
    var plateAvailable: bool

    /** The cells collected for destruction by the last accepted move. */
    var firstBuffer: seq<Cell>
    var secondBuffer: seq<Cell>
    var thirdBuffer: seq<Cell>
    var fourthBuffer: seq<Cell>
    var generalBuffer: seq<Cell>

    predicate WellFormed() {
      && cells.Length0 == width && cells.Length1 == height
      && light.Length0 == width && light.Length1 == height
      && typeCount >= 2
    }

    predicate InBounds(c: Cell) {
      0 <= c.0 < width && 0 <= c.1 < height
    }

    /** Every cell holds a type of the enumeration. */
    predicate TypesValid()
      reads cells
    {
      WellFormed()
      && forall x, y :: 0 <= x < width && 0 <= y < height ==> 0 <= cells[x, y] < typeCount
    }

    predicate Valid()
      reads this, cells
    {
      TypesValid() && (selected.Some? ==> InBounds(selected.value))
    }

    predicate ValidLine(l: Line) {
      match l
      case Row(y) => 0 <= y < height
      case Column(x) => 0 <= x < width
    }

    /** The Count of a row list is the width, of a column list the height. */
    function Length(l: Line): nat {
      if l.Row? then width else height
    }

    function TypeAt(c: Cell): int
      requires WellFormed() && InBounds(c)
      reads cells
    {
      cells[c.0, c.1]
    }

    /** The types along line l, read off the one grid. */
    function Types(l: Line): (s: seq<int>)
      requires WellFormed() && ValidLine(l)
      reads cells
      ensures |s| == Length(l)
      ensures forall i :: 0 <= i < |s| ==> s[i] == TypeAt(CellOf(l, i))
    {
      seq(Length(l), i requires 0 <= i < Length(l) reads cells => TypeAt(CellOf(l, i)))
    }

    /** The background flag that generation gives cell (x, y): it toggles
        after every cell and once more after every row. */
    predicate LightAt(x: int, y: int) {
      ((width + 1) * y + x) % 2 == 1
    }

    /** No cell other than a and b has changed since the old state. */
    twostate predicate UnchangedExcept(a: Cell, b: Cell)
      requires WellFormed()
      reads cells
    {
      forall x, y :: 0 <= x < width && 0 <= y < height && (x, y) != a && (x, y) != b ==>
        cells[x, y] == old(cells[x, y])
    }

    /** Some row or some column has an index admitting a merging exchange
        with a neighbour on that line. */
    predicate HasMergeOption()
      requires WellFormed()
      reads cells
    {
      || (exists y :: 0 <= y < height && LineHasMergeOption(Types(Row(y))))
      || (exists x :: 0 <= x < width && LineHasMergeOption(Types(Column(x))))
    }

    constructor (width: nat, height: nat, typeCount: nat)
      requires typeCount >= 2
      ensures this.width == width && this.height == height && this.typeCount == typeCount
      ensures WellFormed() && fresh(cells) && fresh(light)
      ensures selected == None && plateAvailable
      ensures firstBuffer == secondBuffer == thirdBuffer == fourthBuffer == generalBuffer == []
    {
      this.width, this.height, this.typeCount := width, height, typeCount;
      cells := new int[width, height];
      light := new bool[width, height];
      selected := None;
      plateAvailable := true;
      firstBuffer, secondBuffer, thirdBuffer, fourthBuffer, generalBuffer := [], [], [], [], [];
    }

    /** GeneratePlate followed by CheckStartPlate; the result is what the
        start check reports about merge options. */
    method Initialize() returns (mergeable: bool)
      requires WellFormed() && selected == None
      modifies cells, light
      ensures Valid()
      ensures mergeable == HasMergeOption()
      ensures forall x, y :: 0 <= x < width && 0 <= y < height ==> light[x, y] == LightAt(x, y)
    {
      GenerateGamePlate();
      mergeable := CheckStartPlate();
    }

    /** The background flag alternates along a row, and the first cell of
        a row has the opposite flag to the cell past the end of the row
        before it. */
    lemma LightAlternates(x: int, y: int)
      ensures LightAt(x + 1, y) == !LightAt(x, y)
      ensures LightAt(0, y + 1) == !LightAt(width, y)
    {
      assert (width + 1) * (y + 1) + 0 == (width + 1) * y + width + 1;
    }

    /** Even-width plates get a true checkerboard of backgrounds. */
    lemma CheckerboardWhenWidthEven(x: nat, y: nat)
      requires width % 2 == 0
      ensures LightAt(x, y) == ((x + y) % 2 == 1)
    {
      var h := width / 2;
      assert (width + 1) * y + x == 2 * (h * y) + (x + y);
    }

    /** Odd-width plates get the same background pattern in every row. */
    lemma StripesWhenWidthOdd(x: nat, y: nat)
      requires width % 2 == 1
      ensures LightAt(x, y) == (x % 2 == 1)
    {
      var h := (width + 1) / 2;
      assert (width + 1) * y + x == 2 * (h * y) + x;
    }

    /** Lays out the grid row by row with a random type in every cell and
        the alternating background flag. */
    method GenerateGamePlate()
      requires WellFormed()
      modifies cells, light
      ensures TypesValid()
      ensures forall x, y :: 0 <= x < width && 0 <= y < height ==> light[x, y] == LightAt(x, y)
    {
      var isOdd := false;
      var y := 0;
      while y < height
        invariant 0 <= y <= height
        invariant isOdd == LightAt(0, y)
        invariant forall x', y' :: 0 <= x' < width && 0 <= y' < y ==>
                    0 <= cells[x', y'] < typeCount && light[x', y'] == LightAt(x', y')
      {
        var x := 0;
        while x < width
          invariant 0 <= x <= width
          invariant isOdd == LightAt(x, y)
          invariant forall x', y' :: 0 <= x' < width && 0 <= y' < y ==>
                      0 <= cells[x', y'] < typeCount && light[x', y'] == LightAt(x', y')
          invariant forall x' :: 0 <= x' < x ==> 0 <= cells[x', y] < typeCount && light[x', y] == LightAt(x', y)
        {
          var t :| 0 <= t < typeCount;
          cells[x, y] := t;
          light[x, y] := isOdd;
          isOdd := !isOdd;
          LightAlternates(x, y);
          x := x + 1;
        }
        isOdd := !isOdd;
        LightAlternates(x, y);
        y := y + 1;
      }
    }

    /** The rejection loop: draw types until one differs from `exclusion`.
        Random.Range is a nondeterministic draw from [0, typeCount); the
        draws are taken to be fair, so that some finite number `patience`
        of draws ends the loop. With a single type the source never ends;
        here that case is excluded by typeCount >= 2. */
    method GetRandomCellType(exclusion: int) returns (t: int)
      requires WellFormed()
      ensures 0 <= t < typeCount && t != exclusion
    {
      var patience: nat := *;
      t := exclusion;
      while t == exclusion
        invariant t != exclusion ==> 0 <= t < typeCount
        decreases patience + (if t == exclusion then 1 else 0)
      {
        t :| 0 <= t < typeCount && (patience == 0 ==> t != exclusion);
        if patience > 0 {
          patience := patience - 1;
        }
      }
    }

    /** Re-rolls cell i of line l to a type different from its current one. */
    method SetNewRandomCellType(l: Line, i: int)
      requires TypesValid() && ValidLine(l) && 0 <= i < Length(l)
      modifies cells
      ensures TypesValid()
      ensures TypeAt(CellOf(l, i)) != old(TypeAt(CellOf(l, i)))
      ensures UnchangedExcept(CellOf(l, i), CellOf(l, i))
    {
      var c := CellOf(l, i);
      var t := GetRandomCellType(cells[c.0, c.1]);
      cells[c.0, c.1] := t;
    }

    /** Re-rolls cell `index` of line l if it starts or ends a run of three
        equal types in l; otherwise changes nothing. */
    method CheckCellAfterSwitch(index: int, l: Line)
      requires TypesValid() && ValidLine(l) && 0 <= index < Length(l)
      modifies cells
      ensures TypesValid()
      ensures old(StartsOrEndsTriple(Types(l), index)) ==> TypeAt(CellOf(l, index)) != old(TypeAt(CellOf(l, index)))
      ensures !old(StartsOrEndsTriple(Types(l), index)) ==> unchanged(cells)
      ensures UnchangedExcept(CellOf(l, index), CellOf(l, index))
    {
      var n := Length(l);
      var firstSubsequent, secondSubsequent := index + 1, index + 2;
      var firstPrevious, secondPrevious := index - 1, index - 2;
      var t := TypeAt(CellOf(l, index));
      if || (firstSubsequent < n && secondSubsequent < n
             && t == TypeAt(CellOf(l, firstSubsequent)) && t == TypeAt(CellOf(l, secondSubsequent)))
         || (firstPrevious >= 0 && secondPrevious >= 0
             && t == TypeAt(CellOf(l, firstPrevious)) && t == TypeAt(CellOf(l, secondPrevious)))
      {
        SetNewRandomCellType(l, index);
      }
    }

    /** The repair shared by CheckRightCells and CheckLeftCells: when the
        fourth cell has the run's type the third is re-rolled, otherwise the
        third and fourth exchange types. Either way the third cell's type
        changes, so the run through it is broken; an exchange keeps the
        line's multiset of types. */
    method BreakRun(l: Line, third: int, fourth: int)
      requires TypesValid() && ValidLine(l)
      requires 0 <= third < Length(l) && 0 <= fourth < Length(l) && third != fourth
      modifies cells
      ensures TypesValid()
      ensures TypeAt(CellOf(l, third)) != old(TypeAt(CellOf(l, third)))
      ensures old(TypeAt(CellOf(l, third)) == TypeAt(CellOf(l, fourth))) ==>
                TypeAt(CellOf(l, fourth)) == old(TypeAt(CellOf(l, fourth)))
      ensures old(TypeAt(CellOf(l, third)) != TypeAt(CellOf(l, fourth))) ==>
                Types(l) == Exchange(old(Types(l)), third, fourth)
                && multiset(Types(l)) == multiset(old(Types(l)))
      ensures UnchangedExcept(CellOf(l, third), CellOf(l, fourth))
      ensures old(TripleAt(Types(l), third - 2)) ==> !TripleAt(Types(l), third - 2)
      ensures old(TripleAt(Types(l), third)) ==> !TripleAt(Types(l), third)
    {
      var a, b := CellOf(l, third), CellOf(l, fourth);
      if cells[a.0, a.1] == cells[b.0, b.1] {
        SetNewRandomCellType(l, third);
      } else {
        var secondCellType := cells[a.0, a.1];
        var thirdCellType := cells[b.0, b.1];
        cells[a.0, a.1] := thirdCellType;
        cells[b.0, b.1] := secondCellType;
        assert Types(l) == Exchange(old(Types(l)), third, fourth);
      }
      ghost var before, after := old(Types(l)), Types(l);
      assert after[third] != before[third];
      assert before[third] == before[fourth] ==> after[fourth] == before[fourth];
      assert forall k :: 0 <= k < |after| && k != third && k != fourth ==> after[k] == before[k];
    }

    /** Breaks a run of three starting at index i of l when a fourth cell
        follows it, then re-checks the two lines across the touched cells. */
    method CheckRightCells(i: int, l: Line)
      requires TypesValid() && ValidLine(l) && 0 <= i < Length(l)
      modifies cells
      ensures TypesValid()
      ensures !(i + 3 < Length(l) && old(TripleAt(Types(l), i))) ==> unchanged(cells)
      ensures UnchangedExcept(CellOf(l, i + 2), CellOf(l, i + 3))
    {
      var n := Length(l);
      var firstSubsequent, secondSubsequent, thirdSubsequent := i + 1, i + 2, i + 3;
      if !(firstSubsequent < n && secondSubsequent < n && thirdSubsequent < n) {
        return;
      }
      var t := TypeAt(CellOf(l, i));
      if t != TypeAt(CellOf(l, firstSubsequent)) || t != TypeAt(CellOf(l, secondSubsequent)) {
        return;
      }
      assert TripleAt(Types(l), i);
      var second, third := CellOf(l, secondSubsequent), CellOf(l, thirdSubsequent);
      assert CellOf(Across(l, secondSubsequent), Fixed(l)) == second && CellOf(Across(l, thirdSubsequent), Fixed(l)) == third;
      BreakRun(l, secondSubsequent, thirdSubsequent);
      CheckCellAfterSwitch(Fixed(l), Across(l, secondSubsequent));
      assert UnchangedExcept(second, third);
      CheckCellAfterSwitch(Fixed(l), Across(l, thirdSubsequent));
      assert UnchangedExcept(second, third);
    }

    /** The mirror of CheckRightCells: a run of three ending at index i
        with a fourth cell before it. */
    method CheckLeftCells(i: int, l: Line)
      requires TypesValid() && ValidLine(l) && 0 <= i < Length(l)
      modifies cells
      ensures TypesValid()
      ensures !(i - 3 >= 0 && old(TripleAt(Types(l), i - 2))) ==> unchanged(cells)
      ensures UnchangedExcept(CellOf(l, i - 2), CellOf(l, i - 3))
    {
      var firstPrevious, secondPrevious, thirdPrevious := i - 1, i - 2, i - 3;
      if !(firstPrevious >= 0 && secondPrevious >= 0 && thirdPrevious >= 0) {
        return;
      }
      var t := TypeAt(CellOf(l, i));
      if t != TypeAt(CellOf(l, firstPrevious)) || t != TypeAt(CellOf(l, secondPrevious)) {
        return;
      }
      assert TripleAt(Types(l), i - 2);
      var second, third := CellOf(l, secondPrevious), CellOf(l, thirdPrevious);
      assert CellOf(Across(l, secondPrevious), Fixed(l)) == second && CellOf(Across(l, thirdPrevious), Fixed(l)) == third;
      BreakRun(l, secondPrevious, thirdPrevious);
      CheckCellAfterSwitch(Fixed(l), Across(l, secondPrevious));
      assert UnchangedExcept(second, third);
      CheckCellAfterSwitch(Fixed(l), Across(l, thirdPrevious));
      assert UnchangedExcept(second, third);
    }

    /** Scans every row, then every column, repairing runs of three at each
        index, and reports whether the repaired plate has a merge option. */
    method CheckStartPlate() returns (mergeable: bool)
      requires TypesValid()
      modifies cells
      ensures TypesValid()
      ensures mergeable == HasMergeOption()
    {
      var y := 0;
      while y < height
        invariant 0 <= y <= height
        invariant TypesValid()
      {
        var x := 0;
        while x < width
          invariant 0 <= x <= width
          invariant TypesValid()
        {
          CheckRightCells(x, Row(y));
          CheckLeftCells(x, Row(y));
          x := x + 1;
        }
        y := y + 1;
      }
      var x := 0;
      while x < width
        invariant 0 <= x <= width
        invariant TypesValid()
      {
        y := 0;
        while y < height
          invariant 0 <= y <= height
          invariant TypesValid()
        {
          CheckRightCells(y, Column(x));
          CheckLeftCells(y, Column(x));
          y := y + 1;
        }
        x := x + 1;
      }
      mergeable := CheckForPossibilityOfMerging();
    }

    /** The stalemate check: scans rows, then (only if no row has one)
        columns, for an index where the right or left predicate holds. */
    method CheckForPossibilityOfMerging() returns (isPossible: bool)
      requires WellFormed()
      ensures isPossible == HasMergeOption()
    {
      isPossible := false;
      var y := 0;
      while y < height
        invariant 0 <= y <= height
        invariant isPossible <==> exists y' :: 0 <= y' < y && LineHasMergeOption(Types(Row(y')))
      {
        var row := Types(Row(y));
        var x := 0;
        while x < |row|
          invariant 0 <= x <= |row|
          invariant !isPossible ==> forall x' :: 0 <= x' < x ==> !(RightAvailable(x', row) || LeftAvailable(x', row))
          invariant isPossible <==> exists y' :: 0 <= y' < y && LineHasMergeOption(Types(Row(y')))
        {
          if RightAvailable(x, row) || LeftAvailable(x, row) {
            isPossible := true;
            break;
          }
          if isPossible {
            break;
          }
          x := x + 1;
        }
        y := y + 1;
      }
      if isPossible {
        return true;
      }
      var x := 0;
      while x < width
        invariant 0 <= x <= width
        invariant isPossible <==> exists x' :: 0 <= x' < x && LineHasMergeOption(Types(Column(x')))
      {
        var column := Types(Column(x));
        y := 0;
        while y < |column|
          invariant 0 <= y <= |column|
          invariant !isPossible ==> forall y' :: 0 <= y' < y ==> !(RightAvailable(y', column) || LeftAvailable(y', column))
          invariant isPossible <==> exists x' :: 0 <= x' < x && LineHasMergeOption(Types(Column(x')))
        {
          if RightAvailable(y, column) || LeftAvailable(y, column) {
            isPossible := true;
            break;
          }
          if isPossible {
            break;
          }
          y := y + 1;
        }
        x := x + 1;
      }
    }

    /** The move from c in direction d would leave the board: the edge
        tests of CheckRightSideCells, CheckLeftSideCells, CheckUpSideCells
        and CheckDownSideCells. */
    function AtEdge(c: Cell, d: Direction): (r: bool)
      ensures InBounds(c) ==> (r <==> !InBounds(Neighbour(c, d)))
    {
      match d
      case Right => c.0 == width - 1
      case Left => c.0 == 0
      case Up => c.1 == 0
      case Down => c.1 == height - 1
    }

    /** The acceptance test of the four Check*SideCells methods: not at
        the edge, and the in-line predicate or the parallel-line predicate
        holds for the selected cell and its neighbour in direction d. */
    predicate MoveAccepted(c: Cell, d: Direction)
      requires WellFormed() && InBounds(c)
      reads cells
      ensures MoveAccepted(c, d) ==> InBounds(Neighbour(c, d)) && TypeAt(c) != TypeAt(Neighbour(c, d))
    {
      && !AtEdge(c, d)
      && match d
         case Right =>
           || RightAvailable(c.0, Types(Row(c.1)))
           || (c.0 + 1 < width && ParallelAvailable(c.1, Types(Column(c.0)), Types(Column(c.0 + 1))))
         case Left =>
           || LeftAvailable(c.0, Types(Row(c.1)))
           || (c.0 - 1 >= 0 && ParallelAvailable(c.1, Types(Column(c.0)), Types(Column(c.0 - 1))))
         case Up =>
           || LeftAvailable(c.1, Types(Column(c.0)))
           || (c.1 - 1 >= 0 && ParallelAvailable(c.0, Types(Row(c.1)), Types(Row(c.1 - 1))))
         case Down =>
           || RightAvailable(c.1, Types(Column(c.0)))
           || (c.1 + 1 < height && ParallelAvailable(c.0, Types(Row(c.1)), Types(Row(c.1 + 1))))
    }

    /** The type cell c would hold after exchanging the types of a and b. */
    function TypeAfter(a: Cell, b: Cell, c: Cell): int
      requires WellFormed() && InBounds(a) && InBounds(b) && InBounds(c)
      reads cells
    {
      if c == a then TypeAt(b) else if c == b then TypeAt(a) else TypeAt(c)
    }

    /** The types along l after exchanging the types of a and b. */
    function TypesAfter(a: Cell, b: Cell, l: Line): (s: seq<int>)
      requires WellFormed() && InBounds(a) && InBounds(b) && ValidLine(l)
      reads cells
      ensures |s| == Length(l)
      ensures forall i :: 0 <= i < |s| ==> s[i] == TypeAfter(a, b, CellOf(l, i))
    {
      seq(Length(l), i requires 0 <= i < Length(l) reads cells => TypeAfter(a, b, CellOf(l, i)))
    }

    /** A run of three passes through c in its row or in its column. */
    predicate MatchThrough(c: Cell)
      requires WellFormed() && InBounds(c)
      reads cells
    {
      TripleThrough(Types(Row(c.1)), c.0) || TripleThrough(Types(Column(c.0)), c.1)
    }

    /** A run of three would pass through c, in its row or its column, once
        the types of a and b are exchanged. */
    predicate MatchAfter(a: Cell, b: Cell, c: Cell)
      requires WellFormed() && InBounds(a) && InBounds(b) && InBounds(c)
      reads cells
    {
      TripleThrough(TypesAfter(a, b, Row(c.1)), c.0) || TripleThrough(TypesAfter(a, b, Column(c.0)), c.1)
    }

    /** The reference meaning of a move: the neighbour is on the board, the
        two types differ, and exchanging them puts a run of three through
        one of the two cells. */
    predicate MergingMove(c: Cell, d: Direction)
      requires WellFormed() && InBounds(c)
      reads cells
    {
      var n := Neighbour(c, d);
      && InBounds(n)
      && TypeAt(c) != TypeAt(n)
      && (MatchAfter(c, n, c) || MatchAfter(c, n, n))
    }

    /** The move handler's test is exact: a move is accepted if and only if
        it is a merging move. */
    lemma MoveAcceptedExact(c: Cell, d: Direction)
      requires WellFormed() && InBounds(c)
      ensures MoveAccepted(c, d) <==> MergingMove(c, d)
    {
      match d
      case Right => RightMoveExact(c);
      case Left => LeftMoveExact(c);
      case Up => UpMoveExact(c);
      case Down => DownMoveExact(c);
    }

    /** MoveAcceptedExact, one direction at a time. */
    lemma RightMoveExact(c: Cell)
      requires WellFormed() && InBounds(c)
      ensures MoveAccepted(c, Right) <==> MergingMove(c, Right)
    {
      var n := Neighbour(c, Right);
      var x, y := c.0, c.1;
      if InBounds(n) {
        assert TypesAfter(c, n, Row(y)) == Exchange(Types(Row(y)), x, x + 1);
        assert TypesAfter(c, n, Column(x)) == Types(Column(x))[y := Types(Column(x + 1))[y]];
        assert TypesAfter(c, n, Column(x + 1)) == Types(Column(x + 1))[y := Types(Column(x))[y]];
      }
    }

    lemma LeftMoveExact(c: Cell)
      requires WellFormed() && InBounds(c)
      ensures MoveAccepted(c, Left) <==> MergingMove(c, Left)
    {
      var n := Neighbour(c, Left);
      var x, y := c.0, c.1;
      if InBounds(n) {
        assert TypesAfter(c, n, Row(y)) == Exchange(Types(Row(y)), x - 1, x);
        assert TypesAfter(c, n, Column(x)) == Types(Column(x))[y := Types(Column(x - 1))[y]];
        assert TypesAfter(c, n, Column(x - 1)) == Types(Column(x - 1))[y := Types(Column(x))[y]];
      }
    }

    lemma UpMoveExact(c: Cell)
      requires WellFormed() && InBounds(c)
      ensures MoveAccepted(c, Up) <==> MergingMove(c, Up)
    {
      var n := Neighbour(c, Up);
      var x, y := c.0, c.1;
      if InBounds(n) {
        assert TypesAfter(c, n, Column(x)) == Exchange(Types(Column(x)), y - 1, y);
        assert TypesAfter(c, n, Row(y)) == Types(Row(y))[x := Types(Row(y - 1))[x]];
        assert TypesAfter(c, n, Row(y - 1)) == Types(Row(y - 1))[x := Types(Row(y))[x]];
      }
    }

    lemma DownMoveExact(c: Cell)
      requires WellFormed() && InBounds(c)
      ensures MoveAccepted(c, Down) <==> MergingMove(c, Down)
    {
      var n := Neighbour(c, Down);
      var x, y := c.0, c.1;
      if InBounds(n) {
        assert TypesAfter(c, n, Column(x)) == Exchange(Types(Column(x)), y, y + 1);
        assert TypesAfter(c, n, Row(y)) == Types(Row(y))[x := Types(Row(y + 1))[x]];
        assert TypesAfter(c, n, Row(y + 1)) == Types(Row(y + 1))[x := Types(Row(y))[x]];
      }
    }

    /** Whenever the stalemate check finds a merge option, the move
        handler accepts some move. */
    lemma MergeOptionGivesMove()
      requires WellFormed() && HasMergeOption()
      ensures exists c: Cell, d: Direction :: InBounds(c) && MoveAccepted(c, d)
    {
      if exists y :: 0 <= y < height && LineHasMergeOption(Types(Row(y))) {
        var y :| 0 <= y < height && LineHasMergeOption(Types(Row(y)));
        RowOptionGivesMove(y);
        var x :| 0 <= x < width && (MoveAccepted((x, y), Right) || MoveAccepted((x, y), Left));
        var d := if MoveAccepted((x, y), Right) then Right else Left;
        assert InBounds((x, y)) && MoveAccepted((x, y), d);
      } else {
        var x :| 0 <= x < width && LineHasMergeOption(Types(Column(x)));
        ColumnOptionGivesMove(x);
        var y :| 0 <= y < height && (MoveAccepted((x, y), Down) || MoveAccepted((x, y), Up));
        var d := if MoveAccepted((x, y), Down) then Down else Up;
        assert InBounds((x, y)) && MoveAccepted((x, y), d);
      }
    }

    /** A merge option in row y is an accepted Right or Left move. */
    lemma RowOptionGivesMove(y: int)
      requires WellFormed() && 0 <= y < height && LineHasMergeOption(Types(Row(y)))
      ensures exists x :: 0 <= x < width && (MoveAccepted((x, y), Right) || MoveAccepted((x, y), Left))
    {
      var row := Types(Row(y));
      var x :| 0 <= x < |row| && (RightAvailable(x, row) || LeftAvailable(x, row));
      if RightAvailable(x, row) {
        assert !AtEdge((x, y), Right);
        assert MoveAccepted((x, y), Right);
      } else {
        assert !AtEdge((x, y), Left);
        assert MoveAccepted((x, y), Left);
      }
    }

    /** A merge option in column x is an accepted Down or Up move. */
    lemma ColumnOptionGivesMove(x: int)
      requires WellFormed() && 0 <= x < width && LineHasMergeOption(Types(Column(x)))
      ensures exists y :: 0 <= y < height && (MoveAccepted((x, y), Down) || MoveAccepted((x, y), Up))
    {
      var column := Types(Column(x));
      var y :| 0 <= y < |column| && (RightAvailable(y, column) || LeftAvailable(y, column));
      if RightAvailable(y, column) {
        assert !AtEdge((x, y), Down);
        assert MoveAccepted((x, y), Down);
      } else {
        assert !AtEdge((x, y), Up);
        assert MoveAccepted((x, y), Up);
      }
    }

    /** An ascending scan loop of SelectCellsForDestroying: the cells after
        index `from` on l holding type t, up to the first that does not. */
    method ScanForward(l: Line, from: int, t: int) returns (run: seq<Cell>)
      requires WellFormed() && ValidLine(l) && -1 <= from < Length(l)
      ensures run == Place(l, RunForward(Types(l), from, t))
    {
      run := [];
      var i := from + 1;
      while i < Length(l)
        invariant from + 1 <= i <= Length(l)
        invariant forall k :: from < k < i ==> TypeAt(CellOf(l, k)) == t
        invariant |run| == i - from - 1
        invariant forall k :: 0 <= k < |run| ==> run[k] == CellOf(l, from + 1 + k)
      {
        if TypeAt(CellOf(l, i)) == t {
          run := run + [CellOf(l, i)];
        } else {
          break;
        }
        i := i + 1;
      }
      RunForwardStopsAt(Types(l), from, t, i);
    }

    /** A descending scan loop: the cells before index `from` on l holding
        type t, nearest first, down to the first that does not. */
    method ScanBackward(l: Line, from: int, t: int) returns (run: seq<Cell>)
      requires WellFormed() && ValidLine(l) && 0 <= from <= Length(l)
      ensures run == Place(l, RunBackward(Types(l), from, t))
    {
      run := [];
      var i := from - 1;
      while i >= 0
        invariant -1 <= i <= from - 1
        invariant forall k :: i < k < from ==> TypeAt(CellOf(l, k)) == t
        invariant |run| == from - 1 - i
        invariant forall k :: 0 <= k < |run| ==> run[k] == CellOf(l, from - 1 - k)
      {
        if TypeAt(CellOf(l, i)) == t {
          run := run + [CellOf(l, i)];
        } else {
          break;
        }
        i := i - 1;
      }
      RunBackwardStopsAt(Types(l), from, t, i);
    }

    /** The ascending scan from one index followed by the descending scan
        from another, as SelectCellsForDestroying does on each side line. */
    method ScanBothWays(l: Line, forwardFrom: int, backwardFrom: int, t: int) returns (run: seq<Cell>)
      requires WellFormed() && ValidLine(l) && 0 <= forwardFrom < Length(l) && 0 <= backwardFrom <= Length(l)
      ensures run == Place(l, RunForward(Types(l), forwardFrom, t)) + Place(l, RunBackward(Types(l), backwardFrom, t))
    {
      var forward := ScanForward(l, forwardFrom, t);
      var backward := ScanBackward(l, backwardFrom, t);
      run := forward + backward;
    }

    function CurrentBuffers(): Buffers
      reads this
    {
      Buffers(firstBuffer, secondBuffer, thirdBuffer, fourthBuffer)
    }

    /** SelectCellsForDestroying: the scan loops over the two side lines and
        the perpendicular line, returning the runs that the caller appends
        to the four buffers. */
    method SelectCellsForDestroying(firstLine: Line, secondLine: Line, perpendicular: Line,
                                    firstIndex: int, secondIndex: int,
                                    firstAcross: int, secondAcross: int,
                                    firstCellType: int, secondCellType: int) returns (bs: Buffers)
      requires WellFormed() && ValidLine(firstLine) && ValidLine(secondLine) && ValidLine(perpendicular)
      requires 0 <= firstIndex < Length(firstLine) && 0 <= secondIndex < Length(secondLine)
      requires firstIndex <= Length(secondLine)
      requires 0 <= firstAcross < Length(perpendicular) && 0 <= secondAcross < Length(perpendicular)
      ensures bs == Selection(firstLine, secondLine, perpendicular,
                              Types(firstLine), Types(secondLine), Types(perpendicular),
                              firstIndex, secondIndex, firstAcross, secondAcross,
                              firstCellType, secondCellType)
    {
      var first := ScanBothWays(firstLine, firstIndex, firstIndex, secondCellType);
      var second := ScanBothWays(secondLine, secondIndex, firstIndex, firstCellType);
      var third, fourth;
      if secondAcross > firstAcross {
        third := ScanForward(perpendicular, secondAcross, firstCellType);
        fourth := ScanBackward(perpendicular, firstAcross, secondCellType);
      } else {
        fourth := ScanForward(perpendicular, firstAcross, secondCellType);
        third := ScanBackward(perpendicular, secondAcross, firstCellType);
      }
      bs := Buffers(first, second, third, fourth);
    }

    /** What DestroyCells collects for the exchanged pair a (the selected
        cell) and b (its neighbour): the selection across a vertical pair
        scans the two rows and the column, across a horizontal pair the two
        columns and the row; a's type is looked for around a, b's around b. */
    function Collected(a: Cell, b: Cell): Buffers
      requires WellFormed() && InBounds(a) && InBounds(b) && Adjacent(a, b)
      reads cells
    {
      if a.0 == b.0 then
        Selection(Row(a.1), Row(b.1), Column(a.0), Types(Row(a.1)), Types(Row(b.1)), Types(Column(a.0)),
                  a.0, b.0, a.1, b.1, TypeAt(b), TypeAt(a))
      else
        Selection(Column(a.0), Column(b.0), Row(a.1), Types(Column(a.0)), Types(Column(b.0)), Types(Row(a.1)),
                  a.1, b.1, a.0, b.0, TypeAt(b), TypeAt(a))
    }

    /** The cells of a forward run lie on l past `from` and hold t. */
    lemma PlacedForward(l: Line, from: int, t: int)
      requires WellFormed() && ValidLine(l) && -1 <= from < Length(l)
      ensures forall c :: c in Place(l, RunForward(Types(l), from, t)) ==>
                InBounds(c) && TypeAt(c) == t && c == CellOf(l, IndexOn(l, c)) && from < IndexOn(l, c)
    {
      RunForwardMaximal(Types(l), from, t);
    }

    /** The cells of a backward run lie on l before `from` and hold t. */
    lemma PlacedBackward(l: Line, from: int, t: int)
      requires WellFormed() && ValidLine(l) && 0 <= from <= Length(l)
      ensures forall c :: c in Place(l, RunBackward(Types(l), from, t)) ==>
                InBounds(c) && TypeAt(c) == t && c == CellOf(l, IndexOn(l, c)) && IndexOn(l, c) < from
    {
      RunBackwardMaximal(Types(l), from, t);
    }

    /** Every collected cell is on the board and is neither a nor b; the
        first and fourth buffers hold a's type, the second and third b's. */
    lemma CollectedCellsMatch(a: Cell, b: Cell)
      requires WellFormed() && InBounds(a) && InBounds(b) && Adjacent(a, b)
      ensures var bs := Collected(a, b);
        && (forall c :: c in bs.first + bs.fourth ==> InBounds(c) && TypeAt(c) == TypeAt(a) && c != a && c != b)
        && (forall c :: c in bs.second + bs.third ==> InBounds(c) && TypeAt(c) == TypeAt(b) && c != a && c != b)
    {
      if a.0 == b.0 {
        VerticalPairCollected(a, b);
      } else {
        HorizontalPairCollected(a, b);
      }
    }

    /** CollectedCellsMatch for a pair in one column: the two rows and the
        column are scanned. */
    lemma VerticalPairCollected(a: Cell, b: Cell)
      requires WellFormed() && InBounds(a) && InBounds(b) && Adjacent(a, b) && a.0 == b.0
      ensures var bs := Collected(a, b);
        && (forall c :: c in bs.first + bs.fourth ==> InBounds(c) && TypeAt(c) == TypeAt(a) && c != a && c != b)
        && (forall c :: c in bs.second + bs.third ==> InBounds(c) && TypeAt(c) == TypeAt(b) && c != a && c != b)
    {
      var ta, tb := TypeAt(a), TypeAt(b);
      PlacedForward(Row(a.1), a.0, ta);
      PlacedBackward(Row(a.1), a.0, ta);
      PlacedForward(Row(b.1), b.0, tb);
      PlacedBackward(Row(b.1), a.0, tb);
      PlacedForward(Column(a.0), b.1, tb);
      PlacedBackward(Column(a.0), a.1, ta);
      PlacedBackward(Column(a.0), b.1, tb);
      PlacedForward(Column(a.0), a.1, ta);
    }

    /** CollectedCellsMatch for a pair in one row: the two columns and the
        row are scanned. */
    lemma HorizontalPairCollected(a: Cell, b: Cell)
      requires WellFormed() && InBounds(a) && InBounds(b) && Adjacent(a, b) && a.1 == b.1
      ensures var bs := Collected(a, b);
        && (forall c :: c in bs.first + bs.fourth ==> InBounds(c) && TypeAt(c) == TypeAt(a) && c != a && c != b)
        && (forall c :: c in bs.second + bs.third ==> InBounds(c) && TypeAt(c) == TypeAt(b) && c != a && c != b)
    {
      var ta, tb := TypeAt(a), TypeAt(b);
      PlacedForward(Column(a.0), a.1, ta);
      PlacedBackward(Column(a.0), a.1, ta);
      PlacedForward(Column(b.0), b.1, tb);
      PlacedBackward(Column(b.0), a.1, tb);
      PlacedForward(Row(a.1), b.0, tb);
      PlacedBackward(Row(a.1), a.0, ta);
      PlacedBackward(Row(a.1), b.0, tb);
      PlacedForward(Row(a.1), a.0, ta);
    }

    /** What DestroyCells marks lies on the board; the selected cell a is
        marked exactly when the second or third buffer counts, and the
        neighbour b exactly when the first or fourth does. */
    lemma DisappearingCells(a: Cell, b: Cell)
      requires WellFormed() && InBounds(a) && InBounds(b) && Adjacent(a, b)
      ensures var bs := Collected(a, b);
        var marked := ToDisappear(bs, a, b);
        && (forall c :: c in marked ==> InBounds(c))
        && (a in marked <==> |bs.second| >= 2 || |bs.third| >= 2)
        && (b in marked <==> |bs.first| >= 2 || |bs.fourth| >= 2)
    {
      CollectedCellsMatch(a, b);
      MarkedCells(Collected(a, b), a, b);
    }

    /** Clears the buffers, collects the runs next to the exchanged pair a
        (selected) and b (neighbour), and gathers what is to disappear. */
    method DestroyCells(a: Cell, b: Cell)
      requires WellFormed() && InBounds(a) && InBounds(b) && Adjacent(a, b)
      modifies this
      ensures selected == old(selected) && plateAvailable == old(plateAvailable)
      ensures CurrentBuffers() == old(Collected(a, b))
      ensures generalBuffer == ToDisappear(CurrentBuffers(), a, b)
    {
      var bs;
      if a.0 == b.0 {
        bs := SelectCellsForDestroying(Row(a.1), Row(b.1), Column(a.0), a.0, b.0, a.1, b.1, TypeAt(b), TypeAt(a));
      } else {
        bs := SelectCellsForDestroying(Column(a.0), Column(b.0), Row(a.1), a.1, b.1, a.0, b.0, TypeAt(b), TypeAt(a));
      }
      assert bs == Collected(a, b);
      var general := GatherToDisappear(bs, a, b);
      firstBuffer, secondBuffer, thirdBuffer, fourthBuffer, generalBuffer := bs.first, bs.second, bs.third, bs.fourth, general;
    }

    /** Exchanges the types of the selected cell and its neighbour n, then
        collects the cells to destroy. */
    method SwapCellsTypesAndDestroyCells(n: Cell)
      requires Valid() && selected.Some? && InBounds(n) && Adjacent(selected.value, n)
      modifies this, cells
      ensures Valid() && selected == old(selected) && plateAvailable == old(plateAvailable)
      ensures TypeAt(selected.value) == old(TypeAt(n)) && TypeAt(n) == old(TypeAt(selected.value))
      ensures UnchangedExcept(selected.value, n)
      ensures forall l :: ValidLine(l) ==> Types(l) == old(TypesAfter(selected.value, n, l))
      ensures CurrentBuffers() == Collected(selected.value, n)
      ensures generalBuffer == ToDisappear(CurrentBuffers(), selected.value, n)
    {
      var a := selected.value;
      var tempCellType := cells[a.0, a.1];
      cells[a.0, a.1] := cells[n.0, n.1];
      cells[n.0, n.1] := tempCellType;
      assert UnchangedExcept(a, n);
      assert TypesValid();
      forall l | ValidLine(l)
        ensures Types(l) == old(TypesAfter(a, n, l))
      {
      }
      ghost var rowA, rowN, columnA, columnN := Types(Row(a.1)), Types(Row(n.1)), Types(Column(a.0)), Types(Column(n.0));
      ghost var collected := Collected(a, n);
      DestroyCells(a, n);
      assert Collected(a, n) == collected by {
        assert Types(Row(a.1)) == rowA && Types(Row(n.1)) == rowN;
        assert Types(Column(a.0)) == columnA && Types(Column(n.0)) == columnN;
      }
    }

    /** Check{Right,Left,Up,Down}SideCells: a move off the board or one that
        merges nothing leaves everything as it was; an accepted move
        exchanges exactly the two types, after which a run of three passes
        through one of the two cells. */
    method CheckSideCells(d: Direction)
      requires Valid() && selected.Some?
      modifies this, cells
      ensures Valid() && selected == old(selected) && plateAvailable == old(plateAvailable)
      ensures !old(MoveAccepted(selected.value, d)) ==> unchanged(this, cells)
      ensures old(MoveAccepted(selected.value, d)) ==>
                var a, n := selected.value, Neighbour(selected.value, d);
                && !AtEdge(a, d)
                && TypeAt(a) == old(TypeAt(n)) && TypeAt(n) == old(TypeAt(a)) && TypeAt(a) != TypeAt(n)
                && UnchangedExcept(a, n)
                && (MatchThrough(a) || MatchThrough(n))
                && CurrentBuffers() == Collected(a, n)
                && generalBuffer == ToDisappear(CurrentBuffers(), a, n)
    {
      var a := selected.value;
      if AtEdge(a, d) {
        return;
      }
      var n := Neighbour(a, d);
      if MoveAccepted(a, d) {
        MoveAcceptedExact(a, d);
        assert MatchAfter(a, n, a) || MatchAfter(a, n, n);
        SwapCellsTypesAndDestroyCells(n);
        assert Types(Row(a.1)) == old(TypesAfter(a, n, Row(a.1)));
        assert Types(Column(a.0)) == old(TypesAfter(a, n, Column(a.0)));
        assert Types(Row(n.1)) == old(TypesAfter(a, n, Row(n.1)));
        assert Types(Column(n.0)) == old(TypesAfter(a, n, Column(n.0)));
      }
    }

    /** OnSignalPlayerTouchCellData: touching a cell of the plate selects
        it, whatever the lock; anything else is not found and ignored. */
    method SelectCell(c: Cell)
      requires Valid()
      modifies this
      ensures Valid() && plateAvailable == old(plateAvailable)
      ensures CurrentBuffers() == old(CurrentBuffers()) && generalBuffer == old(generalBuffer)
      ensures selected == if InBounds(c) then Some(c) else old(selected)
    {
      if InBounds(c) {
        selected := Some(c);
      }
    }

    /** Drops the selection, if there is one. */
    method ResetPlayerInput()
      requires Valid()
      modifies this
      ensures Valid() && selected == None && plateAvailable == old(plateAvailable)
      ensures CurrentBuffers() == old(CurrentBuffers()) && generalBuffer == old(generalBuffer)
    {
      if selected == None {
        return;
      }
      selected := None;
    }

    /** The end of the input-lock timer: input is accepted again and the
        selection is dropped. */
    method OnEndTimerForBlockPlate()
      requires Valid()
      modifies this
      ensures Valid() && plateAvailable && selected == None
      ensures CurrentBuffers() == old(CurrentBuffers()) && generalBuffer == old(generalBuffer)
    {
      plateAvailable := true;
      ResetPlayerInput();
    }

    /** OnSignalPlayerTouchProcessData: a swipe with projections r (right)
        and u (up). Ignored without a selection or while locked; a swipe
        that classifies as no move changes nothing; otherwise the move in
        the classified direction is tried and the plate is locked, whether
        or not the move was accepted. The selection is kept. */
    method OnSignalPlayerTouchProcessData(r: int, u: int)
      requires Valid()
      modifies this, cells
      ensures Valid() && selected == old(selected)
      ensures old(selected).None? || !old(plateAvailable) || Classify(r, u) == NoMove ==> unchanged(this, cells)
      ensures old(selected).Some? && old(plateAvailable) && Classify(r, u).Move? ==>
                var a, d := selected.value, Classify(r, u).dir;
                && !plateAvailable
                && (!old(MoveAccepted(a, d)) ==>
                      unchanged(cells) && CurrentBuffers() == old(CurrentBuffers()) && generalBuffer == old(generalBuffer))
                && (old(MoveAccepted(a, d)) ==>
                      && TypeAt(a) == old(TypeAt(Neighbour(a, d)))
                      && TypeAt(Neighbour(a, d)) == old(TypeAt(a))
                      && UnchangedExcept(a, Neighbour(a, d))
                      && (MatchThrough(a) || MatchThrough(Neighbour(a, d)))
                      && CurrentBuffers() == Collected(a, Neighbour(a, d))
                      && generalBuffer == ToDisappear(CurrentBuffers(), a, Neighbour(a, d)))
    {
      if selected == None {
        return;
      }
      if !plateAvailable {
        return;
      }
      var gesture := Classify(r, u);
      if gesture == NoMove {
        return;
      }
      CheckSideCells(gesture.dir);
      plateAvailable := false;
    }
  }
}
