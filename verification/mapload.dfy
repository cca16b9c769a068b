/** The map reader `LoadMap` of src/main.cpp: the 100 x 100 character grid,
    read line by line until a line starting with "OK", becomes robots and
    stations at the centres of half-metre cells. Entities are appended in
    row-major order, so a station's index is the number of station
    characters that precede it in that order. Lines are given as a sequence
    of strings, each as read (with its line break, possibly holding NULs). */
module MapLoader {
  import opened Geometry
  import opened Catalog
  import opened Entities
  import opened GameState

  /** What a map character places. */
  datatype Cell = Empty | RobotCell | StationCell(kind: StationKind)

  predicate IsRobotChar(ch: char) {
    ch == 'A'
  }

  predicate IsStationChar(ch: char) {
    '1' <= ch <= '9'
  }

  function StationKindOf(ch: char): (k: StationKind)
    requires IsStationChar(ch)
  {
    ch as int - '0' as int
  }

  /** The switch over a map character: 'A' is a robot, '1'..'9' a station of
      that kind, anything else ('.', the line break, ...) nothing. */
  function Classify(ch: char): (cell: Cell)
    ensures cell == RobotCell <==> IsRobotChar(ch)
    ensures cell.StationCell? <==> IsStationChar(ch)
    ensures cell.StationCell? ==> cell.kind as int == ch as int - '0' as int
    ensures cell == Empty <==> !IsRobotChar(ch) && !IsStationChar(ch)
  {
    if ch == 'A' then RobotCell
    else if IsStationChar(ch) then StationCell(StationKindOf(ch))
    else Empty
  }

  /** Centre of the cell in column `col` of row `row`; row 0 is the top edge
      of the 50 m square map. */
  function CellPoint(col: int, row: int): (p: Point)
    ensures p.x == 0.25 + 0.5 * col as real && p.y == 49.75 - 0.5 * row as real
  {
    Point(0.25 + 0.5 * col as real, 49.75 - 0.5 * row as real)
  }

  /** Distinct cells have distinct centres. */
  lemma CellPointInjective(c1: int, r1: int, c2: int, r2: int)
    requires CellPoint(c1, r1) == CellPoint(c2, r2)
    ensures c1 == c2 && r1 == r2
  {
  }

  /** strlen: the characters before the first NUL. */
  function CStrLen(line: string): (n: nat)
    ensures n <= |line|
    ensures forall i :: 0 <= i < n ==> line[i] != '\0'
    ensures n < |line| ==> line[n] == '\0'
  {
    if line == [] || line[0] == '\0' then 0 else 1 + CStrLen(line[1..])
  }

  /** The end-of-map marker: the first two characters are 'O' and 'K'. */
  predicate IsOKLine(line: string) {
    |line| >= 2 && line[0] == 'O' && line[1] == 'K'
  }

  /** Index of the first "OK" line, or the number of lines when there is none. */
  function FirstOK(lines: seq<string>): (stop: nat)
    ensures stop <= |lines|
    ensures forall k :: 0 <= k < stop ==> !IsOKLine(lines[k])
    ensures stop < |lines| ==> IsOKLine(lines[stop])
  {
    if lines == [] then 0
    else if IsOKLine(lines[0]) then 0
    else 1 + FirstOK(lines[1..])
  }

  // ---------------------------------------------------------- counting

  /** How many of line[..n] satisfy p. */
  function CountChars(line: string, n: nat, p: char -> bool): nat
    requires n <= |line|
  {
    if n == 0 then 0 else CountChars(line, n - 1, p) + (if p(line[n - 1]) then 1 else 0)
  }

  /** How many characters satisfying p the first k rows hold (up to each
      row's NUL). */
  function CountRows(lines: seq<string>, k: nat, p: char -> bool): nat
    requires k <= |lines|
  {
    if k == 0 then 0 else CountRows(lines, k - 1, p) + CountChars(lines[k - 1], CStrLen(lines[k - 1]), p)
  }

  /** A matching character is counted before every later position. */
  lemma {:induction false} CountCharsMono(line: string, c: nat, i: nat, p: char -> bool)
    requires c < i <= |line| && p(line[c])
    ensures CountChars(line, c, p) < CountChars(line, i, p)
  {
    if i > c + 1 {
      CountCharsMono(line, c, i - 1, p);
    }
  }

  lemma {:induction false} CountCharsBound(line: string, c: nat, i: nat, p: char -> bool)
    requires c <= i <= |line|
    ensures CountChars(line, c, p) <= CountChars(line, i, p)
  {
    if i > c {
      CountCharsBound(line, c, i - 1, p);
    }
  }

  lemma {:induction false} CountRowsMono(lines: seq<string>, r: nat, k: nat, p: char -> bool)
    requires r <= k <= |lines|
    ensures CountRows(lines, r, p) <= CountRows(lines, k, p)
  {
    if k > r {
      CountRowsMono(lines, r, k - 1, p);
    }
  }

  /** Row-major order is index order: a matching cell strictly before another
      cell (same row, or an earlier row) has a strictly smaller count. */
  lemma RowMajorOrder(lines: seq<string>, r1: nat, c1: nat, r2: nat, c2: nat, p: char -> bool)
    requires r1 <= r2 < |lines|
    requires c1 < CStrLen(lines[r1]) && c2 <= CStrLen(lines[r2])
    requires r1 < r2 || c1 < c2
    requires p(lines[r1][c1])
    ensures CountRows(lines, r1, p) + CountChars(lines[r1], c1, p)
          < CountRows(lines, r2, p) + CountChars(lines[r2], c2, p)
  {
    if r1 == r2 {
      CountCharsMono(lines[r1], c1, c2, p);
    } else {
      CountCharsMono(lines[r1], c1, CStrLen(lines[r1]), p);
      CountRowsMono(lines, r1 + 1, r2, p);
      CountCharsBound(lines[r2], 0, c2, p);
    }
  }

  // ----------------------------------------------------------- loading

  /** Every robot cell of columns 0 .. n-1 of `line` (row `row`) is in `g`,
      at the index its count gives, counted from `base`. */
  ghost predicate RobotsPlaced(g: Game, base: nat, line: string, row: int, n: nat)
    requires n <= |line|
  {
    forall c :: 0 <= c < n && IsRobotChar(line[c]) ==>
      && base + CountChars(line, c, IsRobotChar) < |g.robots|
      && g.robots[base + CountChars(line, c, IsRobotChar)] == NewRobot(CellPoint(c, row))
  }

  /** The same for station cells. */
  ghost predicate StationsPlaced(g: Game, base: nat, line: string, row: int, n: nat)
    requires n <= |line|
  {
    forall c :: 0 <= c < n && IsStationChar(line[c]) ==>
      && base + CountChars(line, c, IsStationChar) < |g.worktops|
      && g.worktops[base + CountChars(line, c, IsStationChar)] == NewWorktop(CellPoint(c, row), StationKindOf(line[c]))
  }

  /** The switch of the inner loop for one character at point p. */
  function PlaceCell(g: Game, ch: char, p: Point): (g': Game)
    ensures g'.curFrame == g.curFrame && g'.money == g.money
    ensures g'.robots == g.robots + (if IsRobotChar(ch) then [NewRobot(p)] else [])
    ensures g'.worktops == g.worktops + (if IsStationChar(ch) then [NewWorktop(p, StationKindOf(ch))] else [])
  {
    match Classify(ch)
    case Empty => g
    case RobotCell => LoadRobot(g, p)
    case StationCell(kind) => LoadWorktop(g, p, kind)
  }

  /** Placing column i keeps the robots of columns 0 .. i-1 where they were
      and puts a robot of column i right behind them. */
  lemma RobotsStep(g: Game, base: nat, line: string, row: int, i: nat)
    requires i < |line|
    requires |g.robots| == base + CountChars(line, i, IsRobotChar)
    requires RobotsPlaced(g, base, line, row, i)
    ensures var g' := PlaceCell(g, line[i], CellPoint(i, row));
            && |g'.robots| == base + CountChars(line, i + 1, IsRobotChar)
            && RobotsPlaced(g', base, line, row, i + 1)
  {
    var g' := PlaceCell(g, line[i], CellPoint(i, row));
    forall c | 0 <= c < i + 1 && IsRobotChar(line[c])
      ensures base + CountChars(line, c, IsRobotChar) < |g'.robots|
      ensures g'.robots[base + CountChars(line, c, IsRobotChar)] == NewRobot(CellPoint(c, row))
    {
      if c < i {
        CountCharsMono(line, c, i, IsRobotChar);
      }
    }
  }

  /** The same for stations. */
  lemma StationsStep(g: Game, base: nat, line: string, row: int, i: nat)
    requires i < |line|
    requires |g.worktops| == base + CountChars(line, i, IsStationChar)
    requires StationsPlaced(g, base, line, row, i)
    ensures var g' := PlaceCell(g, line[i], CellPoint(i, row));
            && |g'.worktops| == base + CountChars(line, i + 1, IsStationChar)
            && StationsPlaced(g', base, line, row, i + 1)
  {
    var g' := PlaceCell(g, line[i], CellPoint(i, row));
    forall c | 0 <= c < i + 1 && IsStationChar(line[c])
      ensures base + CountChars(line, c, IsStationChar) < |g'.worktops|
      ensures g'.worktops[base + CountChars(line, c, IsStationChar)] == NewWorktop(CellPoint(c, row), StationKindOf(line[c]))
    {
      if c < i {
        CountCharsMono(line, c, i, IsStationChar);
      }
    }
  }

  /** The inner loop: walk the columns of one row up to its NUL, appending a
      robot for 'A' and a station for a digit. Exactly one entity per such
      character is added, in column order, and nothing else changes. */
  method LoadRow(g: Game, line: string, row: int) returns (g': Game)
    ensures g'.curFrame == g.curFrame && g'.money == g.money
    ensures |g'.robots| == |g.robots| + CountChars(line, CStrLen(line), IsRobotChar)
    ensures |g'.worktops| == |g.worktops| + CountChars(line, CStrLen(line), IsStationChar)
    ensures g'.robots[..|g.robots|] == g.robots && g'.worktops[..|g.worktops|] == g.worktops
    ensures RobotsPlaced(g', |g.robots|, line, row, CStrLen(line))
    ensures StationsPlaced(g', |g.worktops|, line, row, CStrLen(line))
  {
    var n := CStrLen(line);
    g' := g;
    for i := 0 to n
      invariant g'.curFrame == g.curFrame && g'.money == g.money
      invariant |g'.robots| == |g.robots| + CountChars(line, i, IsRobotChar)
      invariant |g'.worktops| == |g.worktops| + CountChars(line, i, IsStationChar)
      invariant g'.robots[..|g.robots|] == g.robots && g'.worktops[..|g.worktops|] == g.worktops
      invariant RobotsPlaced(g', |g.robots|, line, row, i)
      invariant StationsPlaced(g', |g.worktops|, line, row, i)
    {
      RobotsStep(g', |g.robots|, line, row, i);
      StationsStep(g', |g.worktops|, line, row, i);
      g' := PlaceCell(g', line[i], CellPoint(i, row));
    }
  }

  /** Every robot cell of rows 0 .. k-1 is in g, at the index given by the
      number of robot cells before it in row-major order, counted from base. */
  ghost predicate GridRobotsPlaced(g: Game, base: nat, lines: seq<string>, k: nat)
    requires k <= |lines|
  {
    forall r, c :: 0 <= r < k && 0 <= c < CStrLen(lines[r]) && IsRobotChar(lines[r][c]) ==>
      && base + CountRows(lines, r, IsRobotChar) + CountChars(lines[r], c, IsRobotChar) < |g.robots|
      && g.robots[base + CountRows(lines, r, IsRobotChar) + CountChars(lines[r], c, IsRobotChar)]
         == NewRobot(CellPoint(c, r))
  }

  /** The same for station cells. */
  ghost predicate GridStationsPlaced(g: Game, base: nat, lines: seq<string>, k: nat)
    requires k <= |lines|
  {
    forall r, c :: 0 <= r < k && 0 <= c < CStrLen(lines[r]) && IsStationChar(lines[r][c]) ==>
      && base + CountRows(lines, r, IsStationChar) + CountChars(lines[r], c, IsStationChar) < |g.worktops|
      && g.worktops[base + CountRows(lines, r, IsStationChar) + CountChars(lines[r], c, IsStationChar)]
         == NewWorktop(CellPoint(c, r), StationKindOf(lines[r][c]))
  }

  /** Loading row k behind rows 0 .. k-1 extends the robot placement to k+1 rows. */
  lemma GridRobotsStep(g: Game, g': Game, base: nat, lines: seq<string>, k: nat)
    requires k < |lines|
    requires |g.robots| == base + CountRows(lines, k, IsRobotChar)
    requires GridRobotsPlaced(g, base, lines, k)
    requires |g'.robots| == |g.robots| + CountChars(lines[k], CStrLen(lines[k]), IsRobotChar)
    requires g'.robots[..|g.robots|] == g.robots
    requires RobotsPlaced(g', |g.robots|, lines[k], k, CStrLen(lines[k]))
    ensures |g'.robots| == base + CountRows(lines, k + 1, IsRobotChar)
    ensures GridRobotsPlaced(g', base, lines, k + 1)
  {
    assert CountRows(lines, k + 1, IsRobotChar) == CountRows(lines, k, IsRobotChar) + CountChars(lines[k], CStrLen(lines[k]), IsRobotChar);
    forall r, c | 0 <= r < k + 1 && 0 <= c < CStrLen(lines[r]) && IsRobotChar(lines[r][c])
      ensures base + CountRows(lines, r, IsRobotChar) + CountChars(lines[r], c, IsRobotChar) < |g'.robots|
      ensures g'.robots[base + CountRows(lines, r, IsRobotChar) + CountChars(lines[r], c, IsRobotChar)] == NewRobot(CellPoint(c, r))
    {
      if r < k {
        GridRobotOldCell(g, g', base, lines, k, r, c);
      } else {
        GridRobotNewCell(g, g', base, lines, k, c);
      }
    }
  }

  /** A cell of an earlier row keeps its robot when row k is appended. */
  lemma GridRobotOldCell(g: Game, g': Game, base: nat, lines: seq<string>, k: nat, r: nat, c: nat)
    requires r < k < |lines|
    requires 0 <= c < CStrLen(lines[r]) && IsRobotChar(lines[r][c])
    requires |g.robots| == base + CountRows(lines, k, IsRobotChar)
    requires GridRobotsPlaced(g, base, lines, k)
    requires |g.robots| <= |g'.robots| && g'.robots[..|g.robots|] == g.robots
    ensures base + CountRows(lines, r, IsRobotChar) + CountChars(lines[r], c, IsRobotChar) < |g.robots|
    ensures g'.robots[base + CountRows(lines, r, IsRobotChar) + CountChars(lines[r], c, IsRobotChar)] == NewRobot(CellPoint(c, r))
  {
    var idx := base + CountRows(lines, r, IsRobotChar) + CountChars(lines[r], c, IsRobotChar);
    assert g.robots[idx] == NewRobot(CellPoint(c, r));
    assert g'.robots[idx] == g'.robots[..|g.robots|][idx];
  }

  /** The same for stations. */
  lemma GridStationsStep(g: Game, g': Game, base: nat, lines: seq<string>, k: nat)
    requires k < |lines|
    requires |g.worktops| == base + CountRows(lines, k, IsStationChar)
    requires GridStationsPlaced(g, base, lines, k)
    requires |g'.worktops| == |g.worktops| + CountChars(lines[k], CStrLen(lines[k]), IsStationChar)
    requires g'.worktops[..|g.worktops|] == g.worktops
    requires StationsPlaced(g', |g.worktops|, lines[k], k, CStrLen(lines[k]))
    ensures |g'.worktops| == base + CountRows(lines, k + 1, IsStationChar)
    ensures GridStationsPlaced(g', base, lines, k + 1)
  {
    assert CountRows(lines, k + 1, IsStationChar) == CountRows(lines, k, IsStationChar) + CountChars(lines[k], CStrLen(lines[k]), IsStationChar);
    forall r, c | 0 <= r < k + 1 && 0 <= c < CStrLen(lines[r]) && IsStationChar(lines[r][c])
      ensures base + CountRows(lines, r, IsStationChar) + CountChars(lines[r], c, IsStationChar) < |g'.worktops|
      ensures g'.worktops[base + CountRows(lines, r, IsStationChar) + CountChars(lines[r], c, IsStationChar)] == NewWorktop(CellPoint(c, r), StationKindOf(lines[r][c]))
    {
      if r < k {
        GridStationOldCell(g, g', base, lines, k, r, c);
      } else {
        GridStationNewCell(g, g', base, lines, k, c);
      }
    }
  }

  /** A cell of the appended row k holds the robot placed for it. */
  lemma GridRobotNewCell(g: Game, g': Game, base: nat, lines: seq<string>, k: nat, c: nat)
    requires k < |lines|
    requires 0 <= c < CStrLen(lines[k]) && IsRobotChar(lines[k][c])
    requires |g.robots| == base + CountRows(lines, k, IsRobotChar)
    requires RobotsPlaced(g', |g.robots|, lines[k], k, CStrLen(lines[k]))
    ensures base + CountRows(lines, k, IsRobotChar) + CountChars(lines[k], c, IsRobotChar) < |g'.robots|
    ensures g'.robots[base + CountRows(lines, k, IsRobotChar) + CountChars(lines[k], c, IsRobotChar)] == NewRobot(CellPoint(c, k))
  {
    RobotCellPlaced(g', |g.robots|, lines[k], k, CStrLen(lines[k]), c);
  }

  /** One instance of RobotsPlaced. */
  lemma RobotCellPlaced(g: Game, base: nat, line: string, row: int, n: nat, c: nat)
    requires n <= |line| && c < n && IsRobotChar(line[c])
    requires RobotsPlaced(g, base, line, row, n)
    ensures base + CountChars(line, c, IsRobotChar) < |g.robots|
    ensures g.robots[base + CountChars(line, c, IsRobotChar)] == NewRobot(CellPoint(c, row))
  {
  }

  /** A cell of the appended row k holds the station placed for it. */
  lemma GridStationNewCell(g: Game, g': Game, base: nat, lines: seq<string>, k: nat, c: nat)
    requires k < |lines|
    requires 0 <= c < CStrLen(lines[k]) && IsStationChar(lines[k][c])
    requires |g.worktops| == base + CountRows(lines, k, IsStationChar)
    requires StationsPlaced(g', |g.worktops|, lines[k], k, CStrLen(lines[k]))
    ensures base + CountRows(lines, k, IsStationChar) + CountChars(lines[k], c, IsStationChar) < |g'.worktops|
    ensures g'.worktops[base + CountRows(lines, k, IsStationChar) + CountChars(lines[k], c, IsStationChar)] == NewWorktop(CellPoint(c, k), StationKindOf(lines[k][c]))
  {
    StationCellPlaced(g', |g.worktops|, lines[k], k, CStrLen(lines[k]), c);
  }

  /** One instance of StationsPlaced. */
  lemma StationCellPlaced(g: Game, base: nat, line: string, row: int, n: nat, c: nat)
    requires n <= |line| && c < n && IsStationChar(line[c])
    requires StationsPlaced(g, base, line, row, n)
    ensures base + CountChars(line, c, IsStationChar) < |g.worktops|
    ensures g.worktops[base + CountChars(line, c, IsStationChar)] == NewWorktop(CellPoint(c, row), StationKindOf(line[c]))
  {
  }

  /** A cell of an earlier row keeps its station when row k is appended. */
  lemma GridStationOldCell(g: Game, g': Game, base: nat, lines: seq<string>, k: nat, r: nat, c: nat)
    requires r < k < |lines|
    requires 0 <= c < CStrLen(lines[r]) && IsStationChar(lines[r][c])
    requires |g.worktops| == base + CountRows(lines, k, IsStationChar)
    requires GridStationsPlaced(g, base, lines, k)
    requires |g.worktops| <= |g'.worktops| && g'.worktops[..|g.worktops|] == g.worktops
    ensures base + CountRows(lines, r, IsStationChar) + CountChars(lines[r], c, IsStationChar) < |g.worktops|
    ensures g'.worktops[base + CountRows(lines, r, IsStationChar) + CountChars(lines[r], c, IsStationChar)] == NewWorktop(CellPoint(c, r), StationKindOf(lines[r][c]))
  {
    var idx := base + CountRows(lines, r, IsStationChar) + CountChars(lines[r], c, IsStationChar);
    assert g.worktops[idx] == NewWorktop(CellPoint(c, r), StationKindOf(lines[r][c]));
    assert g'.worktops[idx] == g'.worktops[..|g.worktops|][idx];
  }

  /** The result of loading rows 0 .. k-1 onto g0. */
  ghost predicate Loaded(g0: Game, g: Game, lines: seq<string>, k: nat)
    requires k <= |lines|
  {
    && g.curFrame == g0.curFrame && g.money == g0.money
    && |g.robots| == |g0.robots| + CountRows(lines, k, IsRobotChar)
    && |g.worktops| == |g0.worktops| + CountRows(lines, k, IsStationChar)
    && g.robots[..|g0.robots|] == g0.robots && g.worktops[..|g0.worktops|] == g0.worktops
    && GridRobotsPlaced(g, |g0.robots|, lines, k)
    && GridStationsPlaced(g, |g0.worktops|, lines, k)
  }

  /** Loading row k (as LoadRow promises) extends Loaded to k+1 rows. */
  lemma LoadedStep(g0: Game, g: Game, g': Game, lines: seq<string>, k: nat)
    requires k < |lines| && Loaded(g0, g, lines, k)
    requires g'.curFrame == g.curFrame && g'.money == g.money
    requires |g'.robots| == |g.robots| + CountChars(lines[k], CStrLen(lines[k]), IsRobotChar)
    requires |g'.worktops| == |g.worktops| + CountChars(lines[k], CStrLen(lines[k]), IsStationChar)
    requires g'.robots[..|g.robots|] == g.robots && g'.worktops[..|g.worktops|] == g.worktops
    requires RobotsPlaced(g', |g.robots|, lines[k], k, CStrLen(lines[k]))
    requires StationsPlaced(g', |g.worktops|, lines[k], k, CStrLen(lines[k]))
    ensures Loaded(g0, g', lines, k + 1)
  {
    GridRobotsStep(g, g', |g0.robots|, lines, k);
    GridStationsStep(g, g', |g0.worktops|, lines, k);
    assert g'.robots[..|g0.robots|] == g.robots[..|g.robots|][..|g0.robots|];
    assert g'.worktops[..|g0.worktops|] == g.worktops[..|g.worktops|][..|g0.worktops|];
  }

  /** LoadMap: read rows until the first "OK" line. The answer is true iff
      such a line exists; the rows before it (and only those) are placed, and
      the row counter of each placed row equals its line index. */
  method LoadMap(g0: Game, lines: seq<string>) returns (ok: bool, g: Game)
    ensures ok <==> exists k :: 0 <= k < |lines| && IsOKLine(lines[k])
    ensures g.curFrame == g0.curFrame && g.money == g0.money
    ensures |g.robots| == |g0.robots| + CountRows(lines, FirstOK(lines), IsRobotChar)
    ensures |g.worktops| == |g0.worktops| + CountRows(lines, FirstOK(lines), IsStationChar)
    ensures g.robots[..|g0.robots|] == g0.robots && g.worktops[..|g0.worktops|] == g0.worktops
    ensures GridRobotsPlaced(g, |g0.robots|, lines, FirstOK(lines))
    ensures GridStationsPlaced(g, |g0.worktops|, lines, FirstOK(lines))
  {
    g := g0;
    ok := false;
    var row := 0;
    while row < |lines|
      invariant row <= FirstOK(lines)
      invariant !ok
      invariant Loaded(g0, g, lines, row)
    {
      if IsOKLine(lines[row]) {
        ok := true;
        break;
      }
      var g' := LoadRow(g, lines[row], row);
      LoadedStep(g0, g, g', lines, row);
      g := g';
      row := row + 1;
    }
    assert row == FirstOK(lines);
  }
}
