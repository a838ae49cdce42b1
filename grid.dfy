/** The field's two lists of lists (the cells and the player's marks) as sequences
    of rows, and what the game reads off them. */
module Grids {
  import opened Board

  /** g has `rows` rows of `cols` entries each. */
  predicate IsGrid<T>(g: seq<seq<T>>, rows: int, cols: int) {
    |g| == rows && forall i :: 0 <= i < |g| ==> |g[i]| == cols
  }

  /** A `rows` x `cols` grid holding v everywhere, as the field's lists start out. */
  function Filled<T>(rows: nat, cols: nat, v: T): (g: seq<seq<T>>)
    ensures IsGrid(g, rows, cols)
    ensures forall i, j :: 0 <= i < rows && 0 <= j < cols ==> g[i][j] == v
  {
    seq(rows, _ => seq(cols, _ => v))
  }

  /** g with the entry at (i, j) replaced by v, as `g[i][j] = v` leaves it. */
  function Put<T>(g: seq<seq<T>>, i: int, j: int, v: T): (r: seq<seq<T>>)
    requires 0 <= i < |g| && 0 <= j < |g[i]|
    ensures |r| == |g| && forall a :: 0 <= a < |g| ==> |r[a]| == |g[a]|
    ensures forall a, b :: 0 <= a < |g| && 0 <= b < |g[a]| ==>
      r[a][b] == if a == i && b == j then v else g[a][b]
  {
    g[i := g[i][j := v]]
  }

  /** Writing back the value an entry already holds changes nothing. */
  lemma PutSame<T>(g: seq<seq<T>>, i: int, j: int)
    requires 0 <= i < |g| && 0 <= j < |g[i]|
    ensures Put(g, i, j, g[i][j]) == g
  {
    assert g[i][j := g[i][j]] == g[i];
  }

  /** The number of entries equal to v among the first j of a row. */
  function RowCount<T(==)>(row: seq<T>, v: T, j: nat): nat
    requires j <= |row|
  {
    if j == 0 then 0 else RowCount(row, v, j - 1) + (if row[j - 1] == v then 1 else 0)
  }

  /** The number of entries equal to v in the first i rows. */
  function GridCount<T(==)>(g: seq<seq<T>>, v: T, i: nat): nat
    requires i <= |g|
  {
    if i == 0 then 0 else GridCount(g, v, i - 1) + RowCount(g[i - 1], v, |g[i - 1]|)
  }

  lemma {:induction false} RowCountBound<T>(row: seq<T>, v: T, j: nat)
    requires j <= |row|
    ensures RowCount(row, v, j) <= j
  {
    if j > 0 {
      RowCountBound(row, v, j - 1);
    }
  }

  /** A grid of `rows` x `cols` holds v at most `rows * cols` times. */
  lemma {:induction false} GridCountBound<T>(g: seq<seq<T>>, v: T, rows: nat, cols: nat, i: nat)
    requires IsGrid(g, rows, cols) && i <= rows
    ensures GridCount(g, v, i) <= i * cols
  {
    if i > 0 {
      GridCountBound(g, v, rows, cols, i - 1);
      RowCountBound(g[i - 1], v, cols);
      MulStep(i - 1, cols);
    }
  }

  lemma {:induction false} RowCountSet<T>(row: seq<T>, v: T, k: int, w: T, j: nat)
    requires 0 <= k < |row| && j <= |row|
    ensures RowCount(row[k := w], v, j) ==
      RowCount(row, v, j) + (if k < j then (if w == v then 1 else 0) - (if row[k] == v then 1 else 0) else 0)
  {
    if j > 0 {
      RowCountSet(row, v, k, w, j - 1);
    }
  }

  /** Writing w at (a, b) moves the count of v by what that entry gains or loses. */
  lemma {:induction false} GridCountPut<T>(g: seq<seq<T>>, v: T, a: int, b: int, w: T, i: nat)
    requires 0 <= a < |g| && 0 <= b < |g[a]| && i <= |g|
    ensures GridCount(Put(g, a, b, w), v, i) ==
      GridCount(g, v, i) + (if a < i then (if w == v then 1 else 0) - (if g[a][b] == v then 1 else 0) else 0)
  {
    if i > 0 {
      GridCountPut(g, v, a, b, w, i - 1);
      if a == i - 1 {
        RowCountSet(g[a], v, b, w, |g[a]|);
      }
    }
  }

  /** p names an entry of g. */
  predicate InGridOf<T>(g: seq<seq<T>>, p: Pos) {
    0 <= p.0 < |g| && 0 <= p.1 < |g[p.0]|
  }

  /** The main field shows exactly the given mines: a mine on each of them, and on every
      other cell the number of them among its 8 neighbours. */
  predicate LaidOut(g: seq<seq<Cell>>, mines: set<Pos>) {
    (forall p :: p in mines ==> InGridOf(g, p)) &&
    forall i, j :: 0 <= i < |g| && 0 <= j < |g[i]| ==> Holds(g[i][j], mines, (i, j))
  }

  /** A set of mines determines the main field of a given shape completely. */
  lemma LaidOutUnique(g1: seq<seq<Cell>>, g2: seq<seq<Cell>>, mines: set<Pos>, rows: int, cols: int)
    requires IsGrid(g1, rows, cols) && IsGrid(g2, rows, cols)
    requires LaidOut(g1, mines) && LaidOut(g2, mines)
    ensures g1 == g2
  {
    forall i | 0 <= i < rows
      ensures g1[i] == g2[i]
    {
      forall j | 0 <= j < cols
        ensures g1[i][j] == g2[i][j]
      {
        assert Holds(g1[i][j], mines, (i, j)) && Holds(g2[i][j], mines, (i, j));
      }
    }
  }

  /** The mines of a laid-out field are exactly its mine cells. */
  lemma MinesAreMineCells(g: seq<seq<Cell>>, mines: set<Pos>, p: Pos)
    requires LaidOut(g, mines) && InGridOf(g, p)
    ensures p in mines <==> g[p.0][p.1] == Mine
  {
    assert Holds(g[p.0][p.1], mines, (p.0, p.1));
  }

  /** Which flags a count takes in: all of them, or only those on the given cells. */
  datatype Among = Anywhere | On(cells: set<Pos>)

  predicate Within(a: Among, p: Pos) {
    a.Anywhere? || p in a.cells
  }

  /** The flags taken in by `a` among the first j entries of row r, left to right. */
  function RowFlagList(row: seq<Mark>, r: int, a: Among, j: nat): seq<Pos>
    requires j <= |row|
  {
    if j == 0 then []
    else RowFlagList(row, r, a, j - 1) + (if row[j - 1] == Flagged && Within(a, (r, j - 1)) then [(r, j - 1)] else [])
  }

  /** The flags taken in by `a` in the first i rows, in row-major order. */
  function FlagList(marks: seq<seq<Mark>>, a: Among, i: nat): seq<Pos>
    requires i <= |marks|
  {
    if i == 0 then [] else FlagList(marks, a, i - 1) + RowFlagList(marks[i - 1], i - 1, a, |marks[i - 1]|)
  }

  /** The flags taken in by `a` in the first i rows, as a set. */
  ghost function FlagsUpTo(marks: seq<seq<Mark>>, a: Among, i: nat): set<Pos>
    requires i <= |marks|
  {
    set p | p in FlagList(marks, a, i)
  }

  /** The flagged cells. */
  ghost function FlagsOf(marks: seq<seq<Mark>>): set<Pos> {
    FlagsUpTo(marks, Anywhere, |marks|)
  }

  /** The number of flags taken in by `a` among the first j entries of row r. */
  function RowFlagCount(row: seq<Mark>, r: int, a: Among, j: nat): nat
    requires j <= |row|
  {
    if j == 0 then 0
    else RowFlagCount(row, r, a, j - 1) + (if row[j - 1] == Flagged && Within(a, (r, j - 1)) then 1 else 0)
  }

  /** The number of flags taken in by `a` in the first i rows. */
  function FlagCount(marks: seq<seq<Mark>>, a: Among, i: nat): nat
    requires i <= |marks|
  {
    if i == 0 then 0 else FlagCount(marks, a, i - 1) + RowFlagCount(marks[i - 1], i - 1, a, |marks[i - 1]|)
  }

  /** The list of a row's flags holds each flag of the row once, and as many as are counted. */
  lemma {:induction false} RowFlagListSpec(row: seq<Mark>, r: int, a: Among, j: nat)
    requires j <= |row|
    ensures forall p :: p in RowFlagList(row, r, a, j) <==>
      p.0 == r && 0 <= p.1 < j && row[p.1] == Flagged && Within(a, p)
    ensures Distinct(RowFlagList(row, r, a, j))
    ensures |RowFlagList(row, r, a, j)| == RowFlagCount(row, r, a, j)
  {
    if j > 0 {
      RowFlagListSpec(row, r, a, j - 1);
      var last := if row[j - 1] == Flagged && Within(a, (r, j - 1)) then [(r, j - 1)] else [];
      DistinctAppend(RowFlagList(row, r, a, j - 1), last);
    }
  }

  /** The list of the flags of the first i rows holds each of their flags once, and
      as many as are counted. */
  lemma {:induction false} FlagListSpec(marks: seq<seq<Mark>>, a: Among, i: nat)
    requires i <= |marks|
    ensures forall p :: p in FlagList(marks, a, i) <==>
      0 <= p.0 < i && 0 <= p.1 < |marks[p.0]| && marks[p.0][p.1] == Flagged && Within(a, p)
    ensures Distinct(FlagList(marks, a, i))
    ensures |FlagList(marks, a, i)| == FlagCount(marks, a, i)
  {
    if i > 0 {
      FlagListSpec(marks, a, i - 1);
      RowFlagListSpec(marks[i - 1], i - 1, a, |marks[i - 1]|);
      DistinctAppend(FlagList(marks, a, i - 1), RowFlagList(marks[i - 1], i - 1, a, |marks[i - 1]|));
    }
  }

  lemma FlagsUpToSpec(marks: seq<seq<Mark>>, a: Among, i: nat)
    requires i <= |marks|
    ensures forall p :: p in FlagsUpTo(marks, a, i) <==>
      0 <= p.0 < i && 0 <= p.1 < |marks[p.0]| && marks[p.0][p.1] == Flagged && Within(a, p)
  {
    FlagListSpec(marks, a, i);
  }

  /** A cell is among the flagged cells exactly when it lies on the grid and holds a flag. */
  lemma FlagsOfSpec(marks: seq<seq<Mark>>)
    ensures forall p :: p in FlagsOf(marks) <==> InGridOf(marks, p) && marks[p.0][p.1] == Flagged
  {
    FlagsUpToSpec(marks, Anywhere, |marks|);
  }

  /** Counting flags row by row gives the size of the set of flagged cells. */
  lemma FlagsUpToCard(marks: seq<seq<Mark>>, a: Among, i: nat)
    requires i <= |marks|
    ensures |FlagsUpTo(marks, a, i)| == FlagCount(marks, a, i)
  {
    FlagListSpec(marks, a, i);
    DistinctCard(FlagList(marks, a, i));
  }

  /** The flags on given cells are the flagged cells among them. */
  lemma FlagsOn(marks: seq<seq<Mark>>, mines: set<Pos>)
    ensures FlagsUpTo(marks, On(mines), |marks|) == FlagsOf(marks) * mines
  {
    FlagsUpToSpec(marks, On(mines), |marks|);
    FlagsOfSpec(marks);
  }

  /** What setting a cell from `before` to `after` adds to the number of flags. */
  function FlagGain(before: Mark, after: Mark): int {
    (if after == Flagged then 1 else 0) - (if before == Flagged then 1 else 0)
  }

  /** `total_flags` is the number of flags, and `mines_left` the number of the n mines
      without a flag on them. */
  predicate Counted(marks: seq<seq<Mark>>, mines: set<Pos>, n: int, totalFlags: int, minesLeft: int) {
    totalFlags == FlagCount(marks, Anywhere, |marks|) && minesLeft == n - FlagCount(marks, On(mines), |marks|)
  }

  /** The counters' numbers are the sizes of the set of flagged cells and of its part
      on the mines. */
  lemma CountedMeans(marks: seq<seq<Mark>>, mines: set<Pos>, n: int, t: int, l: int)
    ensures Counted(marks, mines, n, t, l) <==>
      t == |FlagsOf(marks)| && l == n - |FlagsOf(marks) * mines|
  {
    FlagsUpToCard(marks, Anywhere, |marks|);
    FlagsUpToCard(marks, On(mines), |marks|);
    FlagsOn(marks, mines);
  }

  /** Setting entry j of a row moves its count by the flag gained or lost there. */
  lemma {:induction false} RowCountPut(row: seq<Mark>, r: int, a: Among, j: int, m: Mark, k: nat)
    requires 0 <= j < |row| && k <= |row|
    ensures RowFlagCount(row[j := m], r, a, k) ==
      RowFlagCount(row, r, a, k) + (if j < k && Within(a, (r, j)) then FlagGain(row[j], m) else 0)
  {
    if k > 0 {
      RowCountPut(row, r, a, j, m, k - 1);
    }
  }

  /** Setting one mark moves the count by the flag gained or lost there. */
  lemma {:induction false} CountPut(marks: seq<seq<Mark>>, a: Among, i: int, j: int, m: Mark, k: nat)
    requires 0 <= i < |marks| && 0 <= j < |marks[i]| && k <= |marks|
    ensures FlagCount(Put(marks, i, j, m), a, k) ==
      FlagCount(marks, a, k) + (if i < k && Within(a, (i, j)) then FlagGain(marks[i][j], m) else 0)
  {
    if k > 0 {
      CountPut(marks, a, i, j, m, k - 1);
      if k - 1 == i {
        RowCountPut(marks[i], i, a, j, m, |marks[i]|);
      }
    }
  }

  /** Setting one mark keeps the counters right when the flag count moves by the flag
      gained or lost there, and the unflagged-mine count moves the other way if the
      cell is a mine. */
  lemma CountedAfterPut(marks: seq<seq<Mark>>, mines: set<Pos>, n: int, t: int, l: int, i: int, j: int, m: Mark)
    requires 0 <= i < |marks| && 0 <= j < |marks[i]|
    ensures var gain := FlagGain(marks[i][j], m);
      Counted(marks, mines, n, t, l) ==>
      Counted(Put(marks, i, j, m), mines, n, t + gain, l - if (i, j) in mines then gain else 0)
  {
    CountPut(marks, Anywhere, i, j, m, |marks|);
    CountPut(marks, On(mines), i, j, m, |marks|);
  }

  /** With counters that agree with the flags, put_flag's win test holds exactly when
      the flagged cells are the mines. */
  lemma CountedWin(marks: seq<seq<Mark>>, mines: set<Pos>, n: int, t: int, l: int)
    requires |mines| == n
    ensures Counted(marks, mines, n, t, l) ==> ((l == 0 && t == n) <==> FlagsOf(marks) == mines)
  {
    CountedMeans(marks, mines, n, t, l);
    if Counted(marks, mines, n, t, l) {
      WinIffFlagsAreMines(FlagsOf(marks), mines, l, t);
    }
  }

  /** When `total_flags` is higher than the number of flags, as the flood fill of open
      leaves it after overwriting a flag, and `mines_left` still agrees with the flags,
      put_flag's win test cannot hold. */
  lemma DriftedNoWin(marks: seq<seq<Mark>>, mines: set<Pos>, n: int, t: int, l: int)
    requires |mines| == n && l == n - FlagCount(marks, On(mines), |marks|)
    requires t > FlagCount(marks, Anywhere, |marks|)
    ensures !(l == 0 && t == n)
  {
    var flags := FlagsOf(marks);
    CountedMeans(marks, mines, n, FlagCount(marks, Anywhere, |marks|), l);
    if l == 0 {
      SubsetSameCard(flags * mines, mines);
      assert flags == mines + (flags - mines);
      assert |flags| >= |mines|;
    }
  }

  /** What open and its flood fill may do to the marks: open cells that hold no mine. */
  predicate OnlyOpens(m0: seq<seq<Mark>>, m1: seq<seq<Mark>>, g: seq<seq<Cell>>, rows: int, cols: int) {
    IsGrid(m0, rows, cols) && IsGrid(m1, rows, cols) && IsGrid(g, rows, cols) &&
    forall i, j :: 0 <= i < rows && 0 <= j < cols ==>
      m1[i][j] == m0[i][j] || (m1[i][j] == Opened && g[i][j] != Mine)
  }

  /** Opening cells loses flags, but never a flag on a mine. */
  lemma OpenedFlags(m0: seq<seq<Mark>>, m1: seq<seq<Mark>>, g: seq<seq<Cell>>, rows: int, cols: int, mines: set<Pos>)
    requires OnlyOpens(m0, m1, g, rows, cols) && LaidOut(g, mines)
    ensures FlagsOf(m1) <= FlagsOf(m0)
    ensures FlagsOf(m1) * mines == FlagsOf(m0) * mines
  {
    FlagsOfSpec(m0);
    FlagsOfSpec(m1);
    forall p | p in mines
      ensures p in FlagsOf(m1) <==> p in FlagsOf(m0)
    {
      MinesAreMineCells(g, mines, p);
    }
  }

  /** m0 and m1 have rows of the same lengths. */
  predicate SameShape<T>(m0: seq<seq<T>>, m1: seq<seq<T>>) {
    |m0| == |m1| && forall a :: 0 <= a < |m0| ==> |m0[a]| == |m1[a]|
  }

  /** The number of entries other than c among the first j of row r that are flagged
      in r0 and not in r1. */
  function RowOverwritten(r0: seq<Mark>, r1: seq<Mark>, r: int, c: Pos, j: nat): nat
    requires j <= |r0| && j <= |r1|
  {
    if j == 0 then 0
    else
      var lost := r0[j - 1] == Flagged && r1[j - 1] != Flagged && (r, j - 1) != c;
      RowOverwritten(r0, r1, r, c, j - 1) + (if lost then 1 else 0)
  }

  /** The number of cells other than c in the first i rows that are flagged in m0 and
      not in m1. */
  function Overwritten(m0: seq<seq<Mark>>, m1: seq<seq<Mark>>, c: Pos, i: nat): nat
    requires SameShape(m0, m1) && i <= |m0|
  {
    if i == 0 then 0
    else Overwritten(m0, m1, c, i - 1) + RowOverwritten(m0[i - 1], m1[i - 1], i - 1, c, |m0[i - 1]|)
  }

  /** The number of flags of m0 other than the one on c that m1 no longer has. */
  function OverwrittenFlags(m0: seq<seq<Mark>>, m1: seq<seq<Mark>>, c: Pos): nat
    requires SameShape(m0, m1)
  {
    Overwritten(m0, m1, c, |m0|)
  }

  /** Nothing is lost between a grid and itself. */
  lemma {:induction false} NoneOverwritten(m: seq<seq<Mark>>, c: Pos, i: nat)
    requires i <= |m|
    ensures SameShape(m, m) && Overwritten(m, m, c, i) == 0
  {
    if i > 0 {
      NoneOverwritten(m, c, i - 1);
      RowNoneOverwritten(m[i - 1], i - 1, c, |m[i - 1]|);
    }
  }

  lemma {:induction false} RowNoneOverwritten(row: seq<Mark>, r: int, c: Pos, j: nat)
    requires j <= |row|
    ensures RowOverwritten(row, row, r, c, j) == 0
  {
    if j > 0 {
      RowNoneOverwritten(row, r, c, j - 1);
    }
  }

  /** The flags a row loses are those its count loses. */
  lemma {:induction false} RowLost(r0: seq<Mark>, r1: seq<Mark>, r: int, c: Pos, j: nat)
    requires j <= |r0| == |r1|
    requires forall b :: 0 <= b < |r0| ==> (r1[b] == Flagged ==> r0[b] == Flagged)
    ensures RowFlagCount(r0, r, Anywhere, j) == RowFlagCount(r1, r, Anywhere, j) + RowOverwritten(r0, r1, r, c, j) +
      (if c.0 == r && 0 <= c.1 < j && r0[c.1] == Flagged && r1[c.1] != Flagged then 1 else 0)
  {
    if j > 0 {
      RowLost(r0, r1, r, c, j - 1);
    }
  }

  /** When m1 adds no flag to m0, the flag count falls by the flags lost. */
  lemma {:induction false} GridLost(m0: seq<seq<Mark>>, m1: seq<seq<Mark>>, c: Pos, i: nat)
    requires SameShape(m0, m1) && i <= |m0|
    requires forall a, b :: 0 <= a < |m0| && 0 <= b < |m0[a]| ==> (m1[a][b] == Flagged ==> m0[a][b] == Flagged)
    ensures FlagCount(m0, Anywhere, i) == FlagCount(m1, Anywhere, i) + Overwritten(m0, m1, c, i) +
      (if 0 <= c.0 < i && 0 <= c.1 < |m0[c.0]| && m0[c.0][c.1] == Flagged && m1[c.0][c.1] != Flagged then 1 else 0)
  {
    if i > 0 {
      GridLost(m0, m1, c, i - 1);
      RowLost(m0[i - 1], m1[i - 1], i - 1, c, |m0[i - 1]|);
    }
  }

  /** After opening cells, with c's flag (if any) taken off the count, the flag count
      is too high by the flags lost on cells other than c; the unflagged-mine count
      stays right. */
  lemma OpenedCounts(m0: seq<seq<Mark>>, m1: seq<seq<Mark>>, g: seq<seq<Cell>>, rows: int, cols: int,
                     mines: set<Pos>, n: int, t: int, l: int, c: Pos)
    requires OnlyOpens(m0, m1, g, rows, cols) && LaidOut(g, mines)
    requires 0 <= c.0 < rows && 0 <= c.1 < cols && m1[c.0][c.1] == Opened
    ensures SameShape(m0, m1)
    ensures Counted(m0, mines, n, t, l) ==>
      Counted(m1, mines, n, t + FlagGain(m0[c.0][c.1], Opened) - OverwrittenFlags(m0, m1, c), l)
  {
    OpenedDrift(m0, m1, g, rows, cols, mines, c);
  }

  /** Opening cells changes the number of flags by c's own and the flags lost on other
      cells, and leaves the number of flagged mines alone. */
  lemma OpenedDrift(m0: seq<seq<Mark>>, m1: seq<seq<Mark>>, g: seq<seq<Cell>>, rows: int, cols: int,
                    mines: set<Pos>, c: Pos)
    requires OnlyOpens(m0, m1, g, rows, cols) && LaidOut(g, mines)
    requires 0 <= c.0 < rows && 0 <= c.1 < cols && m1[c.0][c.1] == Opened
    ensures SameShape(m0, m1)
    ensures FlagCount(m1, Anywhere, |m1|) ==
      FlagCount(m0, Anywhere, |m0|) + FlagGain(m0[c.0][c.1], Opened) - OverwrittenFlags(m0, m1, c)
    ensures FlagCount(m1, On(mines), |m1|) == FlagCount(m0, On(mines), |m0|)
  {
    GridLost(m0, m1, c, |m0|);
    OpenedFlags(m0, m1, g, rows, cols, mines);
    FlagsUpToCard(m0, On(mines), |m0|);
    FlagsUpToCard(m1, On(mines), |m1|);
    FlagsOn(m0, mines);
    FlagsOn(m1, mines);
  }

  /** The counters open leaves behind, t1 with c's flag taken off t0 and l unchanged:
      `total_flags` gains on the number of flags exactly the flags lost on cells other
      than c, and `mines_left` stays a recount if it was one. */
  lemma OpenedCounters(m0: seq<seq<Mark>>, m1: seq<seq<Mark>>, g: seq<seq<Cell>>, rows: int, cols: int,
                       mines: set<Pos>, n: int, t0: int, t1: int, l: int, c: Pos)
    requires OnlyOpens(m0, m1, g, rows, cols) && LaidOut(g, mines)
    requires 0 <= c.0 < rows && 0 <= c.1 < cols && m1[c.0][c.1] == Opened
    requires t1 == t0 + FlagGain(m0[c.0][c.1], Opened)
    ensures SameShape(m0, m1)
    ensures t1 - FlagCount(m1, Anywhere, |m1|) == t0 - FlagCount(m0, Anywhere, |m0|) + OverwrittenFlags(m0, m1, c)
    ensures l == n - FlagCount(m0, On(mines), |m0|) ==> l == n - FlagCount(m1, On(mines), |m1|)
    ensures Counted(m0, mines, n, t0, l) ==> Counted(m1, mines, n, t1 - OverwrittenFlags(m0, m1, c), l)
  {
    OpenedDrift(m0, m1, g, rows, cols, mines, c);
  }

  /** The flags lost are the flagged cells of m0, other than c, that m1 does not flag. */
  lemma OverwrittenMeans(m0: seq<seq<Mark>>, m1: seq<seq<Mark>>, g: seq<seq<Cell>>, rows: int, cols: int, c: Pos)
    requires OnlyOpens(m0, m1, g, rows, cols)
    requires 0 <= c.0 < rows && 0 <= c.1 < cols && m1[c.0][c.1] == Opened
    ensures SameShape(m0, m1)
    ensures OverwrittenFlags(m0, m1, c) == |FlagsOf(m0) - FlagsOf(m1) - {c}|
  {
    var f0, f1 := FlagsOf(m0), FlagsOf(m1);
    GridLost(m0, m1, c, |m0|);
    FlagsUpToCard(m0, Anywhere, |m0|);
    FlagsUpToCard(m1, Anywhere, |m1|);
    OpenedLoseFlags(m0, m1, g, rows, cols, c);
    FlagDrift(f0, f1, c);
  }

  /** Opening cells adds no flag, and the opened cell c has none. */
  lemma OpenedLoseFlags(m0: seq<seq<Mark>>, m1: seq<seq<Mark>>, g: seq<seq<Cell>>, rows: int, cols: int, c: Pos)
    requires OnlyOpens(m0, m1, g, rows, cols)
    requires 0 <= c.0 < rows && 0 <= c.1 < cols && m1[c.0][c.1] == Opened
    ensures FlagsOf(m1) <= FlagsOf(m0) && c !in FlagsOf(m1)
    ensures c in FlagsOf(m0) <==> m0[c.0][c.1] == Flagged
  {
    FlagsOfSpec(m0);
    FlagsOfSpec(m1);
  }

  /** A grid no cell of which is flagged has no flags: both counters start right at
      0 flags and all n mines left. */
  lemma NoFlags(marks: seq<seq<Mark>>, mines: set<Pos>, n: int)
    requires forall i, j :: 0 <= i < |marks| && 0 <= j < |marks[i]| ==> marks[i][j] != Flagged
    ensures Counted(marks, mines, n, 0, n)
  {
    FlagsOfSpec(marks);
    assert FlagsOf(marks) == {};
    CountedMeans(marks, mines, n, 0, n);
  }

  /** The saved codes of a grid of marks, row by row. */
  function Codes(marks: seq<seq<Mark>>): (rows: seq<seq<int>>)
    ensures |rows| == |marks| && forall i :: 0 <= i < |marks| ==> |rows[i]| == |marks[i]|
    ensures forall i, j :: 0 <= i < |marks| && 0 <= j < |marks[i]| ==>
      rows[i][j] == Code(marks[i][j]) && 0 <= rows[i][j] <= 2
  {
    seq(|marks|, i requires 0 <= i < |marks| =>
      seq(|marks[i]|, j requires 0 <= j < |marks[i]| => Code(marks[i][j])))
  }

  /** The codes of a grid are the rows of integers that agree with it cell by cell. */
  lemma CodesOf(marks: seq<seq<Mark>>, rows: seq<seq<int>>, n: int, c: int)
    requires IsGrid(marks, n, c) && IsGrid(rows, n, c)
    requires forall a, b :: 0 <= a < n && 0 <= b < c ==> Code(marks[a][b]) == rows[a][b]
    ensures Codes(marks) == rows
  {
    forall a | 0 <= a < n
      ensures Codes(marks)[a] == rows[a]
    {
    }
  }

  /** Different marks are saved differently: the codes give the marks back. */
  lemma CodesInjective(m1: seq<seq<Mark>>, m2: seq<seq<Mark>>)
    requires Codes(m1) == Codes(m2)
    ensures m1 == m2
  {
    assert |m1| == |m2|;
    forall i | 0 <= i < |m1|
      ensures m1[i] == m2[i]
    {
      assert |m1[i]| == |Codes(m1)[i]| == |m2[i]|;
      forall j | 0 <= j < |m1[i]|
        ensures m1[i][j] == m2[i][j]
      {
        assert Code(m1[i][j]) == Codes(m1)[i][j] == Code(m2[i][j]);
      }
    }
  }
}
