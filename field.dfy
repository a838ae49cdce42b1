/** The game engine: the main field with its mines and adjacency numbers, the
    player's marks, and the two counters, all updated in place. */
module Field {
  import opened Board
  import opened Grids
  import Flood
  import SaveFormat
  import opened Sweeps

  /** What the board printer shows for one cell. */
  datatype Glyph = Covered | FlagSign | Content(cell: Cell)

  /** The per-cell decision of `show`: a covered cell unless the cell is opened or
      flagged or everything is shown; a flag wherever there is one, even when
      everything is shown; otherwise the cell's content. */
  function Display(mark: Mark, cell: Cell, showAll: bool): (r: Glyph)
    ensures r == Covered <==> mark == Hidden && !showAll
    ensures r == FlagSign <==> mark == Flagged
    ensures r.Content? <==> mark == Opened || (mark == Hidden && showAll)
    ensures r.Content? ==> r.cell == cell
  {
    match mark
    case Flagged => FlagSign
    case Opened => Content(cell)
    case Hidden => if showAll then Content(cell) else Covered
  }

  /** The mines save lists, in row-major order, are the field's mines, each once. */
  lemma SavedMines(g: seq<seq<Cell>>, mines: set<Pos>, rows: nat, cols: nat)
    requires IsGrid(g, rows, cols) && LaidOut(g, mines)
    ensures (set p | p in SaveFormat.MinesInRows(g, rows)) == mines
    ensures Distinct(SaveFormat.MinesInRows(g, rows))
    ensures |SaveFormat.MinesInRows(g, rows)| == |mines|
  {
    var listed := SaveFormat.MinesInRows(g, rows);
    SaveFormat.MinesInRowsSpec(g, rows);
    forall p
      ensures p in listed <==> p in mines
    {
      if InGridOf(g, p) {
        MinesAreMineCells(g, mines, p);
      }
    }
    DistinctCard(listed);
  }

  /** What `save` writes for a field of the given shape with the given mines and marks. */
  ghost function Saved(g: seq<seq<Cell>>, mines: set<Pos>, marks: seq<seq<Mark>>, rows: nat, cols: nat): SaveFormat.Image
    requires rows <= |g|
  {
    SaveFormat.Image(rows, cols, |mines|, SaveFormat.MinesInRows(g, rows), Codes(marks))
  }

  /** What `save` writes reads back as itself and passes every assumption of the loader. */
  lemma SavedGameLoads(g: seq<seq<Cell>>, mines: set<Pos>, marks: seq<seq<Mark>>, rows: nat, cols: nat)
    requires IsGrid(g, rows, cols) && LaidOut(g, mines) && IsGrid(marks, rows, cols)
    ensures SaveFormat.Decode(SaveFormat.Encode(Saved(g, mines, marks, rows, cols))) == SaveFormat.Some(Saved(g, mines, marks, rows, cols))
    ensures SaveFormat.Loadable(Saved(g, mines, marks, rows, cols))
  {
    var img := Saved(g, mines, marks, rows, cols);
    SavedMines(g, mines, rows, cols);
    SaveFormat.MinesInRowsSpec(g, rows);
    forall k | 0 <= k < |img.mineCoords|
      ensures 0 <= img.mineCoords[k].0 < rows && 0 <= img.mineCoords[k].1 < cols
    {
      assert img.mineCoords[k] in img.mineCoords;
    }
    SaveFormat.DecodeEncode(img);
  }

  /** A game loaded from what `save` wrote is the saved game: the same main field,
      mines and marks. */
  lemma LoadedAsSaved(g: seq<seq<Cell>>, mines: set<Pos>, marks: seq<seq<Mark>>, rows: nat, cols: nat,
                      g': seq<seq<Cell>>, mines': set<Pos>, marks': seq<seq<Mark>>)
    requires IsGrid(g, rows, cols) && LaidOut(g, mines) && IsGrid(marks, rows, cols)
    requires IsGrid(g', rows, cols) && LaidOut(g', mines')
    requires mines' == (set p | p in Saved(g, mines, marks, rows, cols).mineCoords)
    requires Codes(marks') == Saved(g, mines, marks, rows, cols).marks
    ensures g' == g && mines' == mines && marks' == marks
  {
    SavedMines(g, mines, rows, cols);
    LaidOutUnique(g, g', mines, rows, cols);
    CodesInjective(marks', marks);
  }

  /** What `put_flag` leaves on a cell: a flag comes off, a hidden cell gets one, an
      opened cell stays opened. */
  function Toggled(m: Mark): (r: Mark)
    ensures r == Flagged <==> m == Hidden
    ensures m == Opened <==> r == Opened
  {
    match m
    case Flagged => Hidden
    case Hidden => Flagged
    case Opened => Opened
  }

  /** `put_flag` twice on the same cell gives back the marks it started from, and the
      two changes to the counters cancel out. */
  lemma FlagTwice(marks: seq<seq<Mark>>, x: int, y: int)
    requires 0 <= x < |marks| && 0 <= y < |marks[x]|
    ensures var once := Put(marks, x, y, Toggled(marks[x][y]));
      Put(once, x, y, Toggled(once[x][y])) == marks &&
      FlagGain(marks[x][y], once[x][y]) + FlagGain(once[x][y], marks[x][y]) == 0
  {
    var once := Put(marks, x, y, Toggled(marks[x][y]));
    assert Toggled(once[x][y]) == marks[x][y];
    PutSame(marks, x, y);
    assert once[x][y := marks[x][y]] == marks[x];
  }

  /** On a cell whose stored code is 1, the one `is_opened` tests for, put_flag
      changes neither the marks nor the number of flags. */
  lemma OpenedCellUnflaggable(marks: seq<seq<Mark>>, x: int, y: int)
    requires 0 <= x < |marks| && 0 <= y < |marks[x]| && Code(marks[x][y]) == 1
    ensures Put(marks, x, y, Toggled(marks[x][y])) == marks
    ensures FlagGain(marks[x][y], Toggled(marks[x][y])) == 0
  {
    PutSame(marks, x, y);
  }

  /** The counters put_flag leaves behind on a laid-out field, t and l moved by the
      flag gained or lost at (x, y), `mines_left` only on a mine: counters that agreed
      still agree and the win test then holds exactly when the flags are the mines;
      how far `total_flags` is above the number of flags does not change; and while
      `mines_left` agrees, a `total_flags` above the number of flags rules out a win. */
  lemma FlagCounters(marks: seq<seq<Mark>>, g: seq<seq<Cell>>, mines: set<Pos>, n: int, t: int, l: int, x: int, y: int)
    requires 0 <= x < |marks| && 0 <= y < |marks[x]| && InGridOf(g, (x, y))
    requires LaidOut(g, mines) && |mines| == n
    ensures var m1 := Put(marks, x, y, Toggled(marks[x][y]));
      var gain := FlagGain(marks[x][y], m1[x][y]);
      var t1, l1 := t + gain, l - (if g[x][y] == Mine then gain else 0);
      (Counted(marks, mines, n, t, l) ==> Counted(m1, mines, n, t1, l1) && ((l1 == 0 && t1 == n) <==> FlagsOf(m1) == mines)) &&
      t1 - FlagCount(m1, Anywhere, |m1|) == t - FlagCount(marks, Anywhere, |marks|) &&
      (l == n - FlagCount(marks, On(mines), |marks|) ==>
        l1 == n - FlagCount(m1, On(mines), |m1|) && (t1 > FlagCount(m1, Anywhere, |m1|) ==> !(l1 == 0 && t1 == n)))
  {
    var m := Toggled(marks[x][y]);
    var m1 := Put(marks, x, y, m);
    var gain := FlagGain(marks[x][y], m);
    var t1, l1 := t + gain, l - (if g[x][y] == Mine then gain else 0);
    MinesAreMineCells(g, mines, (x, y));
    CountedAfterPut(marks, mines, n, t, l, x, y, m);
    CountedAfterPut(marks, mines, n, FlagCount(marks, Anywhere, |marks|), l, x, y, m);
    CountPut(marks, Anywhere, x, y, m, |marks|);
    CountedWin(m1, mines, n, t1, l1);
    if l1 == n - FlagCount(m1, On(mines), |m1|) && t1 > FlagCount(m1, Anywhere, |m1|) {
      DriftedNoWin(m1, mines, n, t1, l1);
    }
  }

  class MinesweeperField {
    /** Number of rows (`size_x`). */
    const sizeX: nat
    /** Number of columns (`size_y`). */
    const sizeY: nat
    const mines: nat
    /** `main_field`: a mine, or the number of mines around the cell. */
    var mainField: seq<seq<Cell>>
    /** `__is_opened__`: hidden, opened or flagged. */
    var marks: seq<seq<Mark>>
    var minesLeft: int
    var totalFlags: int
    /** The cells holding a mine. */
    ghost var mineSet: set<Pos>

    predicate InBounds(x: int, y: int) {
      0 <= x < sizeX && 0 <= y < sizeY
    }

    /** The main field has the field's shape and shows exactly `mines` mines. */
    ghost predicate Laid()
      reads this`mainField, this`mineSet
    {
      IsGrid(mainField, sizeX, sizeY) && LaidOut(mainField, mineSet) && |mineSet| == mines
    }

    /** Both lists have the field's shape, and the main field shows `mines` mines. */
    ghost predicate Valid()
      reads this
    {
      Laid() && IsGrid(marks, sizeX, sizeY)
    }

    /** `total_flags` is the number of flags on the field and `mines_left` the number
        of mines without a flag on them. */
    ghost predicate CountersAgree()
      reads this`marks, this`minesLeft, this`totalFlags, this`mineSet
    {
      Counted(marks, mineSet, mines, totalFlags, minesLeft)
    }

    /** How far `total_flags` is above the number of flags on the field: 0 while the
        counters agree, raised by every flag the flood fill of open overwrites. */
    ghost function Drift(): int
      reads this`marks, this`totalFlags
    {
      totalFlags - FlagCount(marks, Anywhere, |marks|)
    }

    /** `mines_left` is the number of mines without a flag on them. */
    ghost predicate MinesLeftAgree()
      reads this`marks, this`minesLeft, this`mineSet
    {
      minesLeft == mines - FlagCount(marks, On(mineSet), |marks|)
    }

    /** What save writes, part by part. */
    ghost function Snapshot(): (img: SaveFormat.Image)
      requires Valid()
      reads this
      ensures SaveFormat.Shaped(img)
    {
      SavedMines(mainField, mineSet, sizeX, sizeY);
      Saved(mainField, mineSet, marks, sizeX, sizeY)
    }

    /** A new game: the mines go on the given distinct cells, which stand for the
        random picks; every cell is hidden and no flag is placed. */
    constructor New(sizeX: nat, sizeY: nat, mines: nat, picks: seq<Pos>)
      requires |picks| == mines && Distinct(picks)
      requires forall k :: 0 <= k < |picks| ==> 0 <= picks[k].0 < sizeX && 0 <= picks[k].1 < sizeY
      ensures this.sizeX == sizeX && this.sizeY == sizeY && this.mines == mines
      ensures Valid() && mineSet == set p | p in picks
      ensures marks == Filled(sizeX, sizeY, Hidden)
      ensures minesLeft == mines && totalFlags == 0 && CountersAgree()
    {
      this.sizeX, this.sizeY, this.mines := sizeX, sizeY, mines;
      mainField := Filled(sizeX, sizeY, Count(0));
      marks := Filled(sizeX, sizeY, Hidden);
      minesLeft, totalFlags := mines, 0;
      mineSet := {};
      new;
      EmptyLayout();
      CreateMines(picks);
      DistinctCard(picks);
      NoFlags(marks, mineSet, mines);
    }

    /** A game read back from a save: the mines at the saved coordinates, then the
        saved marks, counting flags and flagged mines as they are read. */
    constructor Load(data: seq<int>)
      requires SaveFormat.Decode(data).Some? && SaveFormat.Loadable(SaveFormat.Decode(data).value)
      ensures Valid() && CountersAgree()
      ensures var img := SaveFormat.Decode(data).value;
        sizeX == img.rows && sizeY == img.cols && mines == img.mines &&
        mineSet == (set p | p in img.mineCoords) && Codes(marks) == img.marks
    {
      var rows, cols, count := data[0], data[1], data[2];
      sizeX, sizeY, mines := rows, cols, count;
      mainField := Filled(rows, cols, Count(0));
      marks := Filled(rows, cols, Hidden);
      minesLeft, totalFlags := count, 0;
      mineSet := {};
      new;
      EmptyLayout();
      ghost var img := SaveFormat.Decode(data).value;
      LoadMines(data, img.mineCoords);
      DistinctCard(img.mineCoords);
      SaveFormat.MarkRows(data);
      LoadOpened(data, img.marks);
      CodesOf(marks, img.marks, rows, cols);
    }

    /** A field of zeros shows no mines. */
    lemma EmptyLayout()
      requires mainField == Filled(sizeX, sizeY, Count(0)) && mineSet == {}
      ensures LaidOut(mainField, mineSet)
    {
      forall p
        ensures AdjacentMines({}, p) == 0
      {
        assert MinesAround({}, p) == {};
      }
    }

    /** Puts a mine on (x, y) and adds one to every non-mine cell among its 8 neighbours. */
    method PlaceMine(x: int, y: int)
      requires IsGrid(mainField, sizeX, sizeY) && LaidOut(mainField, mineSet)
      requires InBounds(x, y) && (x, y) !in mineSet
      modifies this`mainField, this`mineSet
      ensures IsGrid(mainField, sizeX, sizeY) && LaidOut(mainField, mineSet)
      ensures mineSet == old(mineSet) + {(x, y)}
    {
      ghost var before := mineSet;
      ghost var m := (x, y);
      mainField := Put(mainField, x, y, Mine);
      for k := 0 to 8
        invariant mineSet == before
        invariant IsGrid(mainField, sizeX, sizeY) && mainField[x][y] == Mine
        invariant Bumped(before, m, k)
      {
        Bump((x, y), k, before);
      }
      mineSet := mineSet + {m};
      forall i, j | 0 <= i < sizeX && 0 <= j < sizeY
        ensures Holds(mainField[i][j], mineSet, (i, j))
      {
        if (i, j) !in mineSet {
          BumpDone(before, m, (i, j));
        }
      }
    }

    /** Every cell other than the new mine m holds a mine if it is one of the earlier
        mines, and otherwise its count once the first k neighbours of m are bumped. */
    ghost predicate Bumped(before: set<Pos>, m: Pos, k: int)
      requires IsGrid(mainField, sizeX, sizeY) && 0 <= k <= 8
      reads this`mainField
    {
      forall i, j :: 0 <= i < sizeX && 0 <= j < sizeY && (i, j) != m ==>
        mainField[i][j] == if (i, j) in before then Mine else Count(BumpedCount(before, m, k, (i, j)))
    }

    /** The body of the loop that places a mine: the k-th neighbour of the new mine m,
        if it lies on the field and is not a mine, shows one more mine around it. */
    method Bump(m: Pos, k: int, ghost before: set<Pos>)
      requires IsGrid(mainField, sizeX, sizeY) && 0 <= k < 8 && InBounds(m.0, m.1)
      requires mainField[m.0][m.1] == Mine && Bumped(before, m, k)
      modifies this`mainField
      ensures IsGrid(mainField, sizeX, sizeY) && mainField[m.0][m.1] == Mine && Bumped(before, m, k + 1)
    {
      var nx, ny := m.0 + DX8[k], m.1 + DY8[k];
      assert Shift8(m, k) == (nx, ny);
      if 0 <= nx < sizeX && 0 <= ny < sizeY && mainField[nx][ny] != Mine {
        mainField := Put(mainField, nx, ny, Count(mainField[nx][ny].n + 1));
      }
      forall i, j | 0 <= i < sizeX && 0 <= j < sizeY && (i, j) != m && (i, j) !in before
        ensures mainField[i][j] == Count(BumpedCount(before, m, k + 1, (i, j)))
      {
        BumpStep(before, m, k, (i, j));
      }
    }

    /** The first phase of a new game with the random picks given: one mine per pick. */
    method CreateMines(picks: seq<Pos>)
      requires IsGrid(mainField, sizeX, sizeY) && LaidOut(mainField, mineSet) && mineSet == {}
      requires Distinct(picks)
      requires forall k :: 0 <= k < |picks| ==> InBounds(picks[k].0, picks[k].1)
      modifies this`mainField, this`mineSet
      ensures IsGrid(mainField, sizeX, sizeY) && LaidOut(mainField, mineSet)
      ensures mineSet == set p | p in picks
    {
      for k := 0 to |picks|
        invariant IsGrid(mainField, sizeX, sizeY) && LaidOut(mainField, mineSet)
        invariant mineSet == set p | p in picks[..k]
      {
        assert picks[k] !in picks[..k];
        PlaceMine(picks[k].0, picks[k].1);
        assert picks[..k + 1] == picks[..k] + [picks[k]];
      }
      assert picks[..|picks|] == picks;
    }

    /** Places the mines whose coordinates follow the header of a save; coords holds
        them as pairs. */
    method LoadMines(data: seq<int>, ghost coords: seq<Pos>)
      requires IsGrid(mainField, sizeX, sizeY) && LaidOut(mainField, mineSet) && mineSet == {}
      requires |coords| == mines && Distinct(coords) &&
        forall k :: 0 <= k < mines ==> InBounds(coords[k].0, coords[k].1)
      requires 3 + 2 * mines <= |data| &&
        forall k {:trigger coords[k]} :: 0 <= k < mines ==> coords[k] == (data[3 + 2 * k], data[4 + 2 * k])
      modifies this`mainField, this`mineSet
      ensures IsGrid(mainField, sizeX, sizeY) && LaidOut(mainField, mineSet)
      ensures mineSet == set p | p in coords
    {
      for k := 0 to mines
        invariant IsGrid(mainField, sizeX, sizeY) && LaidOut(mainField, mineSet)
        invariant mineSet == set p | p in coords[..k]
      {
        var x, y := data[3 + 2 * k], data[4 + 2 * k];
        assert coords[k] == (x, y);
        assert coords[k] !in coords[..k];
        PlaceMine(x, y);
        assert coords[..k + 1] == coords[..k] + [coords[k]];
      }
      assert coords[..mines] == coords;
    }

    /** Reads the marks of a save row by row, counting flags and flagged mines; table
        holds the rows of marks, which follow the mines in data. */
    method LoadOpened(data: seq<int>, ghost table: seq<seq<int>>)
      requires Laid()
      requires IsGrid(table, sizeX, sizeY) &&
        forall a, b :: 0 <= a < sizeX && 0 <= b < sizeY ==> 0 <= table[a][b] <= 2
      requires forall i {:trigger table[i]} :: 0 <= i < sizeX ==>
        3 + 2 * mines + i * sizeY + sizeY <= |data| &&
        data[3 + 2 * mines + i * sizeY .. 3 + 2 * mines + i * sizeY + sizeY] == table[i]
      requires IsGrid(marks, sizeX, sizeY) && forall a, b :: 0 <= a < sizeX && 0 <= b < sizeY ==> marks[a][b] == Hidden
      requires totalFlags == 0 && minesLeft == mines
      modifies this`totalFlags, this`minesLeft, this`marks
      ensures Valid() && CountersAgree()
      ensures forall a, b :: 0 <= a < sizeX && 0 <= b < sizeY ==> Code(marks[a][b]) == table[a][b]
    {
      NoFlags(marks, mineSet, mines);
      var cursor := 3 + 2 * mines;
      for i := 0 to sizeX
        invariant cursor == 3 + 2 * mines + i * sizeY
        invariant IsGrid(marks, sizeX, sizeY)
        invariant forall a, b :: 0 <= a < i && 0 <= b < sizeY ==> Code(marks[a][b]) == table[a][b]
        invariant forall a, b :: i <= a < sizeX && 0 <= b < sizeY ==> marks[a][b] == Hidden
        invariant CountersAgree()
      {
        assert data[cursor .. cursor + sizeY] == table[i];
        LoadRow(data[cursor .. cursor + sizeY], i);
        cursor := cursor + sizeY;
        MulStep(i, sizeY);
      }
    }

    /** The next `size_y` lines of a save, read into row i: every flag is counted, as a
        flagged mine too when the cell holds a mine. */
    method LoadRow(row: seq<int>, i: int)
      requires Laid() && IsGrid(marks, sizeX, sizeY) && 0 <= i < sizeX
      requires |row| == sizeY && forall b :: 0 <= b < sizeY ==> 0 <= row[b] <= 2
      requires forall b :: 0 <= b < sizeY ==> marks[i][b] == Hidden
      requires CountersAgree()
      modifies this`totalFlags, this`minesLeft, this`marks
      ensures IsGrid(marks, sizeX, sizeY) && CountersAgree()
      ensures forall b :: 0 <= b < sizeY ==> Code(marks[i][b]) == row[b]
      ensures forall a :: 0 <= a < sizeX && a != i ==> marks[a] == old(marks[a])
    {
      for j := 0 to sizeY
        invariant IsGrid(marks, sizeX, sizeY) && CountersAgree()
        invariant forall b :: 0 <= b < j ==> Code(marks[i][b]) == row[b]
        invariant forall b :: j <= b < sizeY ==> marks[i][b] == Hidden
        invariant forall a :: 0 <= a < sizeX && a != i ==> marks[a] == old(marks[a])
      {
        var m := MarkOf(row[j]);
        MinesAreMineCells(mainField, mineSet, (i, j));
        CountedAfterPut(marks, mineSet, mines, totalFlags, minesLeft, i, j, m);
        marks := Put(marks, i, j, m);
        if m == Flagged {
          totalFlags := totalFlags + 1;
          if mainField[i][j] == Mine {
            minesLeft := minesLeft - 1;
          }
        }
      }
    }

    /** `is_opened`: the stored code is 1, which holds of an opened cell and of no
        flagged or hidden one. */
    function IsOpened(x: int, y: int): (r: bool)
      requires IsGrid(marks, sizeX, sizeY) && InBounds(x, y)
      reads this
      ensures r <==> marks[x][y] == Opened
    {
      Code(marks[x][y]) == 1
    }

    /** `open`: false on a mine, with nothing changed; otherwise the cell is opened (its
        flag, if any, taken off the count) and, if no mine is around it, the flood fill
        opens the rest of its region. The fill may open flagged cells without taking
        their flags off `total_flags`, which is then too high by that many. */
    method Open(x: int, y: int) returns (ok: bool)
      requires Valid() && InBounds(x, y)
      modifies this`totalFlags, this`marks
      ensures Valid()
      ensures ok <==> mainField[x][y] != Mine
      ensures ok ==> IsOpened(x, y)
      ensures !ok ==> totalFlags == old(totalFlags) && marks == old(marks)
      ensures ok ==> totalFlags == old(totalFlags) + FlagGain(old(marks[x][y]), Opened)
      ensures ok ==> forall i, j :: InBounds(i, j) ==>
        marks[i][j] == if (i, j) == (x, y) || (mainField[x][y] == Count(0) && Flood.Opens(mainField, (x, y), (i, j)))
                       then Opened else old(marks[i][j])
      ensures OnlyOpens(old(marks), marks, mainField, sizeX, sizeY)
      ensures old(CountersAgree()) ==>
        Counted(marks, mineSet, mines, totalFlags - OverwrittenFlags(old(marks), marks, (x, y)), minesLeft)
      ensures Drift() == old(Drift()) + OverwrittenFlags(old(marks), marks, (x, y))
      ensures old(MinesLeftAgree()) ==> MinesLeftAgree()
    {
      ghost var m0, t0 := marks, totalFlags;
      if mainField[x][y] == Mine {
        NoneOverwritten(marks, (x, y), |marks|);
        assert OverwrittenFlags(m0, marks, (x, y)) == 0;
        return false;
      }
      if marks[x][y] == Flagged {
        totalFlags := totalFlags - 1;
      }
      Reveal(x, y);
      ok := true;
      OpenedCounters(m0, marks, mainField, sizeX, sizeY, mineSet, mines, t0, totalFlags, minesLeft, (x, y));
    }

    /** The part of `open` past the mine test: the cell is opened and, when no mine is
        around it, the flood fill opens the rest of its region. */
    method Reveal(x: int, y: int)
      requires Valid() && InBounds(x, y) && mainField[x][y] != Mine
      modifies this`marks
      ensures Valid() && marks[x][y] == Opened
      ensures forall i, j :: InBounds(i, j) ==>
        marks[i][j] == if (i, j) == (x, y) || (mainField[x][y] == Count(0) && Flood.Opens(mainField, (x, y), (i, j)))
                       then Opened else old(marks[i][j])
      ensures OnlyOpens(old(marks), marks, mainField, sizeX, sizeY)
    {
      marks := Put(marks, x, y, Opened);
      if mainField[x][y] == Count(0) {
        ghost var steps := Bfs(x, y);
      }
    }

    /** The breadth-first flood fill from (x, y): it goes on from every cell with no
        mine around it that it reaches, and opens every non-mine 4-neighbour of those,
        each cell at most once; it never opens a mine and takes at most one step per cell. */
    method Bfs(x: int, y: int) returns (ghost steps: nat)
      requires IsGrid(mainField, sizeX, sizeY) && IsGrid(marks, sizeX, sizeY) && InBounds(x, y)
      modifies this`marks
      ensures IsGrid(marks, sizeX, sizeY)
      ensures forall i, j :: InBounds(i, j) ==>
        marks[i][j] == if (i, j) != (x, y) && Flood.Opens(mainField, (x, y), (i, j)) then Opened else old(marks[i][j])
      ensures steps <= sizeX * sizeY
    {
      var visited := Put(Filled(sizeX, sizeY, false), x, y, true);
      ghost var seen: set<Pos> := {(x, y)};
      ghost var expanded: set<Pos> := {};
      var queue: seq<Pos> := [(x, y)];
      steps := 0;
      FloodStart(mainField, sizeX, sizeY, (x, y), marks);
      while queue != []
        invariant Flooding(mainField, sizeX, sizeY, (x, y), old(marks), Sweep(visited, queue, seen, marks), expanded, steps)
        decreases sizeX * sizeY - steps
      {
        visited, queue, seen, expanded := Turn((x, y), old(marks), visited, queue, seen, expanded, steps);
        steps := steps + 1;
      }
      FloodDone(mainField, sizeX, sizeY, (x, y), old(marks), Sweep(visited, queue, seen, marks), expanded, steps);
    }

    /** One turn of the outer loop of `bfs` from s over the marks m0: the first cell of
        the queue is taken off and spread from, and the loop's state is kept. */
    method Turn(ghost s: Pos, ghost m0: seq<seq<Mark>>, visited: seq<seq<bool>>, queue: seq<Pos>,
                ghost seen: set<Pos>, ghost expanded: set<Pos>, ghost steps: nat)
      returns (visited': seq<seq<bool>>, queue': seq<Pos>, ghost seen': set<Pos>, ghost expanded': set<Pos>)
      requires queue != [] && Flooding(mainField, sizeX, sizeY, s, m0, Sweep(visited, queue, seen, marks), expanded, steps)
      modifies this`marks
      ensures Flooding(mainField, sizeX, sizeY, s, m0, Sweep(visited', queue', seen', marks), expanded', steps + 1)
    {
      ghost var w := Sweep(visited, queue, seen, marks);
      var cur := queue[0];
      visited', queue', seen' := Spread(cur, visited, queue[1..], seen);
      FloodStep(mainField, sizeX, sizeY, s, m0, w, expanded, steps, w.(queue := queue[1..]), Sweep(visited', queue', seen', marks));
      expanded' := expanded + {cur};
    }

    /** One pass of the inner loop of `bfs`, for the cell cur taken off the queue:
        every 4-neighbour of cur that lies on the field, holds no mine and was not
        visited yet is now visited and opened, and queued when no mine is around it. */
    method Spread(cur: Pos, visited: seq<seq<bool>>, queue: seq<Pos>, ghost seen: set<Pos>)
      returns (visited': seq<seq<bool>>, queue': seq<Pos>, ghost seen': set<Pos>)
      requires Tracked(mainField, sizeX, sizeY, Sweep(visited, queue, seen, marks))
      modifies this`marks
      ensures Tracked(mainField, sizeX, sizeY, Sweep(visited, queue, seen, old(marks)))
      ensures Swept(mainField, sizeX, sizeY, cur,
        Sweep(visited, queue, seen, old(marks)), Sweep(visited', queue', seen', marks))
    {
      ghost var w := Sweep(visited, queue, seen, marks);
      visited', queue', seen' := visited, queue, seen;
      SpreadStart(mainField, sizeX, sizeY, cur, w);
      for k := 0 to 4
        invariant Spreading(mainField, sizeX, sizeY, cur, k, w, Sweep(visited', queue', seen', marks))
      {
        ghost var w1 := Sweep(visited', queue', seen', marks);
        var nx, ny := cur.0 + DX4[k], cur.1 + DY4[k];
        visited', queue', seen' := Visit(nx, ny, visited', queue', seen');
        SpreadStep(mainField, sizeX, sizeY, cur, k, w, w1, Sweep(visited', queue', seen', marks));
      }
      SpreadDone(mainField, sizeX, sizeY, cur, w, Sweep(visited', queue', seen', marks));
    }

    /** The body of the inner loop of `bfs` for the neighbour (nx, ny): a cell on the
        field that holds no mine and was not visited yet is visited and opened, and
        queued when no mine is around it; otherwise nothing changes. */
    method Visit(nx: int, ny: int, visited: seq<seq<bool>>, queue: seq<Pos>, ghost seen: set<Pos>)
      returns (visited': seq<seq<bool>>, queue': seq<Pos>, ghost seen': set<Pos>)
      requires Tracked(mainField, sizeX, sizeY, Sweep(visited, queue, seen, marks))
      modifies this`marks
      ensures Tracked(mainField, sizeX, sizeY, Sweep(visited, queue, seen, old(marks)))
      ensures Visited(mainField, sizeX, sizeY, (nx, ny),
        Sweep(visited, queue, seen, old(marks)), Sweep(visited', queue', seen', marks))
    {
      visited', queue', seen' := visited, queue, seen;
      if 0 <= nx < sizeX && 0 <= ny < sizeY && mainField[nx][ny] != Mine && !visited[nx][ny] {
        visited' := Put(visited, nx, ny, true);
        GridCountPut(visited, false, nx, ny, true, sizeX);
        seen' := seen + {(nx, ny)};
        marks := Put(marks, nx, ny, Opened);
        if mainField[nx][ny] == Count(0) {
          queue' := queue + [(nx, ny)];
        }
      }
    }

    /** `put_flag`: a hidden cell gets a flag, a flagged cell loses it, an opened cell is
        left alone; the counters follow. The result is the win test. */
    method PutFlag(x: int, y: int) returns (won: bool)
      requires Valid() && InBounds(x, y)
      modifies this`totalFlags, this`minesLeft, this`marks
      ensures Valid()
      ensures marks == Put(old(marks), x, y, Toggled(old(marks[x][y])))
      ensures var gain := FlagGain(old(marks[x][y]), marks[x][y]);
        totalFlags == old(totalFlags) + gain &&
        minesLeft == old(minesLeft) - (if mainField[x][y] == Mine then gain else 0)
      ensures won <==> minesLeft == 0 && totalFlags == mines
      ensures old(IsOpened(x, y)) ==> marks == old(marks) && totalFlags == old(totalFlags) && minesLeft == old(minesLeft)
      ensures old(CountersAgree()) ==> CountersAgree() && (won <==> FlagsOf(marks) == mineSet)
      ensures Drift() == old(Drift())
      ensures old(MinesLeftAgree()) ==> MinesLeftAgree() && (Drift() > 0 ==> !won)
    {
      FlagCounters(marks, mainField, mineSet, mines, totalFlags, minesLeft, x, y);
      if marks[x][y] == Flagged {
        marks := Put(marks, x, y, Hidden);
        totalFlags := totalFlags - 1;
        if mainField[x][y] == Mine {
          minesLeft := minesLeft + 1;
        }
      } else if marks[x][y] == Hidden {
        marks := Put(marks, x, y, Flagged);
        totalFlags := totalFlags + 1;
        if mainField[x][y] == Mine {
          minesLeft := minesLeft - 1;
        }
      } else {
        PutSame(marks, x, y);
      }
      won := minesLeft == 0 && totalFlags == mines;
    }

    /** `save`: the sizes, the mine count, the mine coordinates in row-major order and
        every mark code in row-major order. */
    method Save() returns (data: seq<int>)
      requires Valid()
      ensures data == SaveFormat.Encode(Snapshot())
    {
      data := [sizeX as int, sizeY as int, mines as int];
      var coords := SaveMines();
      var codes := SaveMarks();
      data := data + coords + codes;
    }

    /** The coordinate lines `save` writes: row, then column, of every mine, in
        row-major order. */
    method SaveMines() returns (coords: seq<int>)
      requires IsGrid(mainField, sizeX, sizeY)
      ensures coords == SaveFormat.Pairs(SaveFormat.MinesInRows(mainField, sizeX))
    {
      coords := [];
      for i := 0 to sizeX
        invariant coords == SaveFormat.Pairs(SaveFormat.MinesInRows(mainField, i))
      {
        coords := SaveRowMines(i, coords, SaveFormat.MinesInRows(mainField, i));
      }
    }

    /** The coordinate lines of the mines of row i, after those of the rows before. */
    method SaveRowMines(i: int, coords: seq<int>, ghost before: seq<Pos>) returns (coords': seq<int>)
      requires IsGrid(mainField, sizeX, sizeY) && 0 <= i < sizeX
      requires coords == SaveFormat.Pairs(before)
      ensures coords' == SaveFormat.Pairs(before + SaveFormat.MinesInRow(mainField, i, sizeY))
    {
      coords' := coords;
      assert before + SaveFormat.MinesInRow(mainField, i, 0) == before;
      for j := 0 to sizeY
        invariant coords' == SaveFormat.Pairs(before + SaveFormat.MinesInRow(mainField, i, j))
      {
        ghost var done := before + SaveFormat.MinesInRow(mainField, i, j);
        if mainField[i][j] == Mine {
          SaveFormat.PairsSnoc(done, (i, j));
          coords' := coords' + [i, j];
          assert done + [(i, j)] == before + SaveFormat.MinesInRow(mainField, i, j + 1);
        } else {
          assert done == before + SaveFormat.MinesInRow(mainField, i, j + 1);
        }
      }
    }

    /** The mark lines `save` writes: the code of every cell, in row-major order. */
    method SaveMarks() returns (codes: seq<int>)
      requires IsGrid(marks, sizeX, sizeY)
      ensures codes == SaveFormat.Flatten(Codes(marks))
    {
      codes := [];
      ghost var rows := Codes(marks);
      for i := 0 to sizeX
        invariant codes == SaveFormat.Flatten(rows[..i])
      {
        for j := 0 to sizeY
          invariant codes == SaveFormat.Flatten(rows[..i]) + rows[i][..j]
        {
          codes := codes + [Code(marks[i][j])];
          assert rows[i][..j + 1] == rows[i][..j] + [rows[i][j]];
        }
        assert rows[..i + 1][..i] == rows[..i];
        assert rows[i][..sizeY] == rows[i];
      }
      assert rows[..sizeX] == rows;
    }
  }
}
