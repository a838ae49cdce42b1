/** Cells, player marks, coordinates and the neighbour tables of a minesweeper field. */
module Board {

  /** A cell coordinate (row, column), 0-based; the row is `size_x`'s axis. */
  type Pos = (int, int)

  /** A cell of the main field: a mine, or the number of mines among its 8 neighbours. */
  datatype Cell = Mine | Count(n: int)

  /** What the player has done to a cell; written as 0, 1 and 2 in a save. */
  datatype Mark = Hidden | Opened | Flagged

  /** The integer a mark is saved as. */
  function Code(m: Mark): (c: int)
    ensures 0 <= c <= 2
  {
    match m
    case Hidden => 0
    case Opened => 1
    case Flagged => 2
  }

  /** The mark a saved integer stands for. */
  function MarkOf(c: int): (m: Mark)
    requires 0 <= c <= 2
    ensures Code(m) == c
  {
    if c == 0 then Hidden else if c == 1 then Opened else Flagged
  }

  predicate Distinct<T(==)>(s: seq<T>) {
    forall a, b :: 0 <= a < b < |s| ==> s[a] != s[b]
  }

  // The shift tables of the source: 8 neighbours for counting mines,
  // 4 (up, left, down, right) for the flood fill.
  const DX8: seq<int> := [-1, -1, -1, 0, 1, 1, 1, 0]
  const DY8: seq<int> := [1, 0, -1, -1, -1, 0, 1, 1]
  const DX4: seq<int> := [-1, 0, 1, 0]
  const DY4: seq<int> := [0, -1, 0, 1]

  function Shift8(p: Pos, k: int): Pos
    requires 0 <= k < 8
  {
    (p.0 + DX8[k], p.1 + DY8[k])
  }

  function Shift4(p: Pos, k: int): Pos
    requires 0 <= k < 4
  {
    (p.0 + DX4[k], p.1 + DY4[k])
  }

  /** The cells the first k entries of the 8-entry table lead to from p. */
  function Shifted8(p: Pos, k: int): set<Pos>
    requires 0 <= k <= 8
  {
    set k' | 0 <= k' < k :: Shift8(p, k')
  }

  /** q is one of the 8 cells around p (diagonals included). */
  predicate Adjacent8(p: Pos, q: Pos) {
    p != q && -1 <= q.0 - p.0 <= 1 && -1 <= q.1 - p.1 <= 1
  }

  /** q is directly above, below, left or right of p. */
  predicate Adjacent4(p: Pos, q: Pos) {
    (q.0 == p.0 && (q.1 == p.1 - 1 || q.1 == p.1 + 1)) ||
    (q.1 == p.1 && (q.0 == p.0 - 1 || q.0 == p.0 + 1))
  }

  /** The 8-entry table lists exactly the 8 neighbours, each once. */
  lemma Shift8Exact(p: Pos, q: Pos)
    ensures Adjacent8(p, q) <==> exists k :: 0 <= k < 8 && Shift8(p, k) == q
    ensures forall a, b :: 0 <= a < b < 8 ==> Shift8(p, a) != Shift8(p, b)
  {
    if Adjacent8(p, q) {
      var dx, dy := q.0 - p.0, q.1 - p.1;
      var k := if dx == -1 then 1 - dy
               else if dx == 1 then 5 + dy
               else if dy == -1 then 3 else 7;
      assert Shift8(p, k) == q;
    }
  }

  /** The 4-entry table lists exactly the 4 direct neighbours. */
  lemma Shift4Exact(p: Pos, q: Pos)
    ensures Adjacent4(p, q) <==> exists k :: 0 <= k < 4 && Shift4(p, k) == q
  {
    if Adjacent4(p, q) {
      var k := if q.0 == p.0 - 1 then 0
               else if q.1 == p.1 - 1 then 1
               else if q.0 == p.0 + 1 then 2 else 3;
      assert Shift4(p, k) == q;
    }
  }

  /** The mines among the 8 neighbours of p. */
  function MinesAround(mines: set<Pos>, p: Pos): set<Pos> {
    set q | q in mines && Adjacent8(p, q)
  }

  /** The number a non-mine cell p shows. */
  function AdjacentMines(mines: set<Pos>, p: Pos): nat {
    |MinesAround(mines, p)|
  }

  /** Cell c is what the field shows at p for the given mines. */
  predicate Holds(c: Cell, mines: set<Pos>, p: Pos) {
    c == if p in mines then Mine else Count(AdjacentMines(mines, p))
  }

  /** Placing one more mine m adds one to the count of exactly the cells around m. */
  lemma AddMineCount(mines: set<Pos>, m: Pos, p: Pos)
    requires m !in mines
    ensures AdjacentMines(mines + {m}, p) ==
            AdjacentMines(mines, p) + (if Adjacent8(m, p) then 1 else 0)
  {
    if Adjacent8(m, p) {
      assert MinesAround(mines + {m}, p) == MinesAround(mines, p) + {m};
    } else {
      assert MinesAround(mines + {m}, p) == MinesAround(mines, p);
    }
  }

  /** The count a cell p holds once a new mine m has bumped the cells the first k
      entries of the 8-entry table lead to. */
  function BumpedCount(mines: set<Pos>, m: Pos, k: int, p: Pos): nat
    requires 0 <= k <= 8
  {
    AdjacentMines(mines, p) + (if p in Shifted8(m, k) then 1 else 0)
  }

  /** Entry k of the table bumps its own cell once and no other. */
  lemma BumpStep(mines: set<Pos>, m: Pos, k: int, p: Pos)
    requires 0 <= k < 8
    ensures BumpedCount(mines, m, k + 1, p) ==
            BumpedCount(mines, m, k, p) + (if p == Shift8(m, k) then 1 else 0)
  {
    Shift8Exact(m, p);
    assert Shifted8(m, k + 1) == Shifted8(m, k) + {Shift8(m, k)};
    if p == Shift8(m, k) {
      assert p !in Shifted8(m, k);
    }
  }

  /** Once all 8 entries are done, every cell holds its count with m among the mines. */
  lemma BumpDone(mines: set<Pos>, m: Pos, p: Pos)
    requires m !in mines
    ensures BumpedCount(mines, m, 8, p) == AdjacentMines(mines + {m}, p)
  {
    Shift8Exact(m, p);
    AddMineCount(mines, m, p);
  }

  lemma SubsetSameCard<T>(a: set<T>, b: set<T>)
    requires a <= b && |a| == |b|
    ensures a == b
  {
    assert b == a + (b - a);
    assert |b - a| == 0;
  }

  /** The win test of put_flag, `mines_left == 0 and total_flags == mines`, holds of
      counters that agree with the flags exactly when the flagged cells are the mines. */
  lemma WinIffFlagsAreMines(flags: set<Pos>, mines: set<Pos>, minesLeft: int, totalFlags: int)
    requires minesLeft == |mines| - |flags * mines| && totalFlags == |flags|
    ensures (minesLeft == 0 && totalFlags == |mines|) <==> flags == mines
  {
    if minesLeft == 0 && totalFlags == |mines| {
      SubsetSameCard(flags * mines, mines);
      assert mines <= flags;
      SubsetSameCard(mines, flags);
    }
    if flags == mines {
      assert flags * mines == mines;
    }
  }

  /** One more row of c cells. */
  lemma MulStep(i: int, c: int)
    ensures (i + 1) * c == i * c + c
  {
  }

  /** Two duplicate-free lists with no entry in common make a duplicate-free list. */
  lemma DistinctAppend<T>(s: seq<T>, t: seq<T>)
    requires Distinct(s) && Distinct(t) && forall x :: x in s ==> x !in t
    ensures Distinct(s + t)
  {
    var u := s + t;
    forall a, b | 0 <= a < b < |u|
      ensures u[a] != u[b]
    {
      if a < |s| <= b {
        assert u[a] == s[a] && u[b] == t[b - |s|];
        assert s[a] in s;
      } else if |s| <= a {
        assert u[a] == t[a - |s|] && u[b] == t[b - |s|];
      }
    }
  }

  /** A duplicate-free list of k positions makes a set of k positions. */
  lemma {:induction false} DistinctCard(s: seq<Pos>)
    requires Distinct(s)
    ensures |set p | p in s| == |s|
  {
    if s != [] {
      var init := s[..|s| - 1];
      DistinctCard(init);
      assert (set p | p in s) == (set p | p in init) + {s[|s| - 1]};
      assert s[|s| - 1] !in init;
    }
  }

  /** How much `total_flags` exceeds the true flag count once the flags in f0 - f1,
      other than the one on the opened cell a, were overwritten without a decrement. */
  lemma FlagDrift(f0: set<Pos>, f1: set<Pos>, a: Pos)
    requires f1 <= f0 && a !in f1
    ensures |f0| - (if a in f0 then 1 else 0) == |f1| + |f0 - f1 - {a}|
  {
    assert f0 == f1 + (f0 - f1);
    assert |f0| == |f1| + |f0 - f1|;
    if a in f0 {
      assert f0 - f1 == (f0 - f1 - {a}) + {a};
    } else {
      assert f0 - f1 - {a} == f0 - f1;
    }
  }
}
