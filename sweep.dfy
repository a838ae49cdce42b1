/** The state of the flood fill of `open` between two of its steps, as values: the
    `visited` grid, the queue, the cells seen so far and the marks. The loops of
    `bfs` keep the predicates below; the lemmas carry them from one step to the next. */
module Sweeps {
  import opened Board
  import opened Grids
  import Flood

  datatype Sweep = Sweep(visited: seq<seq<bool>>, queue: seq<Pos>, seen: set<Pos>, marks: seq<seq<Mark>>)

  /** All grids have the field's shape and `visited` flags exactly the cells seen. */
  ghost predicate Tracked(g: seq<seq<Cell>>, rows: nat, cols: nat, w: Sweep) {
    IsGrid(g, rows, cols) && IsGrid(w.visited, rows, cols) && IsGrid(w.marks, rows, cols) &&
    forall i, j :: 0 <= i < rows && 0 <= j < cols ==> (w.visited[i][j] <==> (i, j) in w.seen)
  }

  /** How many more cells the fill can still take: those not visited plus those queued. */
  ghost function Budget(rows: nat, w: Sweep): int
    requires |w.visited| == rows
  {
    |w.queue| + GridCount(w.visited, false, rows)
  }

  /** One turn of the inner loop of `bfs` for the neighbour n: a cell on the field that
      holds no mine and was not seen yet is seen, visited and opened, and queued when no
      mine is around it; otherwise nothing changes. */
  ghost predicate Visited(g: seq<seq<Cell>>, rows: nat, cols: nat, n: Pos, w: Sweep, w': Sweep)
    requires Tracked(g, rows, cols, w)
  {
    var isNew := InGridOf(g, n) && !Flood.IsMineAt(g, n) && n !in w.seen;
    Tracked(g, rows, cols, w') &&
    w'.seen == (if isNew then w.seen + {n} else w.seen) &&
    w'.queue == (if isNew && Flood.IsZeroAt(g, n) then w.queue + [n] else w.queue) &&
    w'.marks == (if isNew then Put(w.marks, n.0, n.1, Opened) else w.marks) &&
    Budget(rows, w') <= Budget(rows, w)
  }

  /** What the part of the inner loop run so far has done from w: only mine-free
      4-neighbours of cur were added to the seen cells, the neighbours with index
      below k all are, the queue grew by exactly the added cells with no mine around
      them, the budget did not grow, and exactly the added cells were opened. */
  ghost predicate Spreading(g: seq<seq<Cell>>, rows: nat, cols: nat, cur: Pos, k: int, w: Sweep, w': Sweep)
    requires Tracked(g, rows, cols, w) && 0 <= k <= 4
  {
    Tracked(g, rows, cols, w') &&
    w.seen <= w'.seen &&
    (forall p :: p in w'.seen ==> p in w.seen || (Adjacent4(cur, p) && InGridOf(g, p) && !Flood.IsMineAt(g, p))) &&
    (forall k' :: 0 <= k' < k && InGridOf(g, Shift4(cur, k')) && !Flood.IsMineAt(g, Shift4(cur, k')) ==>
      Shift4(cur, k') in w'.seen) &&
    Grown(g, w, w') &&
    Budget(rows, w') <= Budget(rows, w) &&
    OpenedSeen(rows, cols, w, w')
  }

  /** The queue of w' is that of w followed by the newly seen cells with no mine around them. */
  ghost predicate Grown(g: seq<seq<Cell>>, w: Sweep, w': Sweep) {
    |w.queue| <= |w'.queue| && w'.queue == w.queue + w'.queue[|w.queue|..] &&
    forall p :: p in w'.queue[|w.queue|..] <==> p in w'.seen && p !in w.seen && Flood.IsZeroAt(g, p)
  }

  /** The marks of w' are those of w with the newly seen cells opened. */
  ghost predicate OpenedSeen(rows: nat, cols: nat, w: Sweep, w': Sweep)
    requires IsGrid(w.marks, rows, cols) && IsGrid(w'.marks, rows, cols)
  {
    forall i, j :: 0 <= i < rows && 0 <= j < cols ==>
      w'.marks[i][j] == if (i, j) in w'.seen && (i, j) !in w.seen then Opened else w.marks[i][j]
  }

  /** The whole inner loop for cur, from w to w': the seen cells are now those of w and
      every mine-free 4-neighbour of cur, and the rest as in Spreading. */
  ghost predicate Swept(g: seq<seq<Cell>>, rows: nat, cols: nat, cur: Pos, w: Sweep, w': Sweep)
    requires Tracked(g, rows, cols, w)
  {
    Tracked(g, rows, cols, w') &&
    (forall p :: p in w'.seen <==> p in w.seen || (Adjacent4(cur, p) && InGridOf(g, p) && !Flood.IsMineAt(g, p))) &&
    Grown(g, w, w') &&
    Budget(rows, w') <= Budget(rows, w) &&
    OpenedSeen(rows, cols, w, w')
  }

  lemma SpreadStart(g: seq<seq<Cell>>, rows: nat, cols: nat, cur: Pos, w: Sweep)
    requires Tracked(g, rows, cols, w)
    ensures Spreading(g, rows, cols, cur, 0, w, w)
  {
    assert w.queue[|w.queue|..] == [];
  }

  /** Visiting the neighbour of index k extends the loop's state from k to k + 1. */
  lemma SpreadStep(g: seq<seq<Cell>>, rows: nat, cols: nat, cur: Pos, k: int, w: Sweep, w1: Sweep, w2: Sweep)
    requires 0 <= k < 4 && Tracked(g, rows, cols, w) && Spreading(g, rows, cols, cur, k, w, w1)
    requires Visited(g, rows, cols, Shift4(cur, k), w1, w2)
    ensures Spreading(g, rows, cols, cur, k + 1, w, w2)
  {
    var n := Shift4(cur, k);
    Shift4Exact(cur, n);
    GrownStep(g, n, w, w1, w2);
    OpenedStep(g, rows, cols, n, w, w1, w2);
  }

  lemma GrownStep(g: seq<seq<Cell>>, n: Pos, w: Sweep, w1: Sweep, w2: Sweep)
    requires Grown(g, w, w1) && w.seen <= w1.seen
    requires var isNew := InGridOf(g, n) && !Flood.IsMineAt(g, n) && n !in w1.seen;
      w2.seen == (if isNew then w1.seen + {n} else w1.seen) &&
      w2.queue == (if isNew && Flood.IsZeroAt(g, n) then w1.queue + [n] else w1.queue)
    ensures Grown(g, w, w2)
  {
    var a1, a2 := w1.queue[|w.queue|..], w2.queue[|w.queue|..];
    if w2.queue != w1.queue {
      assert a2 == a1 + [n];
    }
  }

  lemma OpenedStep(g: seq<seq<Cell>>, rows: nat, cols: nat, n: Pos, w: Sweep, w1: Sweep, w2: Sweep)
    requires Tracked(g, rows, cols, w) && Tracked(g, rows, cols, w1) && w.seen <= w1.seen
    requires OpenedSeen(rows, cols, w, w1)
    requires var isNew := InGridOf(g, n) && !Flood.IsMineAt(g, n) && n !in w1.seen;
      w2.seen == (if isNew then w1.seen + {n} else w1.seen) &&
      IsGrid(w2.marks, rows, cols) &&
      w2.marks == (if isNew then Put(w1.marks, n.0, n.1, Opened) else w1.marks)
    ensures OpenedSeen(rows, cols, w, w2)
  {
  }

  /** After the four neighbours, the loop has done all Spread promises. */
  lemma SpreadDone(g: seq<seq<Cell>>, rows: nat, cols: nat, cur: Pos, w: Sweep, w': Sweep)
    requires Tracked(g, rows, cols, w) && Spreading(g, rows, cols, cur, 4, w, w')
    ensures Swept(g, rows, cols, cur, w, w')
  {
    forall p | Adjacent4(cur, p) && InGridOf(g, p) && !Flood.IsMineAt(g, p)
      ensures p in w'.seen
    {
      Shift4Exact(cur, p);
    }
  }

  /** The state of the outer loop of `bfs` started at s over the marks m0: the fill's
      frontier, the marks with exactly the cells seen other than s opened, and the
      steps taken plus the budget left bounded by the number of cells. */
  ghost predicate Flooding(g: seq<seq<Cell>>, rows: nat, cols: nat, s: Pos, m0: seq<seq<Mark>>,
                           w: Sweep, done: set<Pos>, steps: nat)
  {
    Tracked(g, rows, cols, w) && IsGrid(m0, rows, cols) &&
    Flood.Frontier(g, s, w.seen, done, w.queue) &&
    (forall i, j :: 0 <= i < rows && 0 <= j < cols ==>
      w.marks[i][j] == if (i, j) in w.seen && (i, j) != s then Opened else m0[i][j]) &&
    steps + Budget(rows, w) <= rows * cols
  }

  /** The fill starts with only s seen and queued, and its marks as given. */
  lemma FloodStart(g: seq<seq<Cell>>, rows: nat, cols: nat, s: Pos, m0: seq<seq<Mark>>)
    requires IsGrid(g, rows, cols) && IsGrid(m0, rows, cols) && 0 <= s.0 < rows && 0 <= s.1 < cols
    ensures Flooding(g, rows, cols, s, m0, Sweep(Put(Filled(rows, cols, false), s.0, s.1, true), [s], {s}, m0), {}, 0)
  {
    var none := Filled(rows, cols, false);
    GridCountPut(none, false, s.0, s.1, true, rows);
    GridCountBound(none, false, rows, cols, rows);
    Flood.FrontierStart(g, s);
  }

  /** Taking cur off the queue and spreading from it keeps the outer loop's state,
      with cur finished and one more step taken. */
  lemma FloodStep(g: seq<seq<Cell>>, rows: nat, cols: nat, s: Pos, m0: seq<seq<Mark>>,
                  w: Sweep, done: set<Pos>, steps: nat, w1: Sweep, w': Sweep)
    requires Flooding(g, rows, cols, s, m0, w, done, steps) && w.queue != []
    requires w1 == w.(queue := w.queue[1..])
    requires Swept(g, rows, cols, w.queue[0], w1, w')
    ensures Flooding(g, rows, cols, s, m0, w', done + {w.queue[0]}, steps + 1)
  {
    var cur := w.queue[0];
    assert w.queue == [cur] + w1.queue;
    Flood.FrontierStep(g, s, w.seen, done, cur, w1.queue, w'.seen, w'.queue[|w1.queue|..]);
  }

  /** Once the queue is empty, the marks have exactly the cells the fill opens opened. */
  lemma FloodDone(g: seq<seq<Cell>>, rows: nat, cols: nat, s: Pos, m0: seq<seq<Mark>>,
                  w: Sweep, done: set<Pos>, steps: nat)
    requires Flooding(g, rows, cols, s, m0, w, done, steps) && w.queue == []
    ensures forall i, j :: 0 <= i < rows && 0 <= j < cols ==>
      w.marks[i][j] == if (i, j) != s && Flood.Opens(g, s, (i, j)) then Opened else m0[i][j]
    ensures steps <= rows * cols
  {
    Flood.FrontierDone(g, s, w.seen, done);
  }
}
