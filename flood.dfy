/** Which cells the breadth-first flood fill of `open` reveals, stated over the
    contents of the main field given row by row. */
module Flood {
  import opened Board
  import opened Grids

  predicate IsMineAt(g: seq<seq<Cell>>, p: Pos) {
    InGridOf(g, p) && g[p.0][p.1] == Mine
  }

  /** p lies on the field and has no mine around it. */
  predicate IsZeroAt(g: seq<seq<Cell>>, p: Pos) {
    InGridOf(g, p) && g[p.0][p.1] == Count(0)
  }

  /** A walk of 4-steps whose every cell after the first has no mine around it. */
  ghost predicate ZeroWalk(g: seq<seq<Cell>>, path: seq<Pos>) {
    |path| > 0 &&
    (forall k :: 0 < k < |path| ==> IsZeroAt(g, path[k])) &&
    (forall k :: 0 < k < |path| ==> Adjacent4(path[k - 1], path[k]))
  }

  /** The flood fill started at s goes on from e. */
  ghost predicate Reaches(g: seq<seq<Cell>>, s: Pos, e: Pos) {
    exists path :: ZeroWalk(g, path) && path[0] == s && path[|path| - 1] == e
  }

  /** The flood fill started at s opens c: a non-mine cell beside a cell it goes on from. */
  ghost predicate Opens(g: seq<seq<Cell>>, s: Pos, c: Pos) {
    InGridOf(g, c) && !IsMineAt(g, c) && exists e :: Reaches(g, s, e) && Adjacent4(e, c)
  }

  lemma ReachesStart(g: seq<seq<Cell>>, s: Pos)
    ensures Reaches(g, s, s)
  {
    assert ZeroWalk(g, [s]);
  }

  /** A mine-free neighbour n of a cell the fill goes on from is gone on from too. */
  lemma ReachesStep(g: seq<seq<Cell>>, s: Pos, e: Pos, n: Pos)
    requires Reaches(g, s, e) && Adjacent4(e, n) && IsZeroAt(g, n)
    ensures Reaches(g, s, n)
  {
    var path :| ZeroWalk(g, path) && path[0] == s && path[|path| - 1] == e;
    var longer := path + [n];
    assert ZeroWalk(g, longer);
  }

  /** A mine-free cell beside a cell the fill goes on from is opened. */
  lemma OpensStep(g: seq<seq<Cell>>, s: Pos, e: Pos, c: Pos)
    requires Reaches(g, s, e) && Adjacent4(e, c) && InGridOf(g, c) && !IsMineAt(g, c)
    ensures Opens(g, s, c)
  {
  }

  /** The state of the breadth-first fill from s between two turns of its loop: the
      cells seen so far, those already taken off the queue, and the queue. Everything
      seen is opened by the fill (or is s), every queued or finished cell is gone on
      from, every seen cell the fill goes on from is queued or finished, and a
      finished cell's mine-free 4-neighbours are all seen. */
  ghost predicate Frontier(g: seq<seq<Cell>>, s: Pos, seen: set<Pos>, done: set<Pos>, queue: seq<Pos>) {
    s in seen &&
    (forall p :: p in queue ==> p in seen && Reaches(g, s, p)) &&
    (forall p :: p in done ==> p in seen && Reaches(g, s, p)) &&
    (forall p :: p in seen && p != s ==> Opens(g, s, p)) &&
    (forall p :: p in seen && (p == s || IsZeroAt(g, p)) ==> p in done || p in queue) &&
    (forall e, n :: e in done && Adjacent4(e, n) && InGridOf(g, n) && !IsMineAt(g, n) ==> n in seen)
  }

  /** The fill starts with s seen and queued. */
  lemma FrontierStart(g: seq<seq<Cell>>, s: Pos)
    ensures Frontier(g, s, {s}, {}, [s])
  {
    ReachesStart(g, s);
  }

  /** One turn of the loop keeps the state: cur comes off the queue and is finished,
      its mine-free 4-neighbours are seen, and the newly seen ones with no mine
      around them are queued. */
  lemma FrontierStep(g: seq<seq<Cell>>, s: Pos, seen: set<Pos>, done: set<Pos>, cur: Pos, queue: seq<Pos>,
                     seen': set<Pos>, news: seq<Pos>)
    requires Frontier(g, s, seen, done, [cur] + queue)
    requires forall p :: p in seen' <==> p in seen || (Adjacent4(cur, p) && InGridOf(g, p) && !IsMineAt(g, p))
    requires forall p :: p in news <==> p in seen' && p !in seen && IsZeroAt(g, p)
    ensures Frontier(g, s, seen', done + {cur}, queue + news)
  {
    var done', queue' := done + {cur}, queue + news;
    assert cur in [cur] + queue;
    forall p | p in seen' && p !in seen
      ensures Opens(g, s, p)
    {
      OpensStep(g, s, cur, p);
    }
    forall p | p in queue'
      ensures p in seen' && Reaches(g, s, p)
    {
      if p in news {
        ReachesStep(g, s, cur, p);
      } else {
        assert p in [cur] + queue;
      }
    }
    forall p | p in seen' && (p == s || IsZeroAt(g, p))
      ensures p in done' || p in queue'
    {
      if p in seen && p != cur && p !in done {
        assert p in [cur] + queue;
      }
    }
  }

  /** Once the queue is empty, the cells seen other than s are exactly those the fill opens. */
  lemma FrontierDone(g: seq<seq<Cell>>, s: Pos, seen: set<Pos>, done: set<Pos>)
    requires Frontier(g, s, seen, done, [])
    ensures forall c :: c != s ==> (c in seen <==> Opens(g, s, c))
  {
    forall a, n | a in done && Adjacent4(a, n) && IsZeroAt(g, n)
      ensures n in done
    {
    }
    forall c | c != s && Opens(g, s, c)
      ensures c in seen
    {
      var e :| Reaches(g, s, e) && Adjacent4(e, c);
      ClosedContainsReached(g, s, done, e);
    }
  }

  /** A set that holds s and is closed under stepping to zero neighbours holds
      every cell of a zero walk from s. */
  lemma {:induction false} WalkInside(g: seq<seq<Cell>>, path: seq<Pos>, w: set<Pos>)
    requires ZeroWalk(g, path) && path[0] in w
    requires forall a, n :: a in w && Adjacent4(a, n) && IsZeroAt(g, n) ==> n in w
    ensures forall k :: 0 <= k < |path| ==> path[k] in w
  {
    if |path| > 1 {
      var init := path[..|path| - 1];
      assert ZeroWalk(g, init);
      WalkInside(g, init, w);
      var last := |path| - 1;
      assert path[last - 1] == init[last - 1];
      assert Adjacent4(path[last - 1], path[last]) && IsZeroAt(g, path[last]);
    }
  }

  /** Every cell the fill goes on from lies in any such closed set. */
  lemma ClosedContainsReached(g: seq<seq<Cell>>, s: Pos, w: set<Pos>, e: Pos)
    requires s in w
    requires forall a, n :: a in w && Adjacent4(a, n) && IsZeroAt(g, n) ==> n in w
    requires Reaches(g, s, e)
    ensures e in w
  {
    var path :| ZeroWalk(g, path) && path[0] == s && path[|path| - 1] == e;
    WalkInside(g, path, w);
  }
}
