/** The save file as the sequence of integers it holds, one per line: the number
    of rows, of columns and of mines, the mine coordinates as (row, column) pairs,
    then every cell's mark code row by row. */
module SaveFormat {
  import opened Board

  datatype Option<T> = None | Some(value: T)

  /** The parts of a save, in file order. */
  datatype Image = Image(rows: int, cols: int, mines: int, mineCoords: seq<Pos>, marks: seq<seq<int>>)

  /** The image has the shape its header announces. */
  predicate Shaped(img: Image) {
    img.rows >= 0 && img.cols >= 0 && img.mines >= 0 &&
    |img.mineCoords| == img.mines && |img.marks| == img.rows &&
    forall i :: 0 <= i < |img.marks| ==> |img.marks[i]| == img.cols
  }

  /** The coordinate lines: row, then column, for each mine in turn. */
  function Pairs(ps: seq<Pos>): (r: seq<int>)
    ensures |r| == 2 * |ps|
  {
    if ps == [] then [] else Pairs(ps[..|ps| - 1]) + [ps[|ps| - 1].0, ps[|ps| - 1].1]
  }

  /** One more mine adds its two lines at the end. */
  lemma PairsSnoc(ps: seq<Pos>, p: Pos)
    ensures Pairs(ps + [p]) == Pairs(ps) + [p.0, p.1]
  {
    assert (ps + [p])[..|ps|] == ps;
  }

  /** Rows laid end to end. */
  function Flatten(rows: seq<seq<int>>): seq<int> {
    if rows == [] then [] else Flatten(rows[..|rows| - 1]) + rows[|rows| - 1]
  }

  /** The first `count` rows of `cols` integers each, cut from `flat`. */
  function Chunks(flat: seq<int>, cols: nat, count: nat): (r: seq<seq<int>>)
    requires count * cols <= |flat|
    ensures |r| == count
  {
    if count == 0 then []
    else
      assert (count - 1) * cols + cols == count * cols;
      Chunks(flat, cols, count - 1) + [flat[(count - 1) * cols .. count * cols]]
  }

  /** The coordinate pairs read from the lines that follow the header. */
  function ReadPairs(data: seq<int>, mines: nat): (r: seq<Pos>)
    requires 3 + 2 * mines <= |data|
    ensures |r| == mines
  {
    seq(mines, k requires 0 <= k < mines => (data[3 + 2 * k], data[4 + 2 * k]))
  }

  function Encode(img: Image): seq<int> {
    [img.rows, img.cols, img.mines] + Pairs(img.mineCoords) + Flatten(img.marks)
  }

  /** Reads a save; None where the loader would run out of lines, and for a header
      with a negative size or mine count, which the loader reads without complaint
      but which this model does not describe. Lines after the last cell are ignored,
      as the loader does. */
  function Decode(data: seq<int>): (r: Option<Image>)
    ensures r.Some? ==> Shaped(r.value)
  {
    if |data| < 3 then None
    else
      var rows, cols, mines := data[0], data[1], data[2];
      if rows < 0 || cols < 0 || mines < 0 || |data| < 3 + 2 * mines + rows * cols then None
      else
        var marks := Chunks(data[3 + 2 * mines..], cols, rows);
        ChunksShape(data[3 + 2 * mines..], cols, rows);
        Some(Image(rows, cols, mines, ReadPairs(data, mines), marks))
  }

  /** Size of an encoded image. */
  function EncodedLength(img: Image): int {
    3 + 2 * img.mines + img.rows * img.cols
  }

  lemma {:induction false} ChunksShape(flat: seq<int>, cols: nat, count: nat)
    requires count * cols <= |flat|
    ensures forall i :: 0 <= i < count ==> |Chunks(flat, cols, count)[i]| == cols
  {
    if count > 0 {
      ChunksShape(flat, cols, count - 1);
    }
  }

  lemma {:induction false} PairsAt(ps: seq<Pos>, k: nat)
    requires k < |ps|
    ensures Pairs(ps)[2 * k] == ps[k].0 && Pairs(ps)[2 * k + 1] == ps[k].1
  {
    var init := ps[..|ps| - 1];
    if k < |ps| - 1 {
      PairsAt(init, k);
    }
  }

  lemma {:induction false} FlattenLength(rows: seq<seq<int>>, cols: nat)
    requires forall i :: 0 <= i < |rows| ==> |rows[i]| == cols
    ensures |Flatten(rows)| == |rows| * cols
  {
    if rows != [] {
      FlattenLength(rows[..|rows| - 1], cols);
      assert (|rows| - 1) * cols + cols == |rows| * cols;
    }
  }

  /** Chunks only looks at the first count * cols integers. */
  lemma {:induction false} ChunksPrefix(a: seq<int>, b: seq<int>, cols: nat, count: nat)
    requires count * cols <= |a| && count * cols <= |b|
    requires a[..count * cols] == b[..count * cols]
    ensures Chunks(a, cols, count) == Chunks(b, cols, count)
  {
    if count > 0 {
      assert (count - 1) * cols + cols == count * cols;
      assert a[..(count - 1) * cols] == a[..count * cols][..(count - 1) * cols];
      assert b[..(count - 1) * cols] == b[..count * cols][..(count - 1) * cols];
      ChunksPrefix(a, b, cols, count - 1);
      assert a[(count - 1) * cols .. count * cols] == a[..count * cols][(count - 1) * cols ..];
      assert b[(count - 1) * cols .. count * cols] == b[..count * cols][(count - 1) * cols ..];
    }
  }

  /** Cutting flattened rows back into rows gives the rows. */
  lemma {:induction false} ChunksOfFlatten(rows: seq<seq<int>>, cols: nat)
    requires forall i :: 0 <= i < |rows| ==> |rows[i]| == cols
    ensures |rows| * cols <= |Flatten(rows)|
    ensures Chunks(Flatten(rows), cols, |rows|) == rows
  {
    FlattenLength(rows, cols);
    if rows != [] {
      var n := |rows|;
      var init := rows[..n - 1];
      ChunksOfFlatten(init, cols);
      FlattenLength(init, cols);
      var flat := Flatten(rows);
      assert flat == Flatten(init) + rows[n - 1];
      assert (n - 1) * cols + cols == n * cols;
      assert flat[..(n - 1) * cols] == Flatten(init)[..(n - 1) * cols];
      ChunksPrefix(flat, Flatten(init), cols, n - 1);
      assert flat[(n - 1) * cols .. n * cols] == rows[n - 1];
      assert rows == init + [rows[n - 1]];
    }
  }

  /** Laying the rows cut from flat end to end gives back the start of flat. */
  lemma {:induction false} FlattenOfChunks(flat: seq<int>, cols: nat, count: nat)
    requires count * cols <= |flat|
    ensures Flatten(Chunks(flat, cols, count)) == flat[..count * cols]
  {
    if count > 0 {
      assert (count - 1) * cols + cols == count * cols;
      FlattenOfChunks(flat, cols, count - 1);
      var c := Chunks(flat, cols, count);
      assert c[..count - 1] == Chunks(flat, cols, count - 1);
      assert flat[..count * cols] == flat[..(count - 1) * cols] + flat[(count - 1) * cols .. count * cols];
    }
  }

  /** The coordinate lines read back as the pairs written. */
  lemma {:induction false} ReadPairsOfPairs(prefix: seq<int>, ps: seq<Pos>, rest: seq<int>)
    requires |prefix| == 3
    ensures ReadPairs(prefix + Pairs(ps) + rest, |ps|) == ps
  {
    var data := prefix + Pairs(ps) + rest;
    forall k | 0 <= k < |ps|
      ensures ReadPairs(data, |ps|)[k] == ps[k]
    {
      PairsAt(ps, k);
    }
  }

  /** Writing the pairs read from data gives back the coordinate lines of data. */
  lemma {:induction false} PairsOfReadPairs(data: seq<int>, mines: nat)
    requires 3 + 2 * mines <= |data|
    ensures Pairs(ReadPairs(data, mines)) == data[3 .. 3 + 2 * mines]
  {
    if mines > 0 {
      PairsOfReadPairs(data, mines - 1);
      assert ReadPairs(data, mines)[..mines - 1] == ReadPairs(data, mines - 1);
    }
  }

  /** Reading a save of a well-shaped image gives back that image. */
  lemma DecodeEncode(img: Image)
    requires Shaped(img)
    ensures |Encode(img)| == EncodedLength(img)
    ensures Decode(Encode(img)) == Some(img)
  {
    var data := Encode(img);
    FlattenLength(img.marks, img.cols);
    ReadPairsOfPairs([img.rows, img.cols, img.mines], img.mineCoords, Flatten(img.marks));
    var base := 3 + 2 * img.mines;
    assert data[base..] == Flatten(img.marks);
    ChunksOfFlatten(img.marks, img.cols);
  }

  /** A save that reads successfully is, up to its ignored tail, the encoding of what was read. */
  lemma EncodeDecode(data: seq<int>)
    requires Decode(data).Some?
    ensures EncodedLength(Decode(data).value) <= |data|
    ensures Encode(Decode(data).value) == data[..EncodedLength(Decode(data).value)]
  {
    var img := Decode(data).value;
    var rows, cols, mines := data[0], data[1], data[2];
    var base := 3 + 2 * mines;
    var rest := data[base..];
    assert img == Image(rows, cols, mines, ReadPairs(data, mines), Chunks(rest, cols, rows));
    PairsOfReadPairs(data, mines);
    FlattenOfChunks(rest, cols, rows);
    EncodedSplit(data, mines, rows * cols);
  }

  /** A save's first lines split into the header, the coordinate lines and the marks. */
  lemma EncodedSplit(data: seq<int>, mines: nat, cells: nat)
    requires |data| >= 3 && 3 + 2 * mines + cells <= |data|
    ensures data[..3 + 2 * mines + cells] ==
      [data[0], data[1], data[2]] + data[3 .. 3 + 2 * mines] + data[3 + 2 * mines..][..cells]
  {
  }

  /** The saved coordinates pass the loader's assumptions: distinct mines on the field,
      and every mark code 0, 1 or 2. */
  predicate Loadable(img: Image) {
    Shaped(img) && Distinct(img.mineCoords) &&
    (forall k :: 0 <= k < |img.mineCoords| ==>
       0 <= img.mineCoords[k].0 < img.rows && 0 <= img.mineCoords[k].1 < img.cols) &&
    (forall i, j :: 0 <= i < |img.marks| && 0 <= j < |img.marks[i]| ==> 0 <= img.marks[i][j] <= 2)
  }

  /** The mines of row i in columns before j, left to right, as save finds them. */
  function MinesInRow(g: seq<seq<Cell>>, i: nat, j: nat): seq<Pos>
    requires i < |g| && j <= |g[i]|
  {
    if j == 0 then []
    else MinesInRow(g, i, j - 1) + (if g[i][j - 1] == Mine then [(i, j - 1)] else [])
  }

  /** The mines of the rows before i in row-major order, as save writes them. */
  function MinesInRows(g: seq<seq<Cell>>, i: nat): seq<Pos>
    requires i <= |g|
  {
    if i == 0 then [] else MinesInRows(g, i - 1) + MinesInRow(g, i - 1, |g[i - 1]|)
  }

  lemma {:induction false} MinesInRowSpec(g: seq<seq<Cell>>, i: nat, j: nat)
    requires i < |g| && j <= |g[i]|
    ensures forall p :: p in MinesInRow(g, i, j) <==> p.0 == i && 0 <= p.1 < j && g[i][p.1] == Mine
    ensures Distinct(MinesInRow(g, i, j))
  {
    if j > 0 {
      MinesInRowSpec(g, i, j - 1);
    }
  }

  /** The row-major mine list holds every mine of the rows before i, each once. */
  lemma {:induction false} MinesInRowsSpec(g: seq<seq<Cell>>, i: nat)
    requires i <= |g|
    ensures forall p :: p in MinesInRows(g, i) <==>
      0 <= p.0 < i && 0 <= p.1 < |g[p.0]| && g[p.0][p.1] == Mine
    ensures Distinct(MinesInRows(g, i))
  {
    if i > 0 {
      MinesInRowsSpec(g, i - 1);
      MinesInRowSpec(g, i - 1, |g[i - 1]|);
      var a, b := MinesInRows(g, i - 1), MinesInRow(g, i - 1, |g[i - 1]|);
      forall x, y | 0 <= x < y < |a + b|
        ensures (a + b)[x] != (a + b)[y]
      {
        if y >= |a| && x < |a| {
          assert (a + b)[x] in a && (a + b)[y] in b;
        }
      }
    }
  }

  /** Row i of the cut rows is the i-th run of cols integers of flat. */
  lemma {:induction false} ChunkRow(flat: seq<int>, cols: nat, count: nat, i: nat)
    requires count * cols <= |flat| && i < count
    ensures i * cols + cols <= count * cols
    ensures Chunks(flat, cols, count)[i] == flat[i * cols .. i * cols + cols]
  {
    assert (count - 1) * cols + cols == count * cols;
    if i < count - 1 {
      ChunkRow(flat, cols, count - 1, i);
    }
  }

  /** Row i of the marks of a save whose mark lines start at base. */
  lemma MarksRowAt(data: seq<int>, base: nat, cols: nat, count: nat, i: nat)
    requires base <= |data| && count * cols <= |data| - base && i < count
    ensures base + i * cols + cols <= |data|
    ensures Chunks(data[base..], cols, count)[i] == data[base + i * cols .. base + i * cols + cols]
  {
    var off := i * cols;
    ChunkRow(data[base..], cols, count, i);
    assert data[base..][off .. off + cols] == data[base + off .. base + off + cols];
  }

  /** The rows of marks a decoded save holds lie one after another after its mines. */
  lemma MarkRows(data: seq<int>)
    requires Decode(data).Some?
    ensures var img := Decode(data).value;
      var base := 3 + 2 * img.mines;
      forall i :: 0 <= i < img.rows ==>
        base + i * img.cols + img.cols <= |data| &&
        data[base + i * img.cols .. base + i * img.cols + img.cols] == img.marks[i]
  {
    var img := Decode(data).value;
    var base := 3 + 2 * img.mines;
    forall i | 0 <= i < img.rows
      ensures base + i * img.cols + img.cols <= |data|
      ensures data[base + i * img.cols .. base + i * img.cols + img.cols] == img.marks[i]
    {
      MarksRowAt(data, base, img.cols, img.rows, i);
    }
  }
}
