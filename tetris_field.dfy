/** The tetris playing field (rust_games/tetris/src/game/field.rs): a grid
    of cells stored row by row, the falling block, and the fit, move,
    rotate, commit and line-clearing steps. */
module TetrisField {
  import opened Common


  /** Colours are only stored and compared here, never inspected. */
  type Color = nat

  datatype Cell = Empty | Filled(color: Color)

  datatype Shape = O | I | J | L | T | S | Z
  {
    /** The `repr(usize)` discriminant, the index into `ROTATIONS`. */
    function Index(): (i: nat)
      ensures i < 7
    {
      match this
      case O => 0
      case I => 1
      case J => 2
      case L => 3
      case T => 4
      case S => 5
      case Z => 6
    }
  }

  datatype Vec2 = Vec2(x: int, y: int)

  function Add(a: Vec2, b: Vec2): Vec2 {
    Vec2(a.x + b.x, a.y + b.y)
  }

  datatype Tetromino = Tetromino(pos: Vec2, shape: Shape, rot: nat, color: Color)

  datatype Rotation = Left | Right

  /** The field's mode; the clearing animation's float progress is not modelled. */
  datatype FieldState = Falling | ClearingLines(from: nat, to: nat)

  /** The four cell offsets of every rotation of every shape, by shape index. */
  const ROTATIONS: seq<seq<seq<Vec2>>> := [
    // O
    [[Vec2(0, 0), Vec2(1, 0), Vec2(0, 1), Vec2(1, 1)]],
    // I
    [[Vec2(0, -1), Vec2(0, 0), Vec2(0, 1), Vec2(0, 2)],
     [Vec2(-1, 0), Vec2(0, 0), Vec2(1, 0), Vec2(2, 0)]],
    // J
    [[Vec2(0, -1), Vec2(0, 0), Vec2(0, 1), Vec2(-1, 1)],
     [Vec2(-1, 0), Vec2(0, 0), Vec2(1, 0), Vec2(1, 1)],
     [Vec2(0, 1), Vec2(0, 0), Vec2(0, -1), Vec2(1, -1)],
     [Vec2(1, 0), Vec2(0, 0), Vec2(-1, 0), Vec2(-1, -1)]],
    // L
    [[Vec2(0, -1), Vec2(0, 0), Vec2(0, 1), Vec2(1, 1)],
     [Vec2(-1, 0), Vec2(0, 0), Vec2(1, 0), Vec2(1, -1)],
     [Vec2(0, 1), Vec2(0, 0), Vec2(0, -1), Vec2(-1, -1)],
     [Vec2(1, 0), Vec2(0, 0), Vec2(-1, 0), Vec2(-1, 1)]],
    // T
    [[Vec2(-1, 0), Vec2(0, 0), Vec2(0, -1), Vec2(0, 1)],
     [Vec2(-1, 0), Vec2(0, 0), Vec2(0, 1), Vec2(1, 0)],
     [Vec2(0, 1), Vec2(0, 0), Vec2(0, -1), Vec2(1, 0)],
     [Vec2(-1, 0), Vec2(0, 0), Vec2(0, -1), Vec2(1, 0)]],
    // S
    [[Vec2(0, -1), Vec2(0, 0), Vec2(1, 0), Vec2(1, 1)],
     [Vec2(1, 0), Vec2(0, 0), Vec2(0, 1), Vec2(-1, 1)]],
    // Z
    [[Vec2(0, -1), Vec2(0, 0), Vec2(-1, 0), Vec2(-1, 1)],
     [Vec2(-1, 0), Vec2(0, 0), Vec2(0, 1), Vec2(1, 1)]]
  ]

  /** Four distinct offsets. */
  predicate IsPiece(offsets: seq<Vec2>) {
    |offsets| == 4 && forall i, j :: 0 <= i < j < 4 ==> offsets[i] != offsets[j]
  }

  /** Every shape has 1, 2 or 4 rotations, and every rotation is a piece of
      four distinct cells. */
  lemma RotationsWellFormed()
    ensures |ROTATIONS| == 7
    ensures forall s :: 0 <= s < 7 ==> |ROTATIONS[s]| in {1, 2, 4}
    ensures forall s, r :: 0 <= s < 7 && 0 <= r < |ROTATIONS[s]| ==> IsPiece(ROTATIONS[s][r])
  {
    forall s, r | 0 <= s < 7 && 0 <= r < |ROTATIONS[s]| ensures IsPiece(ROTATIONS[s][r]) {
      RotationIsPiece(s, r);
    }
  }

  lemma RotationIsPiece(s: nat, r: nat)
    requires s < 7 && r < |ROTATIONS[s]|
    ensures IsPiece(ROTATIONS[s][r])
  {
    var o := ROTATIONS[s][r];
    assert |o| == 4;
    assert o[0] != o[1] && o[0] != o[2] && o[0] != o[3];
    assert o[1] != o[2] && o[1] != o[3] && o[2] != o[3];
  }

  /** `Tetromino::rotation_count`. */
  function RotationCount(shape: Shape): (n: nat)
    ensures n == 1 || n == 2 || n == 4
  {
    RotationsWellFormed();
    |ROTATIONS[shape.Index()]|
  }

  /** A block whose rotation index names one of its shape's rotations
      (`offsets` indexes `ROTATIONS` with it and panics otherwise). */
  predicate ValidBlock(b: Tetromino) {
    b.rot < RotationCount(b.shape)
  }

  /** `Tetromino::offsets`. */
  function Offsets(b: Tetromino): (o: seq<Vec2>)
    requires ValidBlock(b)
    ensures IsPiece(o)
  {
    RotationsWellFormed();
    ROTATIONS[b.shape.Index()][b.rot]
  }

  /** The 64-bit `usize` of the target. */
  const USIZE_MAX: nat := 0xFFFF_FFFF_FFFF_FFFF

  /** The rotation index after a turn, as `rotate_active_block` computes it:
      `rot.wrapping_sub(1) % n` to the left, `(rot + 1) % n` to the right. */
  function Rotated(rot: nat, n: nat, r: Rotation): (k: nat)
    requires rot < n
    ensures k < n
  {
    match r
    case Left => (if rot == 0 then USIZE_MAX else rot - 1) % n
    case Right => (rot + 1) % n
  }

  /** For the rotation counts that occur, turning left from 0 wraps round to
      the last rotation, and left and right undo each other. */
  lemma RotatedLeftFromZero(n: nat)
    requires n == 1 || n == 2 || n == 4
    ensures Rotated(0, n, Left) == n - 1
  {
  }

  lemma RotatedInverse(rot: nat, n: nat)
    requires rot < n && (n == 1 || n == 2 || n == 4)
    ensures Rotated(Rotated(rot, n, Right), n, Left) == rot
    ensures Rotated(Rotated(rot, n, Left), n, Right) == rot
  {
    if rot + 1 == n {
      assert Rotated(rot, n, Right) == 0;
      RotatedLeftFromZero(n);
    }
    if rot == 0 {
      RotatedLeftFromZero(n);
    }
  }

  // ---------------------------------------------------------------------
  // Rows of a row-major grid, as `chunks` splits it.

  lemma MulStep(a: nat, w: nat)
    ensures (a + 1) * w == a * w + w
  {
  }

  lemma MulMonotone(a: nat, b: nat, w: nat)
    requires a <= b
    ensures a * w <= b * w
  {
  }

  lemma CellIndexBound(x: nat, y: nat, w: nat, h: nat)
    ensures x < w && y < h ==> y * w + x < h * w
  {
    if x < w && y < h {
      MulMonotone(y + 1, h, w);
      MulStep(y, w);
    }
  }

  /** Column `x` < `w` of row `y` and column `x'` < `w` of row `y'` share a
      row-major index only when they are the same cell. */
  lemma CellIndexInjective(x: nat, y: nat, x': nat, y': nat, w: nat)
    requires x < w && x' < w && y * w + x == y' * w + x'
    ensures x == x' && y == y'
  {
    if y < y' {
      MulMonotone(y + 1, y', w);
      MulStep(y, w);
    } else if y' < y {
      MulMonotone(y' + 1, y, w);
      MulStep(y', w);
    }
  }

  /** `chunks(w)`: consecutive pieces of `w` cells, the last one shorter
      when `w` does not divide the length; `chunks` panics for `w == 0`. */
  function Chunks(c: seq<Cell>, w: nat): (rows: seq<seq<Cell>>)
    requires w > 0
    decreases |c|
  {
    if |c| == 0 then [] else if |c| <= w then [c] else [c[..w]] + Chunks(c[w..], w)
  }

  function Flatten(rows: seq<seq<Cell>>): seq<Cell> {
    if |rows| == 0 then [] else rows[0] + Flatten(rows[1..])
  }

  lemma {:induction false} FlattenAppend(a: seq<seq<Cell>>, b: seq<seq<Cell>>)
    ensures Flatten(a + b) == Flatten(a) + Flatten(b)
    decreases |a|
  {
    if |a| > 0 {
      assert (a + b)[0] == a[0];
      assert (a + b)[1..] == a[1..] + b;
      FlattenAppend(a[1..], b);
      assert Flatten(a + b) == a[0] + (Flatten(a[1..]) + Flatten(b));
    } else {
      assert a + b == b;
    }
  }

  lemma FlattenSplit(rows: seq<seq<Cell>>, k: nat)
    requires k <= |rows|
    ensures Flatten(rows) == Flatten(rows[..k]) + Flatten(rows[k..])
  {
    assert rows == rows[..k] + rows[k..];
    FlattenAppend(rows[..k], rows[k..]);
  }

  /** Rows of `w` cells each flatten to `|rows| * w` cells. */
  lemma {:induction false} FlattenUniform(rows: seq<seq<Cell>>, w: nat)
    requires forall k :: 0 <= k < |rows| ==> |rows[k]| == w
    ensures |Flatten(rows)| == |rows| * w
    decreases |rows|
  {
    if |rows| > 0 {
      FlattenUniform(rows[1..], w);
      MulStep(|rows| - 1, w);
    }
  }

  /** Splitting into chunks loses and reorders nothing. */
  lemma {:induction false} ChunksFlatten(c: seq<Cell>, w: nat)
    requires w > 0
    ensures Flatten(Chunks(c, w)) == c
    decreases |c|
  {
    if |c| > w {
      ChunksFlatten(c[w..], w);
      assert Chunks(c, w)[1..] == Chunks(c[w..], w);
      assert c == c[..w] + c[w..];
    } else if |c| > 0 {
      assert Chunks(c, w)[1..] == [];
    }
  }

  /** A grid of `h` rows of `w` cells splits into exactly its `h` rows. */
  lemma {:induction false} ChunksOfGrid(c: seq<Cell>, w: nat, h: nat)
    requires w > 0 && |c| == h * w
    ensures |Chunks(c, w)| == h
    ensures forall k :: 0 <= k < h ==> |Chunks(c, w)[k]| == w
    decreases h
  {
    if h > 0 {
      MulStep(h - 1, w);
      if h > 1 {
        MulMonotone(1, h - 1, w);
        ChunksOfGrid(c[w..], w, h - 1);
        assert Chunks(c, w)[1..] == Chunks(c[w..], w);
      }
    }
  }

  /** Every cell of the row is Filled. */
  predicate Full(row: seq<Cell>) {
    forall j :: 0 <= j < |row| ==> row[j].Filled?
  }

  /** The numbers, counting the first row as `a`, of the full rows, in
      order (the `filter` and `map` over `chunks` in `check_lines`). */
  function FullRows(rows: seq<seq<Cell>>, a: nat): seq<nat>
    decreases |rows|
  {
    if |rows| == 0 then [] else (if Full(rows[0]) then [a] else []) + FullRows(rows[1..], a + 1)
  }

  /** Every number `FullRows` lists is that of a full row of the range. */
  lemma {:induction false} FullRowsSound(rows: seq<seq<Cell>>, a: nat)
    ensures forall k :: 0 <= k < |FullRows(rows, a)| ==>
      a <= FullRows(rows, a)[k] < a + |rows| && Full(rows[FullRows(rows, a)[k] - a])
    decreases |rows|
  {
    if |rows| > 0 {
      FullRowsSound(rows[1..], a + 1);
      var head := if Full(rows[0]) then [a] else [];
      var rest := FullRows(rows[1..], a + 1);
      forall k | 0 <= k < |FullRows(rows, a)|
        ensures a <= FullRows(rows, a)[k] < a + |rows| && Full(rows[FullRows(rows, a)[k] - a])
      {
        if k >= |head| {
          assert FullRows(rows, a)[k] == rest[k - |head|];
          assert rows[1..][rest[k - |head|] - (a + 1)] == rows[rest[k - |head|] - a];
        }
      }
    }
  }

  /** Every full row of the range is listed. */
  lemma {:induction false} FullRowsComplete(rows: seq<seq<Cell>>, a: nat)
    ensures forall r :: 0 <= r < |rows| && Full(rows[r]) ==> a + r in FullRows(rows, a)
    decreases |rows|
  {
    if |rows| > 0 {
      FullRowsComplete(rows[1..], a + 1);
      forall r | 0 <= r < |rows| && Full(rows[r]) ensures a + r in FullRows(rows, a) {
        if r > 0 {
          assert rows[1..][r - 1] == rows[r];
          assert a + 1 + (r - 1) in FullRows(rows[1..], a + 1);
        }
      }
    }
  }

  /** The numbers are listed in increasing order, so each at most once. */
  lemma {:induction false} FullRowsIncreasing(rows: seq<seq<Cell>>, a: nat)
    ensures forall k, l :: 0 <= k < l < |FullRows(rows, a)| ==> FullRows(rows, a)[k] < FullRows(rows, a)[l]
    decreases |rows|
  {
    if |rows| > 0 {
      FullRowsIncreasing(rows[1..], a + 1);
      FullRowsSound(rows[1..], a + 1);
    }
  }

  /** The number of Filled cells. */
  function CountFilled(s: seq<Cell>): (n: nat)
    ensures n <= |s|
  {
    if |s| == 0 then 0 else (if s[0].Filled? then 1 else 0) + CountFilled(s[1..])
  }

  lemma {:induction false} CountFilledAppend(a: seq<Cell>, b: seq<Cell>)
    ensures CountFilled(a + b) == CountFilled(a) + CountFilled(b)
    decreases |a|
  {
    if |a| > 0 {
      assert (a + b)[0] == a[0];
      assert (a + b)[1..] == a[1..] + b;
      CountFilledAppend(a[1..], b);
    } else {
      assert a + b == b;
    }
  }

  lemma {:induction false} CountFilledFull(s: seq<Cell>)
    requires Full(s)
    ensures CountFilled(s) == |s|
    decreases |s|
  {
    if |s| > 0 {
      CountFilledFull(s[1..]);
    }
  }

  function Empties(n: nat): (s: seq<Cell>)
    ensures |s| == n && forall j :: 0 <= j < n ==> s[j] == Empty
  {
    seq(n, _ => Empty)
  }

  lemma {:induction false} CountFilledEmpties(n: nat)
    ensures CountFilled(Empties(n)) == 0
    decreases n
  {
    if n > 0 {
      assert Empties(n)[1..] == Empties(n - 1);
      CountFilledEmpties(n - 1);
    }
  }

  /** `clear_lines` as written, for the cell range `from_index` to
      `to_index`: the range is removed, the cells before it move down by its
      length, and as many Empty cells fill the top. */
  function ClearedCells(c: seq<Cell>, fromIndex: nat, toIndex: nat): (r: seq<Cell>)
    requires fromIndex <= toIndex <= |c|
    ensures |r| == |c|
  {
    var offset := toIndex - fromIndex;
    seq(|c|, j requires 0 <= j < |c| =>
      if j < offset then Empty else if j < toIndex then c[j - offset] else c[j])
  }

  /** What `clear_lines` leaves, block by block: Empty cells, the cells
      before the range, then the cells after it. */
  lemma ClearedCellsShape(c: seq<Cell>, fromIndex: nat, toIndex: nat)
    requires fromIndex <= toIndex <= |c|
    ensures ClearedCells(c, fromIndex, toIndex)
      == Empties(toIndex - fromIndex) + c[..fromIndex] + c[toIndex..]
  {
    var r := ClearedCells(c, fromIndex, toIndex);
    var offset := toIndex - fromIndex;
    var e := Empties(offset) + c[..fromIndex] + c[toIndex..];
    assert |e| == |r|;
    forall j | 0 <= j < |r| ensures r[j] == e[j] {
      if offset <= j < toIndex {
        assert e[j] == c[..fromIndex][j - offset];
      } else if j >= toIndex {
        assert e[j] == c[toIndex..][j - toIndex];
      }
    }
  }

  /** The rows that are not full, joined in order. */
  function Kept(rows: seq<seq<Cell>>): (k: seq<Cell>)
    ensures |k| <= |Flatten(rows)|
    decreases |rows|
  {
    if |rows| == 0 then [] else (if Full(rows[0]) then [] else rows[0]) + Kept(rows[1..])
  }

  lemma {:induction false} KeptAppend(a: seq<seq<Cell>>, b: seq<seq<Cell>>)
    ensures Kept(a + b) == Kept(a) + Kept(b)
    decreases |a|
  {
    if |a| > 0 {
      var h := if Full(a[0]) then [] else a[0];
      var ab := a + b;
      assert ab[0] == a[0] && ab[1..] == a[1..] + b;
      assert Kept(ab) == h + Kept(a[1..] + b);
      KeptAppend(a[1..], b);
      assert Kept(a) == h + Kept(a[1..]);
    } else {
      assert a + b == b;
    }
  }

  /** No row is full. */
  predicate NoneFull(rows: seq<seq<Cell>>) {
    forall k :: 0 <= k < |rows| ==> !Full(rows[k])
  }

  /** Every row is full. */
  predicate AllFull(rows: seq<seq<Cell>>) {
    forall k :: 0 <= k < |rows| ==> Full(rows[k])
  }

  /** Exactly the rows `from` to `to` are full. */
  predicate FullExactly(rows: seq<seq<Cell>>, from: nat, to: nat) {
    forall r :: 0 <= r < |rows| ==> (Full(rows[r]) <==> from <= r <= to)
  }

  lemma FullExactlySlices(rows: seq<seq<Cell>>, from: nat, to: nat)
    requires from <= to < |rows| && FullExactly(rows, from, to)
    ensures NoneFull(rows[..from]) && AllFull(rows[from..to + 1]) && NoneFull(rows[to + 1..])
  {
    var range, after := rows[from..to + 1], rows[to + 1..];
    forall k | 0 <= k < |range| ensures Full(range[k]) {
      assert range[k] == rows[from + k];
    }
    forall k | 0 <= k < |after| ensures !Full(after[k]) {
      assert after[k] == rows[to + 1 + k];
    }
  }

  lemma {:induction false} KeptNoneFull(rows: seq<seq<Cell>>)
    requires NoneFull(rows)
    ensures Kept(rows) == Flatten(rows)
    decreases |rows|
  {
    if |rows| > 0 {
      assert NoneFull(rows[1..]) by {
        assert forall k :: 0 <= k < |rows| - 1 ==> rows[1..][k] == rows[k + 1];
      }
      KeptNoneFull(rows[1..]);
    }
  }

  /** Rows that are all full leave nothing behind. */
  lemma {:induction false} KeptAllFull(rows: seq<seq<Cell>>)
    requires AllFull(rows)
    ensures Kept(rows) == []
    decreases |rows|
  {
    if |rows| > 0 {
      assert AllFull(rows[1..]) by {
        assert forall k :: 0 <= k < |rows| - 1 ==> rows[1..][k] == rows[k + 1];
      }
      KeptAllFull(rows[1..]);
    }
  }

  /** Line clearing as the game intends it: exactly the full rows
      disappear, the other rows keep their order, and Empty cells come in
      at the top. */
  function ClearFullRows(c: seq<Cell>, w: nat): (r: seq<Cell>)
    requires w > 0
    ensures |r| == |c|
  {
    var k := Kept(Chunks(c, w));
    ChunksFlatten(c, w);
    Empties(|c| - |k|) + k
  }

  /** The kept rows carry every Filled cell except the `w` of each full row. */
  lemma {:induction false} KeptCount(rows: seq<seq<Cell>>, w: nat, a: nat)
    requires forall k :: 0 <= k < |rows| ==> |rows[k]| == w
    ensures CountFilled(Kept(rows)) + |FullRows(rows, a)| * w == CountFilled(Flatten(rows))
    decreases |rows|
  {
    if |rows| > 0 {
      KeptCount(rows[1..], w, a + 1);
      CountFilledAppend(rows[0], Flatten(rows[1..]));
      if Full(rows[0]) {
        CountFilledFull(rows[0]);
        assert Kept(rows) == Kept(rows[1..]);
        assert |FullRows(rows, a)| == |FullRows(rows[1..], a + 1)| + 1;
        MulStep(|FullRows(rows[1..], a + 1)|, w);
      } else {
        assert FullRows(rows, a) == FullRows(rows[1..], a + 1);
        CountFilledAppend(rows[0], Kept(rows[1..]));
      }
    }
  }

  /** Clearing the full rows of an `h` by `w` grid removes exactly their
      cells: `w` Filled cells per full row and no other Filled cell. */
  lemma ClearFullRowsCount(c: seq<Cell>, w: nat, h: nat)
    requires w > 0 && |c| == h * w
    ensures CountFilled(ClearFullRows(c, w)) + |FullRows(Chunks(c, w), 0)| * w == CountFilled(c)
  {
    var rows := Chunks(c, w);
    ChunksOfGrid(c, w, h);
    ChunksFlatten(c, w);
    KeptCount(rows, w, 0);
    var k := Kept(rows);
    CountFilledAppend(Empties(|c| - |k|), k);
    CountFilledEmpties(|c| - |k|);
  }

  /** The cells of rows `from` to `to` of a grid, as the indices
      `clear_lines` computes for them. */
  lemma RowRange(rows: seq<seq<Cell>>, w: nat, from: nat, to: nat)
    requires forall k :: 0 <= k < |rows| ==> |rows[k]| == w
    requires from <= to < |rows|
    ensures |Flatten(rows[..from])| == from * w
    ensures |Flatten(rows[..from])| + |Flatten(rows[from..to + 1])| == (to + 1) * w
    ensures Flatten(rows) == Flatten(rows[..from]) + Flatten(rows[from..to + 1]) + Flatten(rows[to + 1..])
  {
    FlattenUniform(rows[..from], w);
    FlattenUniform(rows[..to + 1], w);
    FlattenSplit(rows, to + 1);
    FlattenSplit(rows[..to + 1], from);
    assert rows[..to + 1][..from] == rows[..from];
    assert rows[..to + 1][from..] == rows[from..to + 1];
  }

  /** When the full rows are exactly rows `from` to `to`, the rows kept are
      those before and those after them. */
  lemma KeptContiguous(rows: seq<seq<Cell>>, from: nat, to: nat)
    requires from <= to < |rows| && FullExactly(rows, from, to)
    ensures Kept(rows) == Flatten(rows[..from]) + Flatten(rows[to + 1..])
  {
    SplitThree(rows, from, to + 1);
    FullExactlySlices(rows, from, to);
    KeptThree(rows[..from], rows[from..to + 1], rows[to + 1..]);
  }

  lemma SplitThree<T>(s: seq<T>, i: nat, j: nat)
    requires i <= j <= |s|
    ensures s == s[..i] + s[i..j] + s[j..]
  {
  }

  lemma KeptThree(before: seq<seq<Cell>>, range: seq<seq<Cell>>, after: seq<seq<Cell>>)
    requires NoneFull(before) && AllFull(range) && NoneFull(after)
    ensures Kept(before + range + after) == Flatten(before) + Flatten(after)
  {
    KeptAppend(before + range, after);
    KeptAppend(before, range);
    KeptNoneFull(before);
    KeptAllFull(range);
    KeptNoneFull(after);
  }

  /** When the full rows are exactly `from` to `to`, the source's clearing
      is the intended one. */
  lemma ClearedWhenContiguous(c: seq<Cell>, w: nat, h: nat, from: nat, to: nat)
    requires w > 0 && |c| == h * w && from <= to < h && FullExactly(Chunks(c, w), from, to)
    ensures (MulMonotone(to + 1, h, w); MulMonotone(from, to + 1, w);
      ClearedCells(c, from * w, (to + 1) * w) == ClearFullRows(c, w))
  {
    MulMonotone(to + 1, h, w);
    MulMonotone(from, to + 1, w);
    var rows := Chunks(c, w);
    ChunksOfGrid(c, w, h);
    ChunksFlatten(c, w);
    RowRange(rows, w, from, to);
    KeptContiguous(rows, from, to);
    var b, m, a := Flatten(rows[..from]), Flatten(rows[from..to + 1]), Flatten(rows[to + 1..]);
    assert c == b + m + a;
    assert ClearFullRows(c, w) == Empties(|m|) + (b + a);
    ClearedOfThree(c, b, m, a, from * w, (to + 1) * w);
  }

  /** Clearing the middle block of `before + range + after`. */
  lemma ClearedOfThree(c: seq<Cell>, before: seq<Cell>, range: seq<Cell>, after: seq<Cell>, fromIndex: nat, toIndex: nat)
    requires c == before + range + after && fromIndex == |before| && toIndex == |before| + |range|
    ensures ClearedCells(c, fromIndex, toIndex) == Empties(|range|) + (before + after)
  {
    ClearedCellsShape(c, |before|, |before| + |range|);
    assert c[..|before|] == before;
    assert c[|before| + |range|..] == after;
  }

  // ---------------------------------------------------------------------
  // The field.

  class PlayingField {
    const width: nat
    const height: nat
    const cells: array<Cell>
    var activeBlock: Option<Tetromino>
    var state: FieldState

    ghost predicate Valid()
      reads this
    {
      && cells.Length == height * width
      && (activeBlock.Some? ==> ValidBlock(activeBlock.value))
    }

    /** `PlayingField::new`: every cell Empty, no block, Falling. */
    constructor (width: nat, height: nat)
      ensures Valid() && this.width == width && this.height == height && fresh(cells)
      ensures cells[..] == Empties(height * width)
      ensures activeBlock.None? && state == Falling
    {
      this.width := width;
      this.height := height;
      cells := new Cell[height * width](_ => Empty);
      activeBlock := None;
      state := Falling;
    }

    /** `cell_index`: the row-major position of column `x` of row `y`;
        distinct cells of the field have distinct positions
        (`CellIndexInjective`). */
    function CellIndex(x: nat, y: nat): (i: nat)
      reads this
      ensures x < width && y < height ==> i < height * width
    {
      CellIndexBound(x, y, width, height);
      y * width + x
    }

    /** The cell at `p` exists and is Empty. */
    predicate CellFree(p: Vec2)
      reads this, cells
      requires Valid()
    {
      && 0 <= p.x < width && 0 <= p.y < height
      && cells[CellIndex(p.x, p.y)].Empty?
    }

    /** The block, placed as given, lies in the field on Empty cells only. */
    predicate Fits(b: Tetromino)
      reads this, cells
      requires Valid() && ValidBlock(b)
    {
      forall k :: 0 <= k < 4 ==> CellFree(Add(b.pos, Offsets(b)[k]))
    }

    /** `can_fit_block`: checks the four cells in turn and stops at the
        first that is outside the field or Filled. */
    method CanFitBlock(b: Tetromino) returns (fits: bool)
      requires Valid() && ValidBlock(b)
      ensures fits == Fits(b)
    {
      var offsets := Offsets(b);
      var k := 0;
      while k < 4
        invariant k <= 4
        invariant forall m :: 0 <= m < k ==> CellFree(Add(b.pos, offsets[m]))
      {
        var p := Add(b.pos, offsets[k]);
        if p.x < 0 || p.x >= width || p.y < 0 || p.y >= height {
          return false;
        }
        var i := CellIndex(p.x, p.y);
        if cells[i].Filled? {
          return false;
        }
        k := k + 1;
      }
      return true;
    }

    /** `move_active_block`: the block moves by `delta` when it fits there;
        the result says whether it moved (false without a block). */
    method MoveActiveBlock(delta: Vec2) returns (moved: bool)
      requires Valid()
      modifies this`activeBlock
      ensures Valid()
      ensures old(activeBlock).None? ==> !moved && activeBlock.None?
      ensures old(activeBlock).Some? ==>
        var wb := old(activeBlock).value.(pos := Add(old(activeBlock).value.pos, delta));
        && moved == Fits(wb)
        && activeBlock == if moved then Some(wb) else old(activeBlock)
    {
      match activeBlock {
        case None =>
          return false;
        case Some(b) =>
          var wb := b.(pos := Add(b.pos, delta));
          moved := CanFitBlock(wb);
          if moved {
            activeBlock := Some(wb);
          }
      }
    }

    /** `rotate_active_block`: the block turns one rotation when it then
        fits; the result says whether it turned (false without a block). */
    method RotateActiveBlock(r: Rotation) returns (rotated: bool)
      requires Valid()
      modifies this`activeBlock
      ensures Valid()
      ensures old(activeBlock).None? ==> !rotated && activeBlock.None?
      ensures old(activeBlock).Some? ==>
        var b := old(activeBlock).value;
        var wb := b.(rot := Rotated(b.rot, RotationCount(b.shape), r));
        && rotated == Fits(wb)
        && activeBlock == if rotated then Some(wb) else old(activeBlock)
    {
      match activeBlock {
        case None =>
          return false;
        case Some(b) =>
          var wb := b.(rot := Rotated(b.rot, RotationCount(b.shape), r));
          rotated := CanFitBlock(wb);
          if rotated {
            activeBlock := Some(wb);
          }
      }
    }

    /** `check_lines`: the number of full rows; when there is one, the
        field starts clearing from the first to the last full row
        (`FullRowsSpec` says which rows these are). `chunks` panics for a
        zero width. */
    method CheckLines() returns (lines: nat)
      requires Valid() && width > 0
      modifies this`state
      ensures Valid()
      ensures var full := FullRows(Chunks(cells[..], width), 0);
        && lines == |full|
        && (lines > 0 ==> state == ClearingLines(full[0], full[lines - 1]))
        && (lines == 0 ==> state == old(state))
    {
      var full := FullRows(Chunks(cells[..], width), 0);
      if |full| > 0 {
        state := ClearingLines(full[0], full[|full| - 1]);
      }
      lines := |full|;
    }

    /** `clear_lines`: copies each cell before row `from` down by
        `(to + 1 - from) * width` places, from the last one back, then
        empties the cells at the top. `to_index - from_index` underflows
        (and panics) unless `from <= to + 1`; the rows must lie in the
        field. */
    method ClearLines(from: nat, to: nat)
      requires Valid() && from <= to + 1 && to < height
      modifies cells
      ensures (MulMonotone(to + 1, height, width); MulMonotone(from, to + 1, width);
        cells[..] == ClearedCells(old(cells[..]), from * width, (to + 1) * width))
    {
      MulMonotone(to + 1, height, width);
      MulMonotone(from, to + 1, width);
      var fromIndex := from * width;
      var toIndex := (to + 1) * width;
      ShiftDown(fromIndex, toIndex);
    }

    /** The two loops of `clear_lines`, on the cell indices it computes. */
    method ShiftDown(fromIndex: nat, toIndex: nat)
      requires fromIndex <= toIndex <= cells.Length
      modifies cells
      ensures cells[..] == ClearedCells(old(cells[..]), fromIndex, toIndex)
    {
      ghost var was := cells[..];
      MoveDown(fromIndex, toIndex);
      EmptyTop(toIndex - fromIndex);
      assert cells[..] == ClearedCells(was, fromIndex, toIndex);
    }

    /** The first loop: from the last one back, each cell before
        `fromIndex` is copied `toIndex - fromIndex` places on. */
    method MoveDown(fromIndex: nat, toIndex: nat)
      requires fromIndex <= toIndex <= cells.Length
      modifies cells
      ensures forall j :: 0 <= j < toIndex - fromIndex ==> cells[j] == old(cells[j])
      ensures forall j :: toIndex - fromIndex <= j < toIndex ==> cells[j] == old(cells[j - (toIndex - fromIndex)])
      ensures forall j :: toIndex <= j < cells.Length ==> cells[j] == old(cells[j])
    {
      ghost var was := cells[..];
      var offset := toIndex - fromIndex;
      var i := fromIndex;
      while i > 0
        invariant 0 <= i <= fromIndex
        invariant forall j :: 0 <= j < i + offset ==> cells[j] == was[j]
        invariant forall j :: i + offset <= j < toIndex ==> cells[j] == was[j - offset]
        invariant forall j :: toIndex <= j < cells.Length ==> cells[j] == was[j]
      {
        i := i - 1;
        cells[i + offset] := cells[i];
      }
    }

    /** The second loop: the first `offset` cells become Empty. */
    method EmptyTop(offset: nat)
      requires offset <= cells.Length
      modifies cells
      ensures forall j :: 0 <= j < offset ==> cells[j] == Empty
      ensures forall j :: offset <= j < cells.Length ==> cells[j] == old(cells[j])
    {
      var i := 0;
      while i < offset
        invariant 0 <= i <= offset
        invariant forall j :: 0 <= j < i ==> cells[j] == Empty
        invariant forall j :: i <= j < cells.Length ==> cells[j] == old(cells[j])
      {
        cells[i] := Empty;
        i := i + 1;
      }
    }

    /** The cell of the block's `k`-th offset. */
    function BlockCell(b: Tetromino, k: nat): Vec2
      requires ValidBlock(b) && k < 4
    {
      Add(b.pos, Offsets(b)[k])
    }

    /** What `commit_active_block` needs: `(x + pos.x) as usize` and
        `(y + pos.y) as usize` must not be negative and must index the cell
        vector, which `set_cell` does not check otherwise. */
    predicate CommitInBounds(b: Tetromino)
      reads this
      requires Valid() && ValidBlock(b)
    {
      forall k :: 0 <= k < 4 ==>
        BlockCell(b, k).x >= 0 && BlockCell(b, k).y >= 0 &&
        CellIndex(BlockCell(b, k).x, BlockCell(b, k).y) < cells.Length
    }

    /** Cell `i` is the position of one of the block's first `n` cells. */
    predicate IsBlockCell(b: Tetromino, i: nat, n: nat)
      reads this
      requires Valid() && ValidBlock(b) && n <= 4 && CommitInBounds(b)
    {
      exists k :: 0 <= k < n && i == CellIndex(BlockCell(b, k).x, BlockCell(b, k).y)
    }

    /** `commit_active_block`: writes the block's colour into its four
        cells; nothing else changes, and nothing at all without a block. */
    method CommitActiveBlock()
      requires Valid()
      requires activeBlock.Some? ==> CommitInBounds(activeBlock.value)
      modifies cells
      ensures activeBlock.None? ==> cells[..] == old(cells[..])
      ensures activeBlock.Some? ==>
        var b := activeBlock.value;
        && (forall k :: 0 <= k < 4 ==>
             cells[CellIndex(BlockCell(b, k).x, BlockCell(b, k).y)] == Filled(b.color))
        && (forall i :: 0 <= i < cells.Length && !IsBlockCell(b, i, 4) ==> cells[i] == old(cells[i]))
    {
      match activeBlock {
        case None =>
        case Some(b) =>
          var k := 0;
          while k < 4
            invariant k <= 4
            invariant forall m :: 0 <= m < k ==>
              cells[CellIndex(BlockCell(b, m).x, BlockCell(b, m).y)] == Filled(b.color)
            invariant forall i :: 0 <= i < cells.Length && !IsBlockCell(b, i, k) ==> cells[i] == old(cells[i])
          {
            var p := BlockCell(b, k);
            SetCell(p.x, p.y, Filled(b.color));
            k := k + 1;
          }
      }
    }

    /** `set_cell`: only the cell at `cell_index(x, y)` changes. */
    method SetCell(x: nat, y: nat, cell: Cell)
      requires Valid() && CellIndex(x, y) < cells.Length
      modifies cells
      ensures cells[..] == old(cells[..])[CellIndex(x, y) := cell]
    {
      cells[CellIndex(x, y)] := cell;
    }
  }

  // ---------------------------------------------------------------------
  // Clearing rows that are not adjacent.

  /** `check_lines` only reports the first and the last full row, and
      `clear_lines` removes every row between them. With rows `FF`, `F.`,
      `FF` (width 2) rows 0 and 2 are full, and the source clears all three
      rows, losing the Filled cell of row 1; the intended clearing keeps it. */
  lemma AsWrittenClearsRowsBetween(c: seq<Cell>)
    requires c == [Filled(0), Filled(0), Filled(0), Empty, Filled(0), Filled(0)]
    ensures FullRows(Chunks(c, 2), 0) == [0, 2]
    ensures CountFilled(ClearedCells(c, 0 * 2, (2 + 1) * 2)) == 0
    ensures CountFilled(ClearFullRows(c, 2)) == 1
  {
    var r0, r1, r2 := c[..2], c[2..4], c[4..];
    assert r0 == [Filled(0), Filled(0)] && r1 == [Filled(0), Empty] && r2 == [Filled(0), Filled(0)];
    var rows := Chunks(c, 2);
    assert rows == [r0, r1, r2] by {
      var c1 := c[2..];
      assert c1[..2] == r1 && c1[2..] == r2;
      assert Chunks(r2, 2) == [r2];
      assert Chunks(c1, 2) == [r1] + Chunks(r2, 2);
    }
    assert Full(r0) && Full(r2);
    assert !Full(r1) by {
      assert !r1[1].Filled?;
    }
    assert FullRows(rows, 0) == [0, 2] by {
      var t1, t2 := [r1, r2], [r2];
      assert rows[1..] == t1 && t1[1..] == t2 && t2[1..] == [];
      assert FullRows(t2, 2) == [2];
      assert FullRows(t1, 1) == [2];
    }
    assert ClearedCells(c, 0, 6) == Empties(6);
    CountFilledEmpties(6);
    ClearFullRowsCount(c, 2, 3);
    assert CountFilled(c) == 5 by {
      assert c == r0 + r1 + r2;
      CountFilledAppend(r0 + r1, r2);
      CountFilledAppend(r0, r1);
      CountFilledFull(r0);
      CountFilledFull(r2);
      assert r1[1..] == [Empty];
    }
  }
}
