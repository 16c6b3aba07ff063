/** The volume the cube solver fills with pieces
    (cube_solver/src/solver.rs): a box of `x * y * z` unit cells stored
    row by row, layer by layer, with a count of the filled cells, and the
    check for a solution not yet found. */
module CubeSolver {
  import opened Common

  const USIZE_MODULUS: int := 0x1_0000_0000_0000_0000
  const I64_LIMIT: int := 0x8000_0000_0000_0000

  /** A cell or an offset, `cgmath::Vector3<i64>`. */
  datatype Position = Position(x: int, y: int, z: int)

  function Add(p: Position, q: Position): Position
  {
    Position(p.x + q.x, p.y + q.y, p.z + q.z)
  }

  /** A placed piece: which group, which of its orientations, where. */
  datatype SolutionItem = SolutionItem(groupId: nat, orientationId: nat, position: Position)

  // ---------------------------------------------------------------
  // Arithmetic

  lemma MulMono(a: int, b: int, d: int)
    requires a <= b && d > 0
    ensures a * d <= b * d
  {
  }

  /** Quotient and remainder are the only ones: `n = q * d + r` with
      `0 <= r < d` fixes both. */
  lemma DivModUnique(n: int, d: int, q: int, r: int)
    requires d > 0 && 0 <= r < d && n == q * d + r
    ensures n / d == q && n % d == r
  {
    var q' := n / d;
    if q' > q {
      MulMono(q + 1, q', d);
    } else if q' < q {
      MulMono(q' + 1, q, d);
    }
  }

  /** Row `y`, column `x` of a `w`-wide grid is cell `y * w + x` of
      `w * h`. */
  lemma RowMajorBound(x: int, y: int, w: int, h: int)
    requires 0 <= x < w && 0 <= y < h
    ensures 0 <= y * w + x < w * h
  {
    MulMono(y, h - 1, w);
  }

  /** A cell inside an `w * h * d` box has a row-major index inside the
      box. */
  lemma IndexBound(x: int, y: int, z: int, w: int, h: int, d: int)
    requires 0 <= x < w && 0 <= y < h && 0 <= z < d
    ensures 0 <= z * (h * w) + y * w + x < w * h * d
  {
    RowMajorBound(x, y, w, h);
    RowMajorBound(y * w + x, z, w * h, d);
    assert h * w == w * h;
  }

  /** A row-major index splits back into column, row and layer. */
  lemma SplitIndex(x: int, y: int, z: int, w: int, h: int)
    requires 0 <= x < w && 0 <= y < h && 0 <= z
    ensures var n := z * (h * w) + y * w + x;
      n % w == x && (n % (w * h)) / w == y && n / (w * h) == z
  {
    var n := z * (h * w) + y * w + x;
    var r := y * w + x;
    RowMajorBound(x, y, w, h);
    assert n == z * (w * h) + r;
    DivModUnique(n, w * h, z, r);
    DivModUnique(r, w, y, x);
    assert n == (z * h + y) * w + x by {
      assert z * (h * w) == (z * h) * w;
    }
    DivModUnique(n, w, z * h + y, x);
  }

  /** A quotient of a number below `m * k` by `m` is below `k`. */
  lemma DivBelow(n: int, m: int, k: int)
    requires m > 0 && 0 <= n < m * k
    ensures 0 <= n / m < k
  {
    var q := n / m;
    if q >= k {
      MulMono(k, q, m);
    }
  }

  /** Adding whole multiples of `w` keeps the remainder by `w`. */
  lemma ModShift(a: int, r: int, w: int)
    requires w > 0 && a >= 0 && r >= 0
    ensures (a * w + r) % w == r % w
  {
    var q := r / w;
    assert r == q * w + r % w;
    assert a * w + r == (a + q) * w + r % w;
    DivModUnique(a * w + r, w, a + q, r % w);
  }

  /** A box with a cell in it is at least one cell wide and high. */
  lemma PositiveFactors(a: int, b: int, c: int)
    requires a >= 0 && b >= 0 && c >= 0 && a * b * c > 0
    ensures a > 0 && b > 0
  {
  }

  /** Every index of an `w * h * d` box comes from a cell inside it. */
  lemma JoinIndex(n: int, w: int, h: int, d: int)
    requires w > 0 && h > 0 && 0 <= n < w * h * d
    ensures var x, y, z := n % w, (n % (w * h)) / w, n / (w * h);
      0 <= x < w && 0 <= y < h && 0 <= z < d && z * (h * w) + y * w + x == n
  {
    var wh := w * h;
    var r := n % wh;
    var z := n / wh;
    DivBelow(n, wh, d);
    DivBelow(r, w, h);
    assert n == z * wh + r;
    assert r == (r / w) * w + r % w;
    assert z * wh == (z * h) * w;
    ModShift(z * h, r, w);
    assert h * w == wh;
  }

  // ---------------------------------------------------------------
  // Cells

  /** How many cells are filled. */
  function Count(c: seq<bool>): (r: nat)
    ensures r <= |c|
  {
    if |c| == 0 then 0 else Count(c[..|c| - 1]) + (if c[|c| - 1] then 1 else 0)
  }

  /** Setting one cell changes the count by one when the cell changes. */
  lemma {:induction false} CountSet(c: seq<bool>, k: nat, v: bool)
    requires k < |c|
    ensures Count(c[k := v]) + (if c[k] then 1 else 0) == Count(c) + (if v then 1 else 0)
  {
    var n := |c| - 1;
    if k < n {
      assert c[k := v][..n] == c[..n][k := v];
      CountSet(c[..n], k, v);
    } else {
      assert c[k := v][..n] == c[..n];
    }
  }

  /** The volume is full exactly when every cell is counted. */
  lemma {:induction false} CountFull(c: seq<bool>)
    ensures Count(c) == |c| <==> forall i :: 0 <= i < |c| ==> c[i]
  {
    if |c| > 0 {
      var n := |c| - 1;
      CountFull(c[..n]);
      assert forall i :: 0 <= i < n ==> c[..n][i] == c[i];
    }
  }

  predicate Distinct<T(==)>(s: seq<T>)
  {
    forall i, j :: 0 <= i < j < |s| ==> s[i] != s[j]
  }

  predicate DistinctIndices(t: seq<nat>)
  {
    forall i, j :: 0 <= i < j < |t| ==> t[i] != t[j]
  }

  /** The cells `c` with the cells listed in `t` set to `v`. */
  function Mark(c: seq<bool>, t: seq<nat>, v: bool): (r: seq<bool>)
    requires forall i :: 0 <= i < |t| ==> t[i] < |c|
    ensures |r| == |c|
    ensures forall k :: 0 <= k < |c| ==> r[k] == if k in t then v else c[k]
  {
    if |t| == 0 then c
    else Mark(c, t[..|t| - 1], v)[t[|t| - 1] := v]
  }

  /** Setting distinct cells that all had the other value moves the count
      by their number. */
  lemma {:induction false} CountMark(c: seq<bool>, t: seq<nat>, v: bool)
    requires forall i :: 0 <= i < |t| ==> t[i] < |c| && c[t[i]] == !v
    requires DistinctIndices(t)
    ensures v ==> Count(Mark(c, t, v)) == Count(c) + |t|
    ensures !v ==> Count(Mark(c, t, v)) + |t| == Count(c)
  {
    if |t| > 0 {
      var n := |t| - 1;
      CountMark(c, t[..n], v);
      var before := Mark(c, t[..n], v);
      assert t[n] !in t[..n];
      assert before[t[n]] == !v;
      CountSet(before, t[n], v);
    }
  }

  /** Marking one more listed cell is one more update. */
  lemma MarkStep(c: seq<bool>, t: seq<nat>, i: nat, v: bool)
    requires i < |t| && forall j :: 0 <= j < |t| ==> t[j] < |c|
    ensures Mark(c, t[..i + 1], v) == Mark(c, t[..i], v)[t[i] := v]
  {
    assert t[..i + 1][..i] == t[..i];
  }

  // ---------------------------------------------------------------
  // The volume

  class Volume {
    const dims: Position
    const content: array<bool>
    var filledCount: nat

    /** The dimensions are not negative, there is one cell per unit
        cube, and the cells fit in a `Vec`, below `isize::MAX`. */
    predicate Shaped()
    {
      && dims.x >= 0 && dims.y >= 0 && dims.z >= 0
      && content.Length == dims.x * dims.y * dims.z < I64_LIMIT
    }

    /** `filled_count` is the number of filled cells. */
    ghost predicate Valid()
      reads this, content
    {
      Shaped() && filledCount == Count(content[..])
    }

    /** `Volume::new`: `x * y * z` empty cells. */
    constructor(dimensions: Position)
      requires dimensions.x >= 0 && dimensions.y >= 0 && dimensions.z >= 0
      requires dimensions.x * dimensions.y * dimensions.z < I64_LIMIT
      ensures dims == dimensions && fresh(content)
      ensures content[..] == seq(dimensions.x * dimensions.y * dimensions.z, _ => false)
      ensures filledCount == 0 && Valid()
    {
      dims := dimensions;
      content := new bool[dimensions.x * dimensions.y * dimensions.z](_ => false);
      filledCount := 0;
      new;
      NoneFilled(content[..]);
    }

    predicate InBounds(p: Position)
    {
      0 <= p.x < dims.x && 0 <= p.y < dims.y && 0 <= p.z < dims.z
    }

    /** `cube_position`: the cell of an index, column, row and layer. The
        divisions are by `x` and `x * y`, which have to be non-zero. */
    function CubePosition(index: nat): Position
      requires dims.x > 0 && dims.y > 0 && index < I64_LIMIT
    {
      Position(index % dims.x, (index % (dims.x * dims.y)) / dims.x, index / (dims.x * dims.y))
    }

    /** `position_index`: layer, row and column to an index, the `i64`
        cast to `usize` keeping the low 64 bits. Inside the volume it is
        the row-major index of the unit cube, and a valid one. */
    function PositionIndex(p: Position): (r: nat)
      ensures Shaped() && InBounds(p) ==>
        r == p.z * (dims.y * dims.x) + p.y * dims.x + p.x && r < content.Length
    {
      var value := p.z * (dims.y * dims.x) + p.y * dims.x + p.x;
      if Shaped() && InBounds(p) then
        IndexBound(p.x, p.y, p.z, dims.x, dims.y, dims.z);
        value % USIZE_MODULUS
      else
        value % USIZE_MODULUS
    }

    /** `cube_position` undoes `position_index` on the cells of the
        volume. */
    lemma CubeOfIndex(p: Position)
      requires Shaped() && InBounds(p)
      ensures CubePosition(PositionIndex(p)) == p
    {
      SplitIndex(p.x, p.y, p.z, dims.x, dims.y);
    }

    /** `position_index` undoes `cube_position` on the indices of the
        volume, and the cells it finds are inside. */
    lemma IndexOfCube(index: nat)
      requires Shaped() && index < content.Length
      ensures dims.x > 0 && dims.y > 0
      ensures InBounds(CubePosition(index)) && PositionIndex(CubePosition(index)) == index
    {
      PositiveFactors(dims.x, dims.y, dims.z);
      JoinIndex(index, dims.x, dims.y, dims.z);
    }

    /** Two cells of the volume with the same index are the same cell. */
    lemma IndexInjective(a: Position, b: Position)
      requires Shaped() && InBounds(a) && InBounds(b) && PositionIndex(a) == PositionIndex(b)
      ensures a == b
    {
      CubeOfIndex(a);
      CubeOfIndex(b);
    }

    /** The check of `orientation_fits` on one target: inside the volume
        and not filled; the bounds are checked before the cell is read. */
    predicate CellFree(t: Position)
      requires Shaped()
      reads content
    {
      !(|| t.x < 0 || t.x >= dims.x || t.y < 0 || t.y >= dims.y || t.z < 0 || t.z >= dims.z
        || content[PositionIndex(t)])
    }

    /** `orientation_fits`: every offset of the orientation, moved to
        `position`, lands on a free cell. */
    predicate OrientationFits(orientation: seq<Position>, position: Position)
      requires Shaped()
      reads content
    {
      |orientation| == 0 || (CellFree(Add(position, orientation[0])) && OrientationFits(orientation[1..], position))
    }

    /** An orientation fits exactly when all its targets are inside the
        volume and empty. */
    lemma {:induction false} FitsExactly(orientation: seq<Position>, position: Position)
      requires Shaped()
      ensures OrientationFits(orientation, position) <==>
        forall i :: 0 <= i < |orientation| ==>
          InBounds(Add(position, orientation[i])) && !content[PositionIndex(Add(position, orientation[i]))]
    {
      if |orientation| > 0 {
        FitsExactly(orientation[1..], position);
        assert forall i :: 1 <= i < |orientation| ==> orientation[1..][i - 1] == orientation[i];
      }
    }

    /** The cell indices an orientation at `position` covers. */
    function Targets(orientation: seq<Position>, position: Position): (r: seq<nat>)
      ensures |r| == |orientation|
      ensures forall i :: 0 <= i < |orientation| ==> r[i] == PositionIndex(Add(position, orientation[i]))
    {
      seq(|orientation|, i requires 0 <= i < |orientation| => PositionIndex(Add(position, orientation[i])))
    }

    /** Distinct offsets inside the volume cover distinct cells. */
    lemma TargetsDistinct(orientation: seq<Position>, position: Position)
      requires Shaped() && Distinct(orientation)
      requires forall i :: 0 <= i < |orientation| ==> InBounds(Add(position, orientation[i]))
      ensures DistinctIndices(Targets(orientation, position))
    {
      var t := Targets(orientation, position);
      forall i, j | 0 <= i < j < |t|
        ensures t[i] != t[j]
      {
        if t[i] == t[j] {
          IndexInjective(Add(position, orientation[i]), Add(position, orientation[j]));
        }
      }
    }

    /** `add_orientation`: fills the cells the orientation covers at
        `position` and counts them. The solver only places an orientation
        that fits, and the debug assertion that each cell is still empty
        rules out repeated offsets. */
    method AddOrientation(orientation: seq<Position>, position: Position)
      requires Valid() && Distinct(orientation)
      requires forall i :: 0 <= i < |orientation| ==>
        InBounds(Add(position, orientation[i])) && !content[PositionIndex(Add(position, orientation[i]))]
      modifies this, content
      ensures content[..] == Mark(old(content[..]), Targets(orientation, position), true)
      ensures filledCount == old(filledCount) + |orientation|
      ensures Valid()
    {
      TargetsDistinct(orientation, position);
      ghost var was := content[..];
      ghost var t := Targets(orientation, position);
      var i := 0;
      while i < |orientation|
        invariant 0 <= i <= |orientation|
        invariant content[..] == Mark(was, t[..i], true)
        invariant filledCount == old(filledCount)
      {
        var targetIndex := PositionIndex(Add(position, orientation[i]));
        MarkStep(was, t, i, true);
        content[targetIndex] := true;
        i := i + 1;
      }
      assert t[..i] == t;
      CountMark(was, t, true);
      filledCount := filledCount + |orientation|;
    }

    /** `remove_orientation`: empties the cells the orientation covers at
        `position` and uncounts them; the debug assertion demands that each
        is filled. */
    method RemoveOrientation(orientation: seq<Position>, position: Position)
      requires Valid() && Distinct(orientation)
      requires forall i :: 0 <= i < |orientation| ==>
        InBounds(Add(position, orientation[i])) && content[PositionIndex(Add(position, orientation[i]))]
      modifies this, content
      ensures content[..] == Mark(old(content[..]), Targets(orientation, position), false)
      ensures filledCount + |orientation| == old(filledCount)
      ensures Valid()
    {
      TargetsDistinct(orientation, position);
      ghost var was := content[..];
      ghost var t := Targets(orientation, position);
      var i := 0;
      while i < |orientation|
        invariant 0 <= i <= |orientation|
        invariant content[..] == Mark(was, t[..i], false)
        invariant filledCount == old(filledCount)
      {
        var targetIndex := PositionIndex(Add(position, orientation[i]));
        MarkStep(was, t, i, false);
        content[targetIndex] := false;
        i := i + 1;
      }
      assert t[..i] == t;
      CountMark(was, t, false);
      filledCount := filledCount - |orientation|;
    }

    /** `filled`: the count has reached the number of cells, which is when
        every cell is filled. */
    function Filled(): (r: bool)
      reads this, content
      ensures Valid() ==> (r <==> forall i :: 0 <= i < content.Length ==> content[i])
    {
      CountFull(content[..]);
      filledCount == content.Length
    }
  }

  /** Placing an orientation on empty cells counts each of them once, and
      taking it away again leaves the cells as they were; with the counts
      `AddOrientation` and `RemoveOrientation` keep, the volume is back to
      its state before. */
  lemma AddRemoveRestores(c: seq<bool>, t: seq<nat>)
    requires forall i :: 0 <= i < |t| ==> t[i] < |c| && !c[t[i]]
    requires DistinctIndices(t)
    ensures Count(Mark(c, t, true)) == Count(c) + |t|
    ensures Mark(Mark(c, t, true), t, false) == c
  {
    CountMark(c, t, true);
  }

  // ---------------------------------------------------------------
  // Solutions

  /** Every item of `test` occurs in `solution`. */
  predicate Covers(solution: seq<SolutionItem>, test: seq<SolutionItem>)
  {
    forall item :: item in test ==> item in solution
  }

  /** `is_new_solution`: no solution found so far contains every item of
      `test`. */
  method IsNewSolution(solutions: seq<seq<SolutionItem>>, test: seq<SolutionItem>) returns (r: bool)
    ensures r <==> forall k :: 0 <= k < |solutions| ==> !Covers(solutions[k], test)
  {
    var k := 0;
    while k < |solutions|
      invariant 0 <= k <= |solutions|
      invariant forall j :: 0 <= j < k ==> !Covers(solutions[j], test)
    {
      if Covers(solutions[k], test) {
        return false;
      }
      k := k + 1;
    }
    return true;
  }

  lemma {:induction false} NoneFilled(c: seq<bool>)
    requires forall i :: 0 <= i < |c| ==> !c[i]
    ensures Count(c) == 0
  {
    if |c| > 0 {
      NoneFilled(c[..|c| - 1]);
    }
  }
}
