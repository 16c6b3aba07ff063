/** Conway's game of life on a bounded grid (game_of_life/src/gol.rs): two
    row-major buffers of cells, one shown and one written by `step`, whose
    roles are exchanged after every generation. */
module GameOfLife {
  import opened Common

  lemma MulStep(a: nat, w: nat)
    ensures (a + 1) * w == a * w + w
  {
  }

  lemma MulMonotone(a: nat, b: nat, w: nat)
    requires a <= b
    ensures a * w <= b * w
  {
  }

  /** `y * w`, the position of the first cell of row `y`, defined by
      repeated addition so that the counting proofs stay linear. */
  function RowStart(y: nat, w: nat): nat {
    if y == 0 then 0 else RowStart(y - 1, w) + w
  }

  lemma {:induction false} RowStartIsProduct(y: nat, w: nat)
    ensures RowStart(y, w) == y * w
  {
    if y > 0 {
      RowStartIsProduct(y - 1, w);
      MulStep(y - 1, w);
    }
  }

  /** Column `x` < `w` of row `y` < `h` lies inside a grid of `h` rows. */
  lemma IndexBound(x: nat, y: nat, w: nat, h: nat)
    requires x < w && y < h
    ensures x + RowStart(y, w) < w * h
  {
    RowStartIsProduct(y, w);
    MulMonotone(y + 1, h, w);
    MulStep(y, w);
  }

  /** The column and row of a position inside the grid are inside the grid. */
  lemma PositionBound(i: nat, w: nat, h: nat)
    requires i < w * h
    ensures w > 0 && i % w < w && i / w < h
  {
    if i / w >= h {
      MulMonotone(h, i / w, w);
    }
  }

  /** Whether the cell at column `x` of row `y` exists and is alive. */
  predicate Alive(g: seq<bool>, w: nat, h: nat, x: int, y: int) {
    0 <= x < w && 0 <= y < h && x + RowStart(y, w) < |g| && g[x + RowStart(y, w)]
  }

  /** Inside the grid, `Alive` is the cell's value. */
  lemma AliveInside(g: seq<bool>, w: nat, h: nat, x: nat, y: nat)
    requires |g| == w * h && x < w && y < h
    ensures x + y * w < |g| && (Alive(g, w, h, x, y) <==> g[x + y * w])
  {
    IndexBound(x, y, w, h);
    RowStartIsProduct(y, w);
  }

  lemma AliveAt(g: seq<bool>, w: nat, h: nat, x: int, y: int)
    requires |g| == w * h
    ensures 0 <= x < w && 0 <= y < h ==> x + y * w < |g| && (Alive(g, w, h, x, y) <==> g[x + y * w])
  {
    if 0 <= x < w && 0 <= y < h {
      AliveInside(g, w, h, x, y);
    }
  }

  /** The live cells among offsets `-1 <= dx < dxEnd` of row offset `dy`
      around (`x`, `y`), leaving out the cell itself. */
  function RowCount(g: seq<bool>, w: nat, h: nat, x: int, y: int, dy: int, dxEnd: int): (n: nat)
    requires -1 <= dxEnd <= 2
    ensures n <= dxEnd + 1
    ensures dy == 0 && dxEnd >= 1 ==> n <= dxEnd
    decreases dxEnd + 1
  {
    if dxEnd == -1 then 0
    else
      var dx := dxEnd - 1;
      RowCount(g, w, h, x, y, dy, dx)
      + (if !(dx == 0 && dy == 0) && Alive(g, w, h, x + dx, y + dy) then 1 else 0)
  }

  /** The live neighbours among row offsets `-1 <= dy < dyEnd`. */
  function GridCount(g: seq<bool>, w: nat, h: nat, x: int, y: int, dyEnd: int): (n: nat)
    requires -1 <= dyEnd <= 2
    ensures n <= 3 * (dyEnd + 1) - (if dyEnd >= 1 then 1 else 0)
    decreases dyEnd + 1
  {
    if dyEnd == -1 then 0
    else GridCount(g, w, h, x, y, dyEnd - 1) + RowCount(g, w, h, x, y, dyEnd - 1, 2)
  }

  /** The live cells among the eight around position `i`: never more than
      eight. (A grid of width 0 has no positions.) */
  function NeighborCount(g: seq<bool>, w: nat, h: nat, i: nat): (n: nat)
    ensures n <= 8
  {
    if w == 0 then 0 else GridCount(g, w, h, i % w, i / w, 2)
  }

  /** The rule of `step`: fewer than two or more than three neighbours
      kill, exactly three bring to life, exactly two keep the cell. */
  function NextCell(alive: bool, neighbors: nat): bool {
    if neighbors < 2 || neighbors > 3 then false
    else if neighbors == 3 then true
    else alive
  }

  /** The generation after `g`. */
  function Next(g: seq<bool>, w: nat, h: nat): (r: seq<bool>)
    ensures |r| == |g|
  {
    NextFrom(g, w, h, 0)
  }

  /** The next states of the cells from position `k` on. */
  function NextFrom(g: seq<bool>, w: nat, h: nat, k: nat): (r: seq<bool>)
    requires k <= |g|
    ensures |r| == |g| - k
    decreases |g| - k
  {
    if k == |g| then [] else [NextCell(g[k], NeighborCount(g, w, h, k))] + NextFrom(g, w, h, k + 1)
  }

  lemma {:induction false} NextFromAt(g: seq<bool>, w: nat, h: nat, k: nat, i: nat)
    requires k <= i < |g|
    ensures NextFrom(g, w, h, k)[i - k] == NextCell(g[i], NeighborCount(g, w, h, i))
    decreases i - k
  {
    var rest := NextFrom(g, w, h, k + 1);
    assert NextFrom(g, w, h, k) == [NextCell(g[k], NeighborCount(g, w, h, k))] + rest;
    if k < i {
      NextFromAt(g, w, h, k + 1, i);
      assert NextFrom(g, w, h, k)[i - k] == rest[i - (k + 1)];
    }
  }

  lemma NextAt(g: seq<bool>, w: nat, h: nat, i: nat)
    requires i < |g|
    ensures Next(g, w, h)[i] == NextCell(g[i], NeighborCount(g, w, h, i))
  {
    var z: nat := 0;
    NextFromAt(g, w, h, z, i);
    assert Next(g, w, h)[i] == NextFrom(g, w, h, z)[i - z];
  }

  // ---------------------------------------------------------------------
  // An independent statement of the rule: the live cells of the whole 3x3
  // window, the cell itself included.

  function WindowRow(g: seq<bool>, w: nat, h: nat, x: int, y: int, dy: int, dxEnd: int): nat
    requires -1 <= dxEnd <= 2
    decreases dxEnd + 1
  {
    if dxEnd == -1 then 0
    else WindowRow(g, w, h, x, y, dy, dxEnd - 1) + (if Alive(g, w, h, x + dxEnd - 1, y + dy) then 1 else 0)
  }

  function Window(g: seq<bool>, w: nat, h: nat, x: int, y: int, dyEnd: int): nat
    requires -1 <= dyEnd <= 2
    decreases dyEnd + 1
  {
    if dyEnd == -1 then 0
    else Window(g, w, h, x, y, dyEnd - 1) + WindowRow(g, w, h, x, y, dyEnd - 1, 2)
  }

  lemma {:induction false} WindowRowCount(g: seq<bool>, w: nat, h: nat, x: int, y: int, dy: int, dxEnd: int)
    requires -1 <= dxEnd <= 2
    ensures WindowRow(g, w, h, x, y, dy, dxEnd)
      == RowCount(g, w, h, x, y, dy, dxEnd) + (if dy == 0 && dxEnd >= 1 && Alive(g, w, h, x, y) then 1 else 0)
    decreases dxEnd + 1
  {
    if dxEnd >= 0 {
      WindowRowCount(g, w, h, x, y, dy, dxEnd - 1);
    }
  }

  lemma {:induction false} WindowCount(g: seq<bool>, w: nat, h: nat, x: int, y: int, dyEnd: int)
    requires -1 <= dyEnd <= 2
    ensures Window(g, w, h, x, y, dyEnd)
      == GridCount(g, w, h, x, y, dyEnd) + (if dyEnd >= 1 && Alive(g, w, h, x, y) then 1 else 0)
    decreases dyEnd + 1
  {
    if dyEnd >= 0 {
      WindowCount(g, w, h, x, y, dyEnd - 1);
      WindowRowCount(g, w, h, x, y, dyEnd - 1, 2);
    }
  }

  /** The rule restated on the window: a cell is alive in the next
      generation exactly when its 3x3 window holds three live cells, or
      four with the cell itself alive. */
  lemma NextByWindow(g: seq<bool>, w: nat, h: nat, i: nat)
    requires |g| == w * h && i < |g|
    ensures (PositionBound(i, w, h);
      var W := Window(g, w, h, i % w, i / w, 2);
      Next(g, w, h)[i] <==> W == 3 || (W == 4 && g[i]))
  {
    PositionBound(i, w, h);
    NextAt(g, w, h, i);
    WindowCount(g, w, h, i % w, i / w, 2);
    AliveAtIndex(g, w, h, i);
    RuleByWindow(g[i], NeighborCount(g, w, h, i), Window(g, w, h, i % w, i / w, 2));
  }

  /** The cell at position `i` is the one at its column and row. */
  lemma AliveAtIndex(g: seq<bool>, w: nat, h: nat, i: nat)
    requires |g| == w * h && i < |g|
    ensures w > 0 && (Alive(g, w, h, i % w, i / w) <==> g[i])
  {
    PositionBound(i, w, h);
    AliveInside(g, w, h, i % w, i / w);
  }

  lemma RuleByWindow(alive: bool, n: nat, window: nat)
    requires window == n + (if alive then 1 else 0)
    ensures NextCell(alive, n) <==> window == 3 || (window == 4 && alive)
  {
  }

  /** An empty grid stays empty. */
  lemma EmptyStaysEmpty(g: seq<bool>, w: nat, h: nat)
    requires |g| == w * h && forall i :: 0 <= i < |g| ==> !g[i]
    ensures forall i :: 0 <= i < |g| ==> !Next(g, w, h)[i]
  {
    forall i | 0 <= i < |g| ensures !Next(g, w, h)[i] {
      PositionBound(i, w, h);
      NextAt(g, w, h, i);
      NoneAliveGrid(g, w, h, i % w, i / w, 2);
    }
  }

  lemma {:induction false} NoneAliveRow(g: seq<bool>, w: nat, h: nat, x: int, y: int, dy: int, dxEnd: int)
    requires -1 <= dxEnd <= 2 && forall i :: 0 <= i < |g| ==> !g[i]
    ensures RowCount(g, w, h, x, y, dy, dxEnd) == 0
    decreases dxEnd + 1
  {
    if dxEnd >= 0 {
      NoneAliveRow(g, w, h, x, y, dy, dxEnd - 1);
    }
  }

  lemma {:induction false} NoneAliveGrid(g: seq<bool>, w: nat, h: nat, x: int, y: int, dyEnd: int)
    requires -1 <= dyEnd <= 2 && forall i :: 0 <= i < |g| ==> !g[i]
    ensures GridCount(g, w, h, x, y, dyEnd) == 0
    decreases dyEnd + 1
  {
    if dyEnd >= 0 {
      NoneAliveGrid(g, w, h, x, y, dyEnd - 1);
      NoneAliveRow(g, w, h, x, y, dyEnd - 1, 2);
    }
  }

  // ---------------------------------------------------------------------

  class Simulation {
    const width: nat
    const height: nat
    var visible: array<bool>
    var simulation: array<bool>

    /** Both buffers hold the whole grid, and they are two buffers. */
    ghost predicate Valid()
      reads this
    {
      && visible.Length == width * height
      && simulation.Length == width * height
      && visible != simulation
    }

    /** `Simulation::new`: two all-dead buffers of `width * height` cells. */
    constructor (width: nat, height: nat)
      ensures Valid() && this.width == width && this.height == height
      ensures fresh(visible) && fresh(simulation)
      ensures forall i :: 0 <= i < visible.Length ==> !visible[i]
      ensures forall i :: 0 <= i < simulation.Length ==> !simulation[i]
    {
      this.width := width;
      this.height := height;
      visible := new bool[width * height](_ => false);
      simulation := new bool[width * height](_ => false);
    }

    /** `toggle`: flips the cell at column `x` of row `y` and no other. */
    method Toggle(x: nat, y: nat)
      requires Valid() && x < width && y < height
      modifies visible
      ensures Valid()
      ensures (IndexBound(x, y, width, height); RowStartIsProduct(y, width);
        visible[..] == old(visible[..])[x + y * width := !old(visible[x + y * width])])
    {
      IndexBound(x, y, width, height);
      RowStartIsProduct(y, width);
      var index := y * width + x;
      visible[index] := !visible[index];
    }

    /** `neighbor_count`: walks the row offsets -1, 0, 1 and, in each, the
        column offsets -1, 0, 1 (`CountInRow`), skipping the cell itself and
        counting the live cells that lie in the grid. */
    method NeighborCountAt(index: nat) returns (count: byte)
      requires Valid() && index < visible.Length
      ensures width > 0 && count as nat == NeighborCount(visible[..], width, height, index)
    {
      PositionBound(index, width, height);
      var x: int := index % width;
      var y: int := index / width;
      count := 0;
      var offsetY := -1;
      while offsetY < 2
        invariant -1 <= offsetY <= 2
        invariant count as nat == GridCount(visible[..], width, height, x, y, offsetY)
      {
        var inRow := CountInRow(x, y, offsetY);
        count := count + inRow;
        offsetY := offsetY + 1;
      }
    }

    /** The inner loop of `neighbor_count`: the live cells at column
        offsets -1, 0, 1 of row offset `offsetY`, the cell itself left out. */
    method CountInRow(x: int, y: int, offsetY: int) returns (count: byte)
      requires Valid()
      ensures count as nat == RowCount(visible[..], width, height, x, y, offsetY, 2)
    {
      ghost var g := visible[..];
      count := 0;
      var offsetX := -1;
      while offsetX < 2
        invariant -1 <= offsetX <= 2
        invariant count as nat == RowCount(g, width, height, x, y, offsetY, offsetX)
      {
        var targetX := x + offsetX;
        var targetY := y + offsetY;
        AliveAt(g, width, height, targetX, targetY);
        if && !(offsetX == 0 && offsetY == 0)
           && 0 <= targetX < width && 0 <= targetY < height
           && visible[targetX + targetY * width]
        {
          count := count + 1;
        }
        offsetX := offsetX + 1;
      }
    }

    /** `step`: writes the next generation of the shown buffer into the
        other one, then exchanges them, so the new shown generation depends
        on the old shown one alone. */
    method Step()
      requires Valid()
      modifies this, simulation
      ensures Valid()
      ensures visible == old(simulation) && simulation == old(visible)
      ensures visible[..] == Next(old(visible[..]), width, height)
      ensures simulation[..] == old(visible[..])
    {
      ghost var g := visible[..];
      ghost var next := Next(g, width, height);
      var i := 0;
      while i < visible.Length
        invariant 0 <= i <= visible.Length
        invariant Valid() && visible == old(visible) && simulation == old(simulation)
        invariant visible[..] == g
        invariant forall j :: 0 <= j < i ==> simulation[j] == next[j]
      {
        var cellAlive := visible[i];
        var neighbors := NeighborCountAt(i);
        NextAt(g, width, height, i);
        assert next[i] == NextCell(cellAlive, neighbors as nat);
        if neighbors < 2 || neighbors > 3 {
          simulation[i] := false;
        } else if neighbors == 3 {
          simulation[i] := true;
        } else {
          simulation[i] := cellAlive;
        }
        assert simulation[i] == next[i];
        i := i + 1;
      }
      assert simulation[..] == next;
      Swap();
    }

    /** `swap`: the two buffers exchange roles; no cell changes. */
    method Swap()
      requires Valid()
      modifies this
      ensures Valid()
      ensures visible == old(simulation) && simulation == old(visible)
    {
      visible, simulation := simulation, visible;
    }
  }
}
