/** The percolation process shared by all three programs: `iteration_step`
    fills, all at once, every empty cell that has at least two filled
    neighbours, and `compute_length` counts rounds until nothing changes.

    The state word is read through its filled cells (`Grid.Cells`); the bit
    count `popcount64` becomes the size of a cell set. */
module Simulation {
  import opened Word
  import opened Grid

  /** The number of cells below k that lie in both sets: `popcount64(a & b)` on k-bit words. */
  function CountCommon(a: set<nat>, b: set<nat>, k: nat): (r: nat)
    ensures r <= k
    decreases k
  {
    if k == 0 then 0
    else CountCommon(a, b, k - 1) + (if k - 1 in a && k - 1 in b then 1 else 0)
  }

  /** One more bit of the count adds cell k - 1 when it lies in both sets. */
  lemma CountCommonNext(a: set<nat>, b: set<nat>, k: nat)
    requires k > 0 && CountCommon(a, b, k - 1) == |a * b * CellsBelow(k - 1)|
    ensures CountCommon(a, b, k) == |a * b * CellsBelow(k)|
  {
    BelowNext(a * b, k);
  }

  /** The bit count agrees with the size of the intersection below k. */
  lemma {:induction false} CountCommonIsSize(a: set<nat>, b: set<nat>, k: nat)
    ensures CountCommon(a, b, k) == |a * b * CellsBelow(k)|
    decreases k
  {
    if k == 0 {
      BelowZero(a * b);
    } else {
      CountCommonIsSize(a, b, k - 1);
      CountCommonNext(a, b, k);
    }
  }

  /** `popcount64(old_state & neighborMask[c])`: the number of filled neighbours of c. */
  function FilledNeighbors(n: nat, cells: set<nat>, c: nat): (r: nat)
    requires ValidSize(n)
    ensures r <= 4
  {
    FilledNeighborsCount(n, cells, c);
    CountCommon(cells, Neighbors(n, c), n * n)
  }

  /** The count is the number of neighbours of c that are filled, so at most four. */
  lemma FilledNeighborsCount(n: nat, cells: set<nat>, c: nat)
    requires ValidSize(n)
    ensures CountCommon(cells, Neighbors(n, c), n * n) == |cells * Neighbors(n, c)| <= 4
  {
    CountCommonIsSize(cells, Neighbors(n, c), n * n);
    NeighborsOnBoard(n, c);
    assert cells * Neighbors(n, c) * CellsBelow(n * n) == cells * Neighbors(n, c);
    SubsetSize(cells * Neighbors(n, c), Neighbors(n, c));
    NeighborsAtMostFour(n, c);
  }

  /** Every neighbour is a board cell. */
  lemma NeighborsOnBoard(n: nat, c: nat)
    requires ValidSize(n)
    ensures forall b :: b in Neighbors(n, c) ==> b < n * n
  {
    forall b | b in Neighbors(n, c)
      ensures b < n * n
    {
      NeighborsSymmetric(n, c, b);
    }
  }

  /** One synchronous round of the process, as a set: the cells filled before, plus every
      empty board cell with at least two filled neighbours in the pre-round state. */
  function Step(n: nat, cells: set<nat>): (r: set<nat>)
    requires ValidSize(n) && InGrid(n, cells)
    ensures cells <= r && InGrid(n, r)
  {
    cells + set c: nat | c < n * n && c !in cells && FilledNeighbors(n, cells, c) >= 2
  }

  lemma ProperSubsetSize(a: set<nat>, b: set<nat>)
    requires a <= b && a != b
    ensures |a| < |b|
  {
    assert b == a + (b - a);
    assert |b - a| >= 1;
  }

  /** `compute_length`: the number of rounds until the pattern stops changing, counting the initial pattern as round 1. */
  function Length(n: nat, cells: set<nat>): (r: nat)
    requires ValidSize(n) && InGrid(n, cells)
    ensures r >= 1
    decreases n * n - |cells|
  {
    InGridSize(n, cells);
    var next := Step(n, cells);
    if next == cells then 1
    else
      ProperSubsetSize(cells, next);
      InGridSize(n, next);
      1 + Length(n, next)
  }

  /** Every round before the fixed point fills at least one cell, so a pattern with
      |cells| filled cells stabilises within n*n - |cells| + 1 rounds. */
  lemma {:induction false} LengthBound(n: nat, cells: set<nat>)
    requires ValidSize(n) && InGrid(n, cells)
    ensures Length(n, cells) <= n * n - |cells| + 1
    decreases n * n - |cells|
  {
    InGridSize(n, cells);
    var next := Step(n, cells);
    if next != cells {
      ProperSubsetSize(cells, next);
      InGridSize(n, next);
      LengthBound(n, next);
    }
  }

  /** `compute_length(state)` for a state word: the length of the pattern of its set bits. */
  function StateLength(n: nat, w: nat): (r: nat)
    requires ValidSize(n)
    ensures 1 <= r <= n * n + 1
  {
    LengthBound(n, Cells(n, w));
    Length(n, Cells(n, w))
  }

  /** The pattern after k synchronous rounds. */
  function Iterate(n: nat, cells: set<nat>, k: nat): (r: set<nat>)
    requires ValidSize(n) && InGrid(n, cells)
    ensures InGrid(n, r)
    decreases k
  {
    if k == 0 then cells else Iterate(n, Step(n, cells), k - 1)
  }

  lemma IterateShift(n: nat, cells: set<nat>, k: nat)
    requires ValidSize(n) && InGrid(n, cells)
    ensures Iterate(n, cells, k + 1) == Iterate(n, Step(n, cells), k)
  {
  }

  /** A pattern on which a round changes nothing. */
  predicate Stable(n: nat, cells: set<nat>)
    requires ValidSize(n) && InGrid(n, cells)
  {
    Step(n, cells) == cells
  }

  /** After Length - 1 rounds the pattern is stable: `compute_length` stops at the fixed point. */
  lemma {:induction false} LengthReachesFixpoint(n: nat, cells: set<nat>)
    requires ValidSize(n) && InGrid(n, cells)
    ensures Stable(n, Iterate(n, cells, Length(n, cells) - 1))
    decreases Length(n, cells)
  {
    var next := Step(n, cells);
    if next != cells {
      var len := Length(n, next);
      assert Length(n, cells) == len + 1;
      LengthReachesFixpoint(n, next);
      IterateShift(n, cells, len - 1);
    } else {
      assert Length(n, cells) == 1;
      assert Iterate(n, cells, 0) == cells;
    }
  }

  /** Before Length - 1 rounds the pattern is never stable: `compute_length` does not stop early. */
  lemma {:induction false} LengthNotEarly(n: nat, cells: set<nat>)
    requires ValidSize(n) && InGrid(n, cells)
    ensures forall k: nat :: k < Length(n, cells) - 1 ==> !Stable(n, Iterate(n, cells, k))
    decreases Length(n, cells)
  {
    var next := Step(n, cells);
    if next != cells {
      var len := Length(n, next);
      assert Length(n, cells) == len + 1;
      LengthNotEarly(n, next);
      forall k: nat | k < len
        ensures !Stable(n, Iterate(n, cells, k))
      {
        if k > 0 {
          IterateShift(n, cells, k - 1);
        }
      }
    }
  }

  /** `iteration_step`: one pass over the cells in index order that reads only the
      pre-round snapshot, so the result is the synchronous round whatever the order. */
  method IterationStep(n: nat, mask: seq<set<nat>>, state: set<nat>) returns (next: set<nat>, changed: bool)
    requires ValidSize(n) && IsNeighborTable(n, mask) && InGrid(n, state)
    ensures state <= next
    ensures forall c: nat :: c in next <==> c in state || (c < n * n && FilledNeighbors(n, state, c) >= 2)
    ensures changed <==> next != state
    ensures next == Step(n, state)
  {
    GridFitsWord(n);
    next := state;
    changed := false;
    var c := 0;
    while c < n * n
      invariant 0 <= c <= n * n
      invariant forall d: nat :: d in next <==> d in state || (d < c && d !in state && FilledNeighbors(n, state, d) >= 2)
      invariant changed <==> next != state
    {
      if c !in state {
        var countNeighbors := CountCommon(state, mask[c], n * n);
        if countNeighbors >= 2 {
          next := next + {c};
          changed := true;
        }
      }
      c := c + 1;
    }
  }

  /** `compute_length`: start the counter at 1 and add one for every round that changes the state. */
  method ComputeLength(n: nat, mask: seq<set<nat>>, initialState: nat) returns (steps: nat)
    requires ValidSize(n) && IsNeighborTable(n, mask)
    ensures steps == StateLength(n, initialState)
    ensures 1 <= steps <= n * n - |Cells(n, initialState)| + 1
  {
    var start := Cells(n, initialState);
    var state := start;
    steps := 1;
    ghost var prev := state;
    var changed;
    state, changed := IterationStep(n, mask, state);
    while changed
      invariant InGrid(n, prev) && state == Step(n, prev)
      invariant changed <==> state != prev
      invariant Length(n, start) == steps - 1 + Length(n, prev)
      decreases n * n - |prev|
    {
      InGridSize(n, state);
      ProperSubsetSize(prev, state);
      steps := steps + 1;
      prev := state;
      state, changed := IterationStep(n, mask, state);
    }
    LengthBound(n, start);
  }
}
