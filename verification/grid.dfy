/** The n-by-n board shared by all three search programs: cell numbering,
    the filled cells of a state word, and the orthogonal neighbour relation
    that `buildNeighborMasks` tabulates. */
module Grid {
  import opened Word

  /** The grid sizes the programs accept: 1 <= n <= 8, so that the n*n cells fit in one 64-bit word. */
  predicate ValidSize(n: int)
  {
    1 <= n <= 8
  }

  /** The n*n cells fit in a 64-bit word. */
  lemma GridFitsWord(n: nat)
    requires ValidSize(n)
    ensures n * n <= 64
  {
    MulMonotone(n, 8, n);
  }

  /** `cellIndex(x, y)`: cell (x, y) is bit number y*n + x. */
  function CellIndex(n: nat, x: nat, y: nat): nat
  {
    y * n + x
  }

  /** The column x of cell number c. */
  function Col(n: nat, c: nat): nat
    requires n >= 1
  {
    c % n
  }

  /** The row y of cell number c. */
  function Row(n: nat, c: nat): nat
    requires n >= 1
  {
    c / n
  }

  lemma MulAtLeast(k: int, n: int)
    requires k >= 1 && n > 0
    ensures k * n >= n
  {
  }

  lemma MulMonotone(a: nat, b: nat, n: nat)
    requires a <= b
    ensures a * n <= b * n
  {
    if a < b {
      MulAtLeast(b - a, n + 1);
    }
  }

  /** Quotient and remainder are unique. */
  lemma DivModUnique(a: int, n: int, q: int, r: int)
    requires n > 0 && 0 <= r < n && a == q * n + r
    ensures a / n == q && a % n == r
  {
    var q', r' := a / n, a % n;
    assert a == q' * n + r';
    if q' > q {
      MulAtLeast(q' - q, n);
    } else if q > q' {
      MulAtLeast(q - q', n);
    }
  }

  /** Cell numbering is a bijection between coordinates in [0, n)^2 and indices in [0, n*n): coordinates to index and back. */
  lemma CoordsOfIndex(n: nat, x: nat, y: nat)
    requires ValidSize(n) && x < n && y < n
    ensures CellIndex(n, x, y) < n * n
    ensures Col(n, CellIndex(n, x, y)) == x && Row(n, CellIndex(n, x, y)) == y
  {
    MulMonotone(y, n - 1, n);
    assert (n - 1) * n == n * n - n;
    DivModUnique(y * n + x, n, y, x);
  }

  /** Cell numbering is a bijection: index to coordinates and back. */
  lemma IndexOfCoords(n: nat, c: nat)
    requires ValidSize(n) && c < n * n
    ensures Col(n, c) < n && Row(n, c) < n
    ensures CellIndex(n, Col(n, c), Row(n, c)) == c
  {
    var q := c / n;
    assert c == q * n + c % n;
    if q >= n {
      MulMonotone(n, q, n);
    }
  }

  /** All cells of the board are numbered below n*n. */
  predicate InGrid(n: nat, cells: set<nat>)
  {
    forall c :: c in cells ==> c < n * n
  }

  /** The first k cell numbers. */
  function CellsBelow(k: nat): (r: set<nat>)
    ensures forall c: nat :: c in r <==> c < k
    ensures |r| == k
  {
    if k == 0 then {}
    else
      var rest := CellsBelow(k - 1);
      assert k - 1 !in rest;
      rest + {k - 1}
  }

  /** No cell lies below 0. */
  lemma BelowZero(cells: set<nat>)
    ensures |cells * CellsBelow(0)| == 0
  {
  }

  /** The members of S below k: those below k - 1, and k - 1 itself when it is in S. */
  lemma BelowNext(cells: set<nat>, k: nat)
    requires k > 0
    ensures |cells * CellsBelow(k)| == |cells * CellsBelow(k - 1)| + (if k - 1 in cells then 1 else 0)
  {
    var below := cells * CellsBelow(k - 1);
    var next := cells * CellsBelow(k);
    assert k - 1 !in below;
    if k - 1 in cells {
      assert next == below + {k - 1};
    } else {
      assert next == below;
    }
  }

  /** A pattern on the board has at most n*n filled cells. */
  lemma InGridSize(n: nat, cells: set<nat>)
    requires InGrid(n, cells)
    ensures |cells| <= n * n
  {
    var all := CellsBelow(n * n);
    assert all == cells + (all - cells);
    assert |all| == |cells| + |all - cells|;
  }

  /** The filled cells of state word w: the cells c < n*n with `isFilled(w, c)`. */
  function Cells(n: nat, w: nat): (r: set<nat>)
    ensures InGrid(n, r)
  {
    set c: nat | c < n * n && Bit(w, c)
  }

  /** The state word whose set bits are exactly the given cells. */
  function Encode(n: nat, cells: set<nat>): nat
  {
    Pack(cells, 0, n * n)
  }

  /** `1ULL << (g_n*g_n)` read mathematically: the number of states of the n*n board. */
  function TotalStates(n: nat): nat
  {
    Pow2(n * n)
  }

  /** Reading the cells back from an encoded pattern gives the pattern, and the word is a valid state. */
  lemma CellsOfEncode(n: nat, cells: set<nat>)
    requires InGrid(n, cells)
    ensures Encode(n, cells) < TotalStates(n)
    ensures Cells(n, Encode(n, cells)) == cells
  {
    forall c: nat
      ensures c in Cells(n, Encode(n, cells)) <==> c in cells
    {
      BitOfPack(cells, 0, n * n, c);
    }
  }

  /** Encoding the filled cells of a state below 2^(n*n) gives back the state. */
  lemma EncodeOfCells(n: nat, w: nat)
    requires w < TotalStates(n)
    ensures Encode(n, Cells(n, w)) == w
  {
    PackOfBits(Cells(n, w), 0, n * n, w);
  }

  /** The states 0 .. 2^(n*n)-1 are exactly the encodings of the patterns on the board, each once. */
  lemma StateSpaceIsAllPatterns(n: nat)
    ensures forall cells :: InGrid(n, cells) ==>
              Encode(n, cells) < TotalStates(n) && Cells(n, Encode(n, cells)) == cells
    ensures forall w :: 0 <= w < TotalStates(n) ==> Encode(n, Cells(n, w)) == w
  {
    forall cells | InGrid(n, cells)
      ensures Encode(n, cells) < TotalStates(n) && Cells(n, Encode(n, cells)) == cells
    {
      CellsOfEncode(n, cells);
    }
    forall w | 0 <= w < TotalStates(n)
      ensures Encode(n, Cells(n, w)) == w
    {
      EncodeOfCells(n, w);
    }
  }

  /** `fillCell` on a board cell adds that cell to the pattern and keeps a valid state valid. */
  lemma CellsOfFill(n: nat, w: nat, d: nat)
    requires d < n * n
    ensures Cells(n, FillCell(w, d)) == Cells(n, w) + {d}
    ensures w < TotalStates(n) ==> FillCell(w, d) < TotalStates(n)
  {
    if w < TotalStates(n) {
      forall j: nat | n * n <= j
        ensures !Bit(FillCell(w, d), j)
      {
        BitsAboveWidth(w, n * n, j);
      }
      BitsBelowWidth(FillCell(w, d), n * n);
    }
  }

  /** `unfillCell` on a board cell removes that cell from the pattern. */
  lemma CellsOfUnfill(n: nat, w: nat, d: nat)
    requires d < n * n
    ensures Cells(n, UnfillCell(w, d)) == Cells(n, w) - {d}
  {
  }

  /** The empty state word 0 has no filled cell. */
  lemma CellsOfZero(n: nat)
    ensures Cells(n, 0) == {}
  {
    forall c: nat
      ensures !Bit(0, c)
    {
      BitsAboveWidth(0, 0, c);
    }
  }

  /** The four neighbours `buildNeighborMasks` records for cell (x, y): up, down, left and right, each only when inside the board. */
  function NeighborsAt(n: nat, x: nat, y: nat): set<nat>
  {
    (if y > 0 then {CellIndex(n, x, y - 1)} else {})
    + (if y < n - 1 then {CellIndex(n, x, y + 1)} else {})
    + (if x > 0 then {CellIndex(n, x - 1, y)} else {})
    + (if x < n - 1 then {CellIndex(n, x + 1, y)} else {})
  }

  function Dist(u: nat, v: nat): nat
  {
    if u < v then v - u else u - v
  }

  /** Two board cells are orthogonally adjacent when their coordinates differ by one step in total. */
  predicate Adjacent(n: nat, a: nat, b: nat)
    requires n >= 1
  {
    a < n * n && b < n * n && Dist(Col(n, a), Col(n, b)) + Dist(Row(n, a), Row(n, b)) == 1
  }

  /** `neighborMask[c]`: the board cells adjacent to c (none for the unused entries c >= n*n). */
  function Neighbors(n: nat, c: nat): set<nat>
    requires n >= 1
  {
    set d: nat | d < n * n && Adjacent(n, c, d)
  }

  /** A cell adjacent to (x, y) is one of the four cells `buildNeighborMasks` records for it. */
  lemma AdjacentIsRecorded(n: nat, x: nat, y: nat, b: nat)
    requires ValidSize(n) && x < n && y < n
    requires Adjacent(n, CellIndex(n, x, y), b)
    ensures b in NeighborsAt(n, x, y)
  {
    CoordsOfIndex(n, x, y);
    IndexOfCoords(n, b);
    var bCol, bRow := Col(n, b), Row(n, b);
    if bCol == x {
      if bRow + 1 == y {
        assert b == CellIndex(n, x, y - 1);
      } else {
        assert b == CellIndex(n, x, y + 1);
      }
    } else {
      assert bRow == y;
      if bCol + 1 == x {
        assert b == CellIndex(n, x - 1, y);
      } else {
        assert b == CellIndex(n, x + 1, y);
      }
    }
  }

  /** The up/down/left/right cells recorded for (x, y) are exactly the cells adjacent to it. */
  lemma NeighborsAtAreAdjacent(n: nat, x: nat, y: nat)
    requires ValidSize(n) && x < n && y < n
    ensures NeighborsAt(n, x, y) == Neighbors(n, CellIndex(n, x, y))
  {
    var a := CellIndex(n, x, y);
    CoordsOfIndex(n, x, y);
    if y > 0 { CoordsOfIndex(n, x, y - 1); }
    if y < n - 1 { CoordsOfIndex(n, x, y + 1); }
    if x > 0 { CoordsOfIndex(n, x - 1, y); }
    if x < n - 1 { CoordsOfIndex(n, x + 1, y); }
    assert NeighborsAt(n, x, y) <= Neighbors(n, a);
    forall b: nat | b in Neighbors(n, a)
      ensures b in NeighborsAt(n, x, y)
    {
      AdjacentIsRecorded(n, x, y, b);
    }
  }

  /** A subset is no larger than its superset. */
  lemma SubsetSize(a: set<nat>, b: set<nat>)
    requires a <= b
    ensures |a| <= |b|
  {
    assert b == a + (b - a);
  }

  /** Four sets of at most one element each have at most four elements together. */
  lemma UnionOfFourSmall(up: set<nat>, down: set<nat>, left: set<nat>, right: set<nat>)
    requires |up| <= 1 && |down| <= 1 && |left| <= 1 && |right| <= 1
    ensures |up + down + left + right| <= 4
  {
    assert |up + down| <= |up| + |down|;
    assert |up + down + left| <= |up + down| + |left|;
    assert |up + down + left + right| <= |up + down + left| + |right|;
  }

  /** Every cell has at most four neighbours. */
  lemma NeighborsAtMostFour(n: nat, a: nat)
    requires ValidSize(n)
    ensures |Neighbors(n, a)| <= 4
  {
    if a < n * n {
      var x, y := Col(n, a), Row(n, a);
      IndexOfCoords(n, a);
      NeighborsAtAreAdjacent(n, x, y);
      UnionOfFourSmall(
        if y > 0 then {CellIndex(n, x, y - 1)} else {},
        if y < n - 1 then {CellIndex(n, x, y + 1)} else {},
        if x > 0 then {CellIndex(n, x - 1, y)} else {},
        if x < n - 1 then {CellIndex(n, x + 1, y)} else {});
    } else {
      assert Neighbors(n, a) == {};
    }
  }

  /** The body of `buildNeighborMasks` for cell (x, y): up, down, left and right when on the board. */
  method RecordCell(n: nat, x: nat, y: nat) returns (m: set<nat>)
    requires ValidSize(n) && x < n && y < n
    ensures m == Neighbors(n, CellIndex(n, x, y))
  {
    m := {};
    if y > 0 {
      m := m + {CellIndex(n, x, y - 1)};
    }
    if y < n - 1 {
      m := m + {CellIndex(n, x, y + 1)};
    }
    if x > 0 {
      m := m + {CellIndex(n, x - 1, y)};
    }
    if x < n - 1 {
      m := m + {CellIndex(n, x + 1, y)};
    }
    NeighborsAtAreAdjacent(n, x, y);
  }

  /** The inner loop of `buildNeighborMasks`: record the neighbours of the cells of row y. */
  method RecordRow(n: nat, y: nat, mask: seq<set<nat>>) returns (mask': seq<set<nat>>)
    requires ValidSize(n) && y < n && |mask| == 64
    requires forall c :: 0 <= c < 64 ==> mask[c] == if c < y * n then Neighbors(n, c) else {}
    ensures |mask'| == 64
    ensures forall c :: 0 <= c < 64 ==> mask'[c] == if c < (y + 1) * n then Neighbors(n, c) else {}
  {
    GridFitsWord(n);
    mask' := mask;
    var x := 0;
    while x < n
      invariant 0 <= x <= n && |mask'| == 64
      invariant forall c :: 0 <= c < 64 ==> mask'[c] == if c < y * n + x then Neighbors(n, c) else {}
    {
      var c := CellIndex(n, x, y);
      CoordsOfIndex(n, x, y);
      var m := RecordCell(n, x, y);
      mask' := mask'[c := m];
      x := x + 1;
    }
    assert y * n + n == (y + 1) * n;
  }

  /** Adjacency is symmetric and irreflexive, and stays on the board. */
  lemma NeighborsSymmetric(n: nat, a: nat, b: nat)
    requires ValidSize(n)
    ensures b in Neighbors(n, a) <==> a in Neighbors(n, b)
    ensures a !in Neighbors(n, a)
    ensures b in Neighbors(n, a) ==> a < n * n && b < n * n
  {
  }

  /** The contents of `neighborMask` once `buildNeighborMasks` has run: entry c holds the neighbours of c. */
  predicate IsNeighborTable(n: nat, mask: seq<set<nat>>)
    requires n >= 1
  {
    |mask| == 64 && forall c :: 0 <= c < 64 ==> mask[c] == Neighbors(n, c)
  }

  /** `buildNeighborMasks`: the 64-entry table, filled row by row, whose entry c holds the
      neighbours of cell c; the recorded relation is symmetric, irreflexive, stays on the
      board and gives each cell at most four neighbours. */
  method BuildNeighborMasks(n: nat) returns (mask: seq<set<nat>>)
    requires ValidSize(n)
    ensures IsNeighborTable(n, mask)
    ensures forall a, b :: 0 <= a < 64 && 0 <= b < 64 ==> (b in mask[a] <==> a in mask[b])
    ensures forall a :: 0 <= a < 64 ==> a !in mask[a]
    ensures forall a, b :: 0 <= a < 64 && b in mask[a] ==> a < n * n && b < n * n
    ensures forall a :: 0 <= a < 64 ==> |mask[a]| <= 4
  {
    GridFitsWord(n);
    mask := seq(64, _ => {});
    var y := 0;
    while y < n
      invariant 0 <= y <= n && |mask| == 64
      invariant forall c :: 0 <= c < 64 ==> mask[c] == if c < y * n then Neighbors(n, c) else {}
    {
      mask := RecordRow(n, y, mask);
      y := y + 1;
    }
    assert forall c :: 0 <= c < 64 ==> mask[c] == Neighbors(n, c);
    forall a, b | 0 <= a < 64 && 0 <= b < 64
      ensures b in mask[a] <==> a in mask[b]
      ensures a !in mask[a]
      ensures b in mask[a] ==> a < n * n && b < n * n
      ensures |mask[a]| <= 4
    {
      NeighborsSymmetric(n, a, b);
      NeighborsAtMostFour(n, a);
    }
  }
}
