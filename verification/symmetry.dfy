/** The eight symmetries of the square board (simple.c): the seven explicit
    transforms `rotate90` ... `reflectAntiDiag` plus the identity, their group
    laws, the fact that the percolation process commutes with them, and
    `getCanonicalRep`, the numerically smallest of the eight images. */
module Symmetry {
  import opened Word
  import opened Grid
  import opened Simulation

  /** The identity and the seven transforms of simple.c, in the order `getCanonicalRep` lists them. */
  datatype Transform =
    | Identity
    | Rotate90
    | Rotate180
    | Rotate270
    | ReflectHorizontal
    | ReflectVertical
    | ReflectMainDiag
    | ReflectAntiDiag

  /** Where a transform sends cell (x, y): the (newX, newY) each transform computes. */
  function MapXY(n: nat, t: Transform, x: nat, y: nat): (p: (nat, nat))
    requires x < n && y < n
    ensures p.0 < n && p.1 < n
  {
    match t
    case Identity => (x, y)
    case Rotate90 => (n - 1 - y, x)
    case Rotate180 => (n - 1 - x, n - 1 - y)
    case Rotate270 => (y, n - 1 - x)
    case ReflectHorizontal => (x, n - 1 - y)
    case ReflectVertical => (n - 1 - x, y)
    case ReflectMainDiag => (y, x)
    case ReflectAntiDiag => (n - 1 - y, n - 1 - x)
  }

  /** Every symmetry of the square is an optional swap of the coordinates followed by
      optional flips of each axis; this normal form makes composition easy to compute. */
  datatype Frame = Frame(swap: bool, flipX: bool, flipY: bool)

  function FrameOf(t: Transform): Frame
  {
    match t
    case Identity => Frame(false, false, false)
    case Rotate90 => Frame(true, true, false)
    case Rotate180 => Frame(false, true, true)
    case Rotate270 => Frame(true, false, true)
    case ReflectHorizontal => Frame(false, false, true)
    case ReflectVertical => Frame(false, true, false)
    case ReflectMainDiag => Frame(true, false, false)
    case ReflectAntiDiag => Frame(true, true, true)
  }

  function FromFrame(f: Frame): Transform
  {
    if !f.swap then
      if !f.flipX then (if !f.flipY then Identity else ReflectHorizontal)
      else (if !f.flipY then ReflectVertical else Rotate180)
    else
      if !f.flipX then (if !f.flipY then ReflectMainDiag else Rotate270)
      else (if !f.flipY then Rotate90 else ReflectAntiDiag)
  }

  function MapFrame(n: nat, f: Frame, x: nat, y: nat): (p: (nat, nat))
    requires x < n && y < n
    ensures p.0 < n && p.1 < n
  {
    var u := if f.swap then y else x;
    var v := if f.swap then x else y;
    (if f.flipX then n - 1 - u else u, if f.flipY then n - 1 - v else v)
  }

  /** The frame of "f after g". */
  function ComposeFrames(f: Frame, g: Frame): Frame
  {
    Frame(f.swap != g.swap,
          f.flipX != (if f.swap then g.flipY else g.flipX),
          f.flipY != (if f.swap then g.flipX else g.flipY))
  }

  /** The transform "a after b". */
  function Compose(a: Transform, b: Transform): Transform
  {
    FromFrame(ComposeFrames(FrameOf(a), FrameOf(b)))
  }

  /** The transform that undoes t: the two quarter turns undo each other, every other transform undoes itself. */
  function Inverse(t: Transform): Transform
  {
    match t
    case Rotate90 => Rotate270
    case Rotate270 => Rotate90
    case _ => t
  }

  lemma MapXYByFrame(n: nat, t: Transform, x: nat, y: nat)
    requires x < n && y < n
    ensures MapXY(n, t, x, y) == MapFrame(n, FrameOf(t), x, y)
  {
    match t
    case Identity =>
    case Rotate90 =>
    case Rotate180 =>
    case Rotate270 =>
    case ReflectHorizontal =>
    case ReflectVertical =>
    case ReflectMainDiag =>
    case ReflectAntiDiag =>
  }

  lemma FrameRoundTrip(f: Frame)
    ensures FrameOf(FromFrame(f)) == f
  {
  }

  lemma ComposeFramesMap(n: nat, f: Frame, g: Frame, x: nat, y: nat)
    requires x < n && y < n
    ensures var p := MapFrame(n, g, x, y);
            MapFrame(n, ComposeFrames(f, g), x, y) == MapFrame(n, f, p.0, p.1)
  {
  }

  /** Composition on transforms agrees with composition of the coordinate maps. */
  lemma ComposeMapXY(n: nat, a: Transform, b: Transform, x: nat, y: nat)
    requires x < n && y < n
    ensures var p := MapXY(n, b, x, y);
            MapXY(n, Compose(a, b), x, y) == MapXY(n, a, p.0, p.1)
  {
    var p := MapXY(n, b, x, y);
    var f := ComposeFrames(FrameOf(a), FrameOf(b));
    FrameRoundTrip(f);
    MapXYByFrame(n, Compose(a, b), x, y);
    MapXYByFrame(n, b, x, y);
    MapXYByFrame(n, a, p.0, p.1);
    ComposeFramesMap(n, FrameOf(a), FrameOf(b), x, y);
  }

  /** Inverse(t) undoes t on every cell. */
  lemma InverseMapXY(n: nat, t: Transform, x: nat, y: nat)
    requires x < n && y < n
    ensures var p := MapXY(n, t, x, y);
            MapXY(n, Inverse(t), p.0, p.1) == (x, y)
  {
    match t
    case Identity =>
    case Rotate90 =>
    case Rotate180 =>
    case Rotate270 =>
    case ReflectHorizontal =>
    case ReflectVertical =>
    case ReflectMainDiag =>
    case ReflectAntiDiag =>
  }

  /** Every transform keeps the distance between two cells along the axes. */
  lemma MapXYKeepsDistance(n: nat, t: Transform, x1: nat, y1: nat, x2: nat, y2: nat)
    requires x1 < n && y1 < n && x2 < n && y2 < n
    ensures var p, q := MapXY(n, t, x1, y1), MapXY(n, t, x2, y2);
            Dist(p.0, q.0) + Dist(p.1, q.1) == Dist(x1, x2) + Dist(y1, y2)
  {
    MapXYByFrame(n, t, x1, y1);
    MapXYByFrame(n, t, x2, y2);
  }

  /** The cell number that transform t gives cell c: `cellIndex(newX, newY)`. */
  function MapCell(n: nat, t: Transform, c: nat): (d: nat)
    requires ValidSize(n) && c < n * n
    ensures d < n * n
  {
    IndexOfCoords(n, c);
    var p := MapXY(n, t, Col(n, c), Row(n, c));
    CoordsOfIndex(n, p.0, p.1);
    CellIndex(n, p.0, p.1)
  }

  lemma MapCellCoords(n: nat, t: Transform, c: nat)
    requires ValidSize(n) && c < n * n
    ensures Col(n, c) < n && Row(n, c) < n
    ensures MapXY(n, t, Col(n, c), Row(n, c)) == (Col(n, MapCell(n, t, c)), Row(n, MapCell(n, t, c)))
  {
    IndexOfCoords(n, c);
    var p := MapXY(n, t, Col(n, c), Row(n, c));
    CoordsOfIndex(n, p.0, p.1);
  }

  /** Moving a cell by b and then by a is moving it by Compose(a, b). */
  lemma MapCellCompose(n: nat, a: Transform, b: Transform, c: nat)
    requires ValidSize(n) && c < n * n
    ensures MapCell(n, a, MapCell(n, b, c)) == MapCell(n, Compose(a, b), c)
  {
    MapCellCoords(n, b, c);
    MapCellCoords(n, a, MapCell(n, b, c));
    ComposeMapXY(n, a, b, Col(n, c), Row(n, c));
  }

  /** Inverse(t) moves every cell back to where t took it from. */
  lemma MapCellInverse(n: nat, t: Transform, c: nat)
    requires ValidSize(n) && c < n * n
    ensures MapCell(n, Inverse(t), MapCell(n, t, c)) == c
  {
    MapCellCoords(n, t, c);
    MapCellCoords(n, Inverse(t), MapCell(n, t, c));
    InverseMapXY(n, t, Col(n, c), Row(n, c));
    IndexOfCoords(n, c);
  }

  /** t also undoes Inverse(t). */
  lemma MapCellInverseOf(n: nat, t: Transform, d: nat)
    requires ValidSize(n) && d < n * n
    ensures MapCell(n, t, MapCell(n, Inverse(t), d)) == d
  {
    assert Inverse(Inverse(t)) == t;
    MapCellInverse(n, Inverse(t), d);
  }

  /** Transforms keep adjacency in both directions, so they map the neighbour relation onto itself. */
  lemma MapCellAdjacent(n: nat, t: Transform, a: nat, b: nat)
    requires ValidSize(n) && a < n * n && b < n * n
    ensures Adjacent(n, MapCell(n, t, a), MapCell(n, t, b)) <==> Adjacent(n, a, b)
  {
    MapCellCoords(n, t, a);
    MapCellCoords(n, t, b);
    MapXYKeepsDistance(n, t, Col(n, a), Row(n, a), Col(n, b), Row(n, b));
  }

  /** The image of a set of cells under transform t. */
  function Image(n: nat, t: Transform, cells: set<nat>): (r: set<nat>)
    requires ValidSize(n)
    ensures InGrid(n, r)
  {
    set c | c in cells && c < n * n :: MapCell(n, t, c)
  }

  /** A board cell is in the image of a set exactly when it came from a member of the set. */
  lemma ImageMember(n: nat, t: Transform, cells: set<nat>, c: nat)
    requires ValidSize(n) && c < n * n
    ensures MapCell(n, t, c) in Image(n, t, cells) <==> c in cells
  {
    if MapCell(n, t, c) in Image(n, t, cells) {
      var e :| e in cells && e < n * n && MapCell(n, t, e) == MapCell(n, t, c);
      MapCellInverse(n, t, e);
      MapCellInverse(n, t, c);
    }
  }

  /** Every board cell d is in the image of cells exactly when its preimage is in cells. */
  lemma ImageMemberInverse(n: nat, t: Transform, cells: set<nat>, d: nat)
    requires ValidSize(n) && d < n * n
    ensures d in Image(n, t, cells) <==> MapCell(n, Inverse(t), d) in cells
  {
    var c := MapCell(n, Inverse(t), d);
    MapCellInverseOf(n, t, d);
    ImageMember(n, t, cells, c);
  }

  /** Transforms are one-to-one on cells, so the image of a pattern has as many cells as the pattern. */
  lemma {:induction false} ImageSize(n: nat, t: Transform, cells: set<nat>)
    requires ValidSize(n) && InGrid(n, cells)
    ensures |Image(n, t, cells)| == |cells|
    decreases |cells|
  {
    if cells != {} {
      var c :| c in cells;
      var rest := cells - {c};
      ImageSize(n, t, rest);
      ImageMember(n, t, rest, c);
      assert Image(n, t, cells) == Image(n, t, rest) + {MapCell(n, t, c)};
    }
  }

  /** A cell of the pattern, moved by Compose(a, b), lands in the pattern moved by b and then by a. */
  lemma ImageComposeMember(n: nat, a: Transform, b: Transform, cells: set<nat>, c: nat)
    requires ValidSize(n) && c in cells && c < n * n
    ensures MapCell(n, Compose(a, b), c) in Image(n, a, Image(n, b, cells))
  {
    MapCellCompose(n, a, b, c);
    ImageMember(n, b, cells, c);
    ImageMember(n, a, Image(n, b, cells), MapCell(n, b, c));
  }

  /** Moving a pattern by b and then by a is moving it by Compose(a, b). */
  lemma ImageCompose(n: nat, a: Transform, b: Transform, cells: set<nat>)
    requires ValidSize(n) && InGrid(n, cells)
    ensures Image(n, a, Image(n, b, cells)) == Image(n, Compose(a, b), cells)
  {
    var lhs, rhs := Image(n, a, Image(n, b, cells)), Image(n, Compose(a, b), cells);
    forall c | c in cells
      ensures MapCell(n, Compose(a, b), c) in lhs
    {
      ImageComposeMember(n, a, b, cells, c);
    }
    forall d | d in lhs
      ensures d in rhs
    {
      var e :| e in Image(n, b, cells) && e < n * n && MapCell(n, a, e) == d;
      var c :| c in cells && c < n * n && MapCell(n, b, c) == e;
      MapCellCompose(n, a, b, c);
    }
  }

  /** The identity leaves every pattern on the board where it is. */
  lemma ImageIdentity(n: nat, cells: set<nat>)
    requires ValidSize(n) && InGrid(n, cells)
    ensures Image(n, Identity, cells) == cells
  {
    forall c | c in cells
      ensures c in Image(n, Identity, cells)
    {
      MapCellCoords(n, Identity, c);
      IndexOfCoords(n, c);
      IndexOfCoords(n, MapCell(n, Identity, c));
      assert MapCell(n, Identity, c) == c;
    }
    forall d | d in Image(n, Identity, cells)
      ensures d in cells
    {
      var c :| c in cells && c < n * n && MapCell(n, Identity, c) == d;
      MapCellCoords(n, Identity, c);
      IndexOfCoords(n, c);
      IndexOfCoords(n, d);
    }
  }

  /** Moving a pattern by t and then by Inverse(t) gives back the pattern. */
  lemma ImageInverse(n: nat, t: Transform, cells: set<nat>)
    requires ValidSize(n) && InGrid(n, cells)
    ensures Image(n, Inverse(t), Image(n, t, cells)) == cells
  {
    forall d | d in Image(n, Inverse(t), Image(n, t, cells))
      ensures d in cells
    {
      var e :| e in Image(n, t, cells) && e < n * n && MapCell(n, Inverse(t), e) == d;
      var c :| c in cells && c < n * n && MapCell(n, t, c) == e;
      MapCellInverse(n, t, c);
    }
    forall c | c in cells
      ensures c in Image(n, Inverse(t), Image(n, t, cells))
    {
      MapCellInverse(n, t, c);
      assert MapCell(n, t, c) in Image(n, t, cells);
    }
  }

  /** The word built by the transform loops after visiting the first k cells in index order:
      starting from 0, the image of every filled cell visited so far is filled. */
  function TransformBelow(n: nat, t: Transform, w: nat, k: nat): (r: nat)
    requires ValidSize(n) && k <= n * n
    ensures r < TotalStates(n)
    decreases k
  {
    if k == 0 then
      CellsOfZero(n);
      Pow2Monotone(0, n * n);
      0
    else
      var acc := TransformBelow(n, t, w, k - 1);
      if Bit(w, k - 1) then
        CellsOfFill(n, acc, MapCell(n, t, k - 1));
        FillCell(acc, MapCell(n, t, k - 1))
      else acc
  }

  /** `rotate90`, `rotate180`, ..., `reflectAntiDiag` on a state word: the loop over all n*n cells. */
  function TransformState(n: nat, t: Transform, w: nat): (r: nat)
    requires ValidSize(n)
    ensures r < TotalStates(n)
  {
    TransformBelow(n, t, w, n * n)
  }

  /** Adding one board cell to a pattern adds its image to the image. */
  lemma ImageAddCell(n: nat, t: Transform, cells: set<nat>, c: nat)
    requires ValidSize(n) && c < n * n
    ensures Image(n, t, cells + {c}) == Image(n, t, cells) + {MapCell(n, t, c)}
  {
  }

  /** The loop invariant of the transforms: `out` holds the images of the filled cells among the first k. */
  predicate Visited(n: nat, t: Transform, state: nat, out: nat, k: nat)
    requires ValidSize(n)
  {
    out < TotalStates(n) && Cells(n, out) == Image(n, t, Cells(n, state) * CellsBelow(k))
  }

  /** One visit of the transform loop: the image of cell c is filled exactly when c is. */
  lemma TransformVisit(n: nat, t: Transform, state: nat, out: nat, c: nat)
    requires ValidSize(n) && c < n * n && out < TotalStates(n)
    requires Visited(n, t, state, out, c)
    ensures Bit(state, c) ==> Visited(n, t, state, FillCell(out, MapCell(n, t, c)), c + 1)
    ensures !Bit(state, c) ==> Visited(n, t, state, out, c + 1)
  {
    var seen := Cells(n, state) * CellsBelow(c);
    if Bit(state, c) {
      CellsOfFill(n, out, MapCell(n, t, c));
      assert Cells(n, state) * CellsBelow(c + 1) == seen + {c};
      ImageAddCell(n, t, seen, c);
    } else {
      assert Cells(n, state) * CellsBelow(c + 1) == seen;
    }
  }

  /** After k cells the loop has filled exactly the images of the filled cells among them. */
  lemma {:induction false} TransformBelowCells(n: nat, t: Transform, w: nat, k: nat)
    requires ValidSize(n) && k <= n * n
    ensures Visited(n, t, w, TransformBelow(n, t, w, k), k)
    decreases k
  {
    if k == 0 {
      CellsOfZero(n);
      assert Cells(n, w) * CellsBelow(0) == {};
    } else {
      TransformBelowCells(n, t, w, k - 1);
      TransformVisit(n, t, w, TransformBelow(n, t, w, k - 1), k - 1);
    }
  }

  /** A transformed state holds exactly the images of the filled cells of the original. */
  lemma TransformStateCells(n: nat, t: Transform, w: nat)
    requires ValidSize(n)
    ensures Cells(n, TransformState(n, t, w)) == Image(n, t, Cells(n, w))
  {
    TransformBelowCells(n, t, w, n * n);
    assert Cells(n, w) * CellsBelow(n * n) == Cells(n, w);
  }

  /** Two valid states with the same filled cells are the same state. */
  lemma SameCellsSameState(n: nat, v: nat, w: nat)
    requires v < TotalStates(n) && w < TotalStates(n) && Cells(n, v) == Cells(n, w)
    ensures v == w
  {
    EncodeOfCells(n, v);
    EncodeOfCells(n, w);
  }

  /** A transform keeps the number of filled cells (`popcount64`) of a state. */
  lemma TransformKeepsCount(n: nat, t: Transform, w: nat)
    requires ValidSize(n)
    ensures |Cells(n, TransformState(n, t, w))| == |Cells(n, w)|
  {
    TransformStateCells(n, t, w);
    ImageSize(n, t, Cells(n, w));
  }

  /** The cell number of the image of (x, y) is `cellIndex(newX, newY)`, and the cell after (x, y)
      in index order is the next one on its row. */
  lemma MapCellOfCoords(n: nat, t: Transform, x: nat, y: nat)
    requires ValidSize(n) && x < n && y < n
    ensures CellIndex(n, x, y) < n * n
    ensures var p := MapXY(n, t, x, y);
            MapCell(n, t, CellIndex(n, x, y)) == CellIndex(n, p.0, p.1)
    ensures CellIndex(n, x, y) + 1 == y * n + (x + 1)
  {
    CoordsOfIndex(n, x, y);
  }

  /** Row y of the board ends at or before the last cell. */
  lemma RowEnd(n: nat, y: nat)
    requires y < n
    ensures y * n + n == (y + 1) * n <= n * n
  {
    MulMonotone(y + 1, n, n);
  }

  /** One more visited cell adds its image when the cell is filled. */
  lemma TransformBelowNext(n: nat, t: Transform, w: nat, k: nat)
    requires ValidSize(n) && k < n * n
    ensures TransformBelow(n, t, w, k + 1)
            == if Bit(w, k) then FillCell(TransformBelow(n, t, w, k), MapCell(n, t, k)) else TransformBelow(n, t, w, k)
  {
  }

  /** The inner loop of the transforms: the cells of row y, left to right. */
  method TransformRow(n: nat, t: Transform, state: nat, y: nat, out: nat) returns (out': nat)
    requires ValidSize(n) && y < n
    requires y * n <= n * n && out == TransformBelow(n, t, state, y * n)
    ensures (y + 1) * n <= n * n && out' == TransformBelow(n, t, state, (y + 1) * n)
  {
    RowEnd(n, y);
    out' := out;
    var x := 0;
    while x < n
      invariant 0 <= x <= n
      invariant y * n + x <= n * n
      invariant out' == TransformBelow(n, t, state, y * n + x)
    {
      var oldPos := CellIndex(n, x, y);
      MapCellOfCoords(n, t, x, y);
      TransformBelowNext(n, t, state, oldPos);
      if Bit(state, oldPos) {
        var p := MapXY(n, t, x, y);
        var newPos := CellIndex(n, p.0, p.1);
        out' := FillCell(out', newPos);
      }
      x := x + 1;
    }
  }

  /** `rotate90` ... `reflectAntiDiag`: visit the cells row by row and fill the image of every
      filled cell in a word that starts empty. */
  method ApplyTransform(n: nat, t: Transform, state: nat) returns (out: nat)
    requires ValidSize(n)
    ensures out == TransformState(n, t, state)
  {
    out := 0;
    var y := 0;
    while y < n
      invariant 0 <= y <= n
      invariant y * n <= n * n
      invariant out == TransformBelow(n, t, state, y * n)
    {
      out := TransformRow(n, t, state, y, out);
      y := y + 1;
    }
  }

  /** Two transforms that move every filled cell of w to the same place give the same state. */
  lemma TransformsAgree(n: nat, a: Transform, b: Transform, w: nat)
    requires ValidSize(n)
    requires forall c :: c in Cells(n, w) ==> MapCell(n, a, c) == MapCell(n, b, c)
    ensures TransformState(n, a, w) == TransformState(n, b, w)
  {
    TransformStateCells(n, a, w);
    TransformStateCells(n, b, w);
    assert Image(n, a, Cells(n, w)) == Image(n, b, Cells(n, w));
    SameCellsSameState(n, TransformState(n, a, w), TransformState(n, b, w));
  }

  /** Applying b and then a to a state is applying Compose(a, b). */
  lemma TransformCompose(n: nat, a: Transform, b: Transform, w: nat)
    requires ValidSize(n)
    ensures TransformState(n, a, TransformState(n, b, w)) == TransformState(n, Compose(a, b), w)
  {
    TransformStateCells(n, b, w);
    TransformStateCells(n, a, TransformState(n, b, w));
    TransformStateCells(n, Compose(a, b), w);
    ImageCompose(n, a, b, Cells(n, w));
    SameCellsSameState(n, TransformState(n, a, TransformState(n, b, w)), TransformState(n, Compose(a, b), w));
  }

  /** The identity transform leaves every state below 2^(n*n) unchanged. */
  lemma TransformIdentity(n: nat, w: nat)
    requires ValidSize(n) && w < TotalStates(n)
    ensures TransformState(n, Identity, w) == w
  {
    TransformStateCells(n, Identity, w);
    ImageIdentity(n, Cells(n, w));
    SameCellsSameState(n, TransformState(n, Identity, w), w);
  }

  /** `rotate90` and `rotate270` undo each other. */
  lemma RotationsInverse(n: nat, w: nat)
    requires ValidSize(n) && w < TotalStates(n)
    ensures TransformState(n, Rotate90, TransformState(n, Rotate270, w)) == w
    ensures TransformState(n, Rotate270, TransformState(n, Rotate90, w)) == w
  {
    TransformCompose(n, Rotate90, Rotate270, w);
    TransformCompose(n, Rotate270, Rotate90, w);
    assert Compose(Rotate90, Rotate270) == Identity;
    assert Compose(Rotate270, Rotate90) == Identity;
    TransformIdentity(n, w);
  }

  /** Two quarter turns make a half turn. */
  lemma Rotate90Twice(n: nat, w: nat)
    requires ValidSize(n)
    ensures TransformState(n, Rotate90, TransformState(n, Rotate90, w)) == TransformState(n, Rotate180, w)
  {
    TransformCompose(n, Rotate90, Rotate90, w);
    assert Compose(Rotate90, Rotate90) == Rotate180;
  }

  /** The four reflections are involutions. */
  lemma ReflectionsInvolutive(n: nat, w: nat)
    requires ValidSize(n) && w < TotalStates(n)
    ensures TransformState(n, ReflectHorizontal, TransformState(n, ReflectHorizontal, w)) == w
    ensures TransformState(n, ReflectVertical, TransformState(n, ReflectVertical, w)) == w
    ensures TransformState(n, ReflectMainDiag, TransformState(n, ReflectMainDiag, w)) == w
    ensures TransformState(n, ReflectAntiDiag, TransformState(n, ReflectAntiDiag, w)) == w
  {
    TransformCompose(n, ReflectHorizontal, ReflectHorizontal, w);
    TransformCompose(n, ReflectVertical, ReflectVertical, w);
    TransformCompose(n, ReflectMainDiag, ReflectMainDiag, w);
    TransformCompose(n, ReflectAntiDiag, ReflectAntiDiag, w);
    assert Compose(ReflectHorizontal, ReflectHorizontal) == Identity;
    assert Compose(ReflectVertical, ReflectVertical) == Identity;
    assert Compose(ReflectMainDiag, ReflectMainDiag) == Identity;
    assert Compose(ReflectAntiDiag, ReflectAntiDiag) == Identity;
    TransformIdentity(n, w);
  }

  /** The neighbours of a moved cell are the moved neighbours of the cell. */
  lemma NeighborsImage(n: nat, t: Transform, c: nat)
    requires ValidSize(n) && c < n * n
    ensures Neighbors(n, MapCell(n, t, c)) == Image(n, t, Neighbors(n, c))
  {
    forall d: nat | d < n * n
      ensures d in Neighbors(n, MapCell(n, t, c)) <==> d in Image(n, t, Neighbors(n, c))
    {
      var e := MapCell(n, Inverse(t), d);
      MapCellInverseOf(n, t, d);
      MapCellAdjacent(n, t, c, e);
      ImageMember(n, t, Neighbors(n, c), e);
    }
  }

  /** Moving a pattern never changes how many filled neighbours a (moved) cell has. */
  lemma FilledNeighborsImage(n: nat, t: Transform, cells: set<nat>, c: nat)
    requires ValidSize(n) && InGrid(n, cells) && c < n * n
    ensures FilledNeighbors(n, Image(n, t, cells), MapCell(n, t, c)) == FilledNeighbors(n, cells, c)
  {
    var nb := Neighbors(n, c);
    var moved := Image(n, t, cells);
    NeighborsImage(n, t, c);
    CountCommonIsSize(moved, Image(n, t, nb), n * n);
    CountCommonIsSize(cells, nb, n * n);
    assert moved * Image(n, t, nb) * CellsBelow(n * n) == Image(n, t, cells * nb) by {
      forall d | d in Image(n, t, cells * nb)
        ensures d in moved && d in Image(n, t, nb)
      {
        var e :| e in cells * nb && e < n * n && MapCell(n, t, e) == d;
        ImageMember(n, t, cells, e);
        ImageMember(n, t, nb, e);
      }
      forall d | d in moved * Image(n, t, nb)
        ensures d in Image(n, t, cells * nb)
      {
        ImageMemberInverse(n, t, cells, d);
        ImageMemberInverse(n, t, nb, d);
        ImageMemberInverse(n, t, cells * nb, d);
      }
    }
    assert cells * nb * CellsBelow(n * n) == cells * nb;
    ImageSize(n, t, cells * nb);
  }

  /** The percolation round commutes with every transform. */
  lemma StepImage(n: nat, t: Transform, cells: set<nat>)
    requires ValidSize(n) && InGrid(n, cells)
    ensures Step(n, Image(n, t, cells)) == Image(n, t, Step(n, cells))
  {
    var moved := Image(n, t, cells);
    forall d: nat | d < n * n
      ensures d in Step(n, moved) <==> d in Image(n, t, Step(n, cells))
    {
      var c := MapCell(n, Inverse(t), d);
      MapCellInverseOf(n, t, d);
      ImageMember(n, t, cells, c);
      ImageMember(n, t, Step(n, cells), c);
      FilledNeighborsImage(n, t, cells, c);
    }
  }

  /** Moving a pattern does not change how many rounds it takes to stabilise. */
  lemma {:induction false} LengthImage(n: nat, t: Transform, cells: set<nat>)
    requires ValidSize(n) && InGrid(n, cells)
    ensures Length(n, Image(n, t, cells)) == Length(n, cells)
    decreases Length(n, cells)
  {
    var moved := Image(n, t, cells);
    var next := Step(n, cells);
    StepImage(n, t, cells);
    if next == cells {
      assert Step(n, moved) == moved;
    } else {
      ImageInverse(n, t, cells);
      ImageInverse(n, t, next);
      assert Step(n, moved) != moved;
      LengthImage(n, t, next);
    }
  }

  /** `compute_length` gives the same value for a state and for each of its transforms. */
  lemma StateLengthTransform(n: nat, t: Transform, w: nat)
    requires ValidSize(n)
    ensures StateLength(n, TransformState(n, t, w)) == StateLength(n, w)
  {
    TransformStateCells(n, t, w);
    LengthImage(n, t, Cells(n, w));
  }

  /** The array `t[0..7]` of `getCanonicalRep`: the state itself and its seven transforms. */
  function Images(n: nat, w: nat): (images: seq<nat>)
    requires ValidSize(n)
    ensures |images| == 8 && images[0] == w
    ensures forall i :: 1 <= i < |images| ==> images[i] < TotalStates(n)
  {
    [w,
     TransformState(n, Rotate90, w),
     TransformState(n, Rotate180, w),
     TransformState(n, Rotate270, w),
     TransformState(n, ReflectHorizontal, w),
     TransformState(n, ReflectVertical, w),
     TransformState(n, ReflectMainDiag, w),
     TransformState(n, ReflectAntiDiag, w)]
  }

  /** The minimum as the loop of `getCanonicalRep` in simple.c finds it: keep the first entry, replace it by any later entry that is strictly smaller. */
  function MinOf(s: seq<nat>): (r: nat)
    requires |s| > 0
    ensures r in s
    ensures forall i :: 0 <= i < |s| ==> r <= s[i]
  {
    if |s| == 1 then s[0]
    else
      var m := MinOf(s[..|s| - 1]);
      if s[|s| - 1] < m then s[|s| - 1] else m
  }

  /** Two lists with the same entries have the same minimum. */
  lemma MinOfSameEntries(s1: seq<nat>, s2: seq<nat>)
    requires |s1| > 0 && |s2| > 0
    requires forall v :: v in s1 <==> v in s2
    ensures MinOf(s1) == MinOf(s2)
  {
    var m1, m2 := MinOf(s1), MinOf(s2);
    assert m1 in s2 && m2 in s1;
  }

  /** `getCanonicalRep`: the numerically smallest of the eight images, which is one of them and at most the state itself. */
  function CanonicalRep(n: nat, w: nat): (r: nat)
    requires ValidSize(n)
    ensures r in Images(n, w)
    ensures r <= w
    ensures forall v :: v in Images(n, w) ==> r <= v
  {
    var images := Images(n, w);
    assert images[0] == w;
    MinOf(images)
  }

  /** A state the pruned scan keeps: its own canonical representative. */
  predicate IsCanonical(n: nat, w: nat)
    requires ValidSize(n)
  {
    CanonicalRep(n, w) == w
  }

  /** Every transform of a valid state is among its eight images. */
  lemma TransformInImages(n: nat, t: Transform, w: nat)
    requires ValidSize(n) && w < TotalStates(n)
    ensures TransformState(n, t, w) in Images(n, w)
  {
    if t == Identity {
      TransformIdentity(n, w);
    }
    assert TransformState(n, t, w) == Images(n, w)[match t
      case Identity => 0 case Rotate90 => 1 case Rotate180 => 2 case Rotate270 => 3
      case ReflectHorizontal => 4 case ReflectVertical => 5 case ReflectMainDiag => 6 case ReflectAntiDiag => 7];
  }

  /** Every one of the eight images of a valid state is a transform of it. */
  lemma ImagesAreTransforms(n: nat, w: nat, v: nat)
    requires ValidSize(n) && w < TotalStates(n)
    requires v in Images(n, w)
    ensures exists t :: v == TransformState(n, t, w)
  {
    if v == w {
      TransformIdentity(n, w);
      assert v == TransformState(n, Identity, w);
    }
  }

  /** A transformed state has the same eight images as the original. */
  lemma ImagesOfTransform(n: nat, t: Transform, w: nat)
    requires ValidSize(n) && w < TotalStates(n)
    ensures forall v :: v in Images(n, TransformState(n, t, w)) <==> v in Images(n, w)
  {
    var w' := TransformState(n, t, w);
    forall v | v in Images(n, w')
      ensures v in Images(n, w)
    {
      ImagesAreTransforms(n, w', v);
      var u :| v == TransformState(n, u, w');
      TransformCompose(n, u, t, w);
      TransformInImages(n, Compose(u, t), w);
    }
    forall v | v in Images(n, w)
      ensures v in Images(n, w')
    {
      ImagesAreTransforms(n, w, v);
      var u :| v == TransformState(n, u, w);
      var undo := Compose(u, Inverse(t));
      TransformCompose(n, undo, t, w);
      forall c | c in Cells(n, w)
        ensures MapCell(n, Compose(undo, t), c) == MapCell(n, u, c)
      {
        MapCellCompose(n, undo, t, c);
        MapCellCompose(n, u, Inverse(t), MapCell(n, t, c));
        MapCellInverse(n, t, c);
      }
      TransformsAgree(n, Compose(undo, t), u, w);
      TransformInImages(n, undo, w');
    }
  }

  /** `getCanonicalRep` gives the same result for a state and for each of its transforms. */
  lemma CanonicalInvariant(n: nat, t: Transform, w: nat)
    requires ValidSize(n) && w < TotalStates(n)
    ensures CanonicalRep(n, TransformState(n, t, w)) == CanonicalRep(n, w)
  {
    ImagesOfTransform(n, t, w);
    MinOfSameEntries(Images(n, TransformState(n, t, w)), Images(n, w));
  }

  /** `getCanonicalRep` is idempotent: the representative is canonical. */
  lemma CanonicalIdempotent(n: nat, w: nat)
    requires ValidSize(n) && w < TotalStates(n)
    ensures IsCanonical(n, CanonicalRep(n, w))
  {
    ImagesAreTransforms(n, w, CanonicalRep(n, w));
    var t :| CanonicalRep(n, w) == TransformState(n, t, w);
    CanonicalInvariant(n, t, w);
  }

  /** The representative is a valid state with the same length as the state it stands for. */
  lemma CanonicalLength(n: nat, w: nat)
    requires ValidSize(n) && w < TotalStates(n)
    ensures CanonicalRep(n, w) < TotalStates(n)
    ensures StateLength(n, CanonicalRep(n, w)) == StateLength(n, w)
  {
    ImagesAreTransforms(n, w, CanonicalRep(n, w));
    var t :| CanonicalRep(n, w) == TransformState(n, t, w);
    StateLengthTransform(n, t, w);
  }
}
