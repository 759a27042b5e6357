/** The search of marco.c: instead of every state, `recurse` tries every way of
    filling at most `depth` further cells, each after the previous one in index
    order, and reports the largest `compute_length` it meets. Started on the empty
    board with depth n + 2, it finds the longest percolation time among the
    patterns with at most n + 2 filled cells. */
module Backtrack {
  import opened Word
  import opened Grid
  import opened Simulation

  /** The cells one branch of `recurse(state, i, depth)` fills: at most `depth` board cells,
      all after cell i, in strictly increasing order. */
  predicate Choice(n: nat, i: int, depth: nat, js: seq<nat>)
  {
    && |js| <= depth
    && (forall k :: 0 <= k < |js| ==> i < js[k] < n * n)
    && (forall k, l :: 0 <= k < l < |js| ==> js[k] < js[l])
  }

  /** The state after `fillCell` on each cell of js in turn. */
  function FillAll(w: nat, js: seq<nat>): nat
    decreases |js|
  {
    if |js| == 0 then w else FillAll(FillCell(w, js[0]), js[1..])
  }

  /** Filling board cells adds exactly those cells to the pattern and keeps a valid state valid. */
  lemma {:induction false} CellsOfFillAll(n: nat, w: nat, js: seq<nat>)
    requires forall k :: 0 <= k < |js| ==> js[k] < n * n
    ensures Cells(n, FillAll(w, js)) == Cells(n, w) + (set k | 0 <= k < |js| :: js[k])
    ensures w < TotalStates(n) ==> FillAll(w, js) < TotalStates(n)
    decreases |js|
  {
    if |js| > 0 {
      CellsOfFill(n, w, js[0]);
      CellsOfFillAll(n, FillCell(w, js[0]), js[1..]);
      var rest := set k | 0 <= k < |js[1..]| :: js[1..][k];
      var all := set k | 0 <= k < |js| :: js[k];
      assert all == {js[0]} + rest by {
        forall x | x in all
          ensures x in {js[0]} + rest
        {
          var k :| 0 <= k < |js| && js[k] == x;
          if k > 0 {
            assert js[1..][k - 1] == x;
          }
        }
      }
    }
  }

  /** A list has at least as many entries as distinct values. */
  lemma {:induction false} ValuesAtMostLength(js: seq<nat>)
    ensures |set k | 0 <= k < |js| :: js[k]| <= |js|
    decreases |js|
  {
    if |js| > 0 {
      var tail := js[1..];
      ValuesAtMostLength(tail);
      var rest := set k | 0 <= k < |tail| :: tail[k];
      var all := set k | 0 <= k < |js| :: js[k];
      assert all <= {js[0]} + rest by {
        forall x | x in all
          ensures x in {js[0]} + rest
        {
          var k :| 0 <= k < |js| && js[k] == x;
          if k > 0 {
            assert tail[k - 1] == x;
          }
        }
      }
      assert |{js[0]} + rest| <= 1 + |rest|;
      SubsetSize(all, {js[0]} + rest);
    }
  }

  /** The cells of S below k in increasing order. */
  function Enumerate(cells: set<nat>, k: nat): (r: seq<nat>)
    decreases k
  {
    if k == 0 then [] else Enumerate(cells, k - 1) + (if k - 1 in cells then [k - 1] else [])
  }

  /** Enumerate lists exactly the cells of S below k. */
  lemma {:induction false} EnumerateMembers(cells: set<nat>, k: nat)
    ensures forall x :: x in Enumerate(cells, k) <==> x in cells && x < k
    decreases k
  {
    if k > 0 {
      EnumerateMembers(cells, k - 1);
    }
  }

  /** Enumerate lists the cells in strictly increasing order. */
  lemma {:induction false} EnumerateSorted(cells: set<nat>, k: nat)
    ensures forall a, b :: 0 <= a < b < |Enumerate(cells, k)| ==> Enumerate(cells, k)[a] < Enumerate(cells, k)[b]
    decreases k
  {
    if k > 0 {
      EnumerateSorted(cells, k - 1);
      EnumerateMembers(cells, k - 1);
      var front := Enumerate(cells, k - 1);
      if k - 1 in cells {
        forall a | 0 <= a < |front|
          ensures front[a] < k - 1
        {
          assert front[a] in front;
        }
      }
    }
  }

  /** One more step of the enumeration adds cell k - 1 when it is in S. */
  lemma EnumerateNext(cells: set<nat>, k: nat)
    requires k > 0 && |Enumerate(cells, k - 1)| == |cells * CellsBelow(k - 1)|
    ensures |Enumerate(cells, k)| == |cells * CellsBelow(k)|
  {
    BelowNext(cells, k);
  }

  /** Enumerate lists each cell once: its length is the number of cells of S below k. */
  lemma {:induction false} EnumerateLength(cells: set<nat>, k: nat)
    ensures |Enumerate(cells, k)| == |cells * CellsBelow(k)|
    decreases k
  {
    if k == 0 {
      BelowZero(cells);
    } else {
      EnumerateLength(cells, k - 1);
      EnumerateNext(cells, k);
    }
  }

  /** Putting cell j in front of a branch below cell j gives a branch below any i < j. */
  lemma ChoiceCons(n: nat, i: int, depth: nat, j: nat, js: seq<nat>, w: nat)
    requires i < j < n * n && depth >= 1 && Choice(n, j, depth - 1, js)
    ensures Choice(n, i, depth, [j] + js)
    ensures FillAll(w, [j] + js) == FillAll(FillCell(w, j), js)
  {
    assert ([j] + js)[1..] == js;
  }

  /** A non-empty branch is its first cell followed by a branch below that cell. */
  lemma ChoiceUncons(n: nat, i: int, depth: nat, js: seq<nat>, w: nat)
    requires Choice(n, i, depth, js) && |js| > 0
    ensures depth >= 1 && Choice(n, js[0], depth - 1, js[1..])
    ensures FillAll(w, js) == FillAll(FillCell(w, js[0]), js[1..])
  {
  }

  /** The loop of `recurse` has tried the branches that start before cell j. */
  ghost predicate TriedBefore(n: nat, state: nat, i: int, depth: nat, j: int, maxLength: nat)
    requires ValidSize(n)
  {
    && (forall js :: Choice(n, i, depth, js) && (|js| == 0 || js[0] < j) ==>
          StateLength(n, FillAll(state, js)) <= maxLength)
    && (exists js :: Choice(n, i, depth, js) && (|js| == 0 || js[0] < j) &&
          StateLength(n, FillAll(state, js)) == maxLength)
  }

  /** Before the loop only the empty branch, the state itself, has been tried. */
  lemma TriedNothing(n: nat, state: nat, i: int, depth: nat)
    requires ValidSize(n)
    ensures TriedBefore(n, state, i, depth, i + 1, StateLength(n, state))
  {
    assert Choice(n, i, depth, []);
    forall js | Choice(n, i, depth, js) && (|js| == 0 || js[0] < i + 1)
      ensures |js| == 0
    {
    }
  }

  /** One turn of the loop: the branches through cell j add the result of the recursive call. */
  lemma TriedOneMore(n: nat, state: nat, i: int, depth: nat, j: nat, maxLength: nat, length: nat)
    requires ValidSize(n) && i < j < n * n && depth >= 1
    requires TriedBefore(n, state, i, depth, j, maxLength)
    requires forall js :: Choice(n, j, depth - 1, js) ==> StateLength(n, FillAll(FillCell(state, j), js)) <= length
    requires exists js :: Choice(n, j, depth - 1, js) && StateLength(n, FillAll(FillCell(state, j), js)) == length
    ensures TriedBefore(n, state, i, depth, j + 1, if length > maxLength then length else maxLength)
  {
    var m := if length > maxLength then length else maxLength;
    forall js | Choice(n, i, depth, js) && (|js| == 0 || js[0] < j + 1)
      ensures StateLength(n, FillAll(state, js)) <= m
    {
      if |js| > 0 && js[0] == j {
        ChoiceUncons(n, i, depth, js, state);
      }
    }
    if length > maxLength {
      var tail :| Choice(n, j, depth - 1, tail) && StateLength(n, FillAll(FillCell(state, j), tail)) == length;
      ChoiceCons(n, i, depth, j, tail, state);
      assert ([j] + tail)[0] == j;
    }
  }

  /** After the loop every branch has been tried. */
  lemma TriedAll(n: nat, state: nat, i: int, depth: nat, maxLength: nat)
    requires ValidSize(n) && TriedBefore(n, state, i, depth, n * n, maxLength)
    ensures forall js :: Choice(n, i, depth, js) ==> StateLength(n, FillAll(state, js)) <= maxLength
    ensures exists js :: Choice(n, i, depth, js) && StateLength(n, FillAll(state, js)) == maxLength
  {
    forall js | Choice(n, i, depth, js)
      ensures StateLength(n, FillAll(state, js)) <= maxLength
    {
      if |js| > 0 {
        assert js[0] < n * n;
      }
    }
  }

  /** `recurse(state, i, depth)`: the largest length over the state and every state reached by filling
      at most `depth` more cells after cell i in increasing order. The state is handed back unchanged,
      since every `fillCell` is undone by the matching `unfillCell`. */
  method Recurse(n: nat, mask: seq<set<nat>>, state: nat, i: int, depth: nat) returns (maxLength: nat, after: nat)
    requires ValidSize(n) && IsNeighborTable(n, mask) && -1 <= i < n * n
    requires forall c: nat :: i < c ==> !Bit(state, c)
    ensures after == state
    ensures forall js :: Choice(n, i, depth, js) ==> StateLength(n, FillAll(state, js)) <= maxLength
    ensures exists js :: Choice(n, i, depth, js) && StateLength(n, FillAll(state, js)) == maxLength
    ensures StateLength(n, state) <= maxLength <= n * n + 1
    ensures depth == 0 ==> maxLength == StateLength(n, state)
    decreases depth
  {
    maxLength := ComputeLength(n, mask, state);
    after := state;
    TriedNothing(n, state, i, depth);
    if depth > 0 {
      var j := i + 1;
      while j < n * n
        invariant i + 1 <= j <= n * n
        invariant after == state
        invariant TriedBefore(n, state, i, depth, j, maxLength)
      {
        var filled := FillCell(after, j);
        var length, back := Recurse(n, mask, filled, j, depth - 1);
        TriedOneMore(n, state, i, depth, j, maxLength, length);
        if length > maxLength {
          maxLength := length;
        }
        UnfillAfterFill(state, j);
        after := UnfillCell(back, j);
        j := j + 1;
      }
    }
    TriedAll(n, state, i, depth, maxLength);
    assert Choice(n, i, depth, []);
    ghost var js :| Choice(n, i, depth, js) && StateLength(n, FillAll(state, js)) == maxLength;
    if depth == 0 {
      assert js == [];
    }
  }

  /** `main` of marco.c: `recurse(&0, -1, n + 2)` from the empty board. The result is the largest
      length of any state with at most n + 2 filled cells, and some such state reaches it. */
  method MarcoSearch(n: nat) returns (maxLength: nat)
    requires ValidSize(n)
    ensures forall w: nat :: w < TotalStates(n) && |Cells(n, w)| <= n + 2 ==> StateLength(n, w) <= maxLength
    ensures exists w: nat :: w < TotalStates(n) && |Cells(n, w)| <= n + 2 && StateLength(n, w) == maxLength
    ensures 1 <= maxLength <= n * n + 1
  {
    forall c: nat
      ensures !Bit(0, c)
    {
      BitsAboveWidth(0, 0, c);
    }
    var mask := BuildNeighborMasks(n);
    var after;
    maxLength, after := Recurse(n, mask, 0, -1, n + 2);
    forall w: nat | w < TotalStates(n) && |Cells(n, w)| <= n + 2
      ensures StateLength(n, w) <= maxLength
    {
      BranchOfState(n, w);
      assert Choice(n, -1, n + 2, Enumerate(Cells(n, w), n * n));
    }
    ghost var js :| Choice(n, -1, n + 2, js) && StateLength(n, FillAll(0, js)) == maxLength;
    assert Choice(n, -1, |js|, js);
    StateOfBranch(n, js);
    assert FillAll(0, js) < TotalStates(n) && |Cells(n, FillAll(0, js))| <= n + 2;
  }

  /** The values of the enumeration of a set of cells below k are the set itself. */
  lemma EnumerateValues(cells: set<nat>, k: nat)
    requires forall x :: x in cells ==> x < k
    ensures (set i | 0 <= i < |Enumerate(cells, k)| :: Enumerate(cells, k)[i]) == cells
  {
    var js := Enumerate(cells, k);
    EnumerateMembers(cells, k);
    forall x | x in cells
      ensures x in (set i | 0 <= i < |js| :: js[i])
    {
      assert x in js;
      var i :| 0 <= i < |js| && js[i] == x;
    }
  }

  /** The enumeration of a pattern on the board is a branch from the empty board as deep as the pattern is large. */
  lemma EnumerateIsChoice(n: nat, cells: set<nat>)
    requires ValidSize(n) && InGrid(n, cells)
    ensures Choice(n, -1, |cells|, Enumerate(cells, n * n))
  {
    var js := Enumerate(cells, n * n);
    EnumerateMembers(cells, n * n);
    EnumerateSorted(cells, n * n);
    EnumerateLength(cells, n * n);
    assert cells * CellsBelow(n * n) == cells;
    forall k | 0 <= k < |js|
      ensures -1 < js[k] < n * n
    {
      assert js[k] in js;
    }
  }

  /** Following the enumeration of a pattern from the empty board fills exactly that pattern. */
  lemma EnumerateFills(n: nat, cells: set<nat>)
    requires ValidSize(n) && InGrid(n, cells)
    ensures Cells(n, FillAll(0, Enumerate(cells, n * n))) == cells
  {
    var js := Enumerate(cells, n * n);
    EnumerateMembers(cells, n * n);
    forall k | 0 <= k < |js|
      ensures js[k] < n * n
    {
      assert js[k] in js;
    }
    EnumerateValues(cells, n * n);
    CellsOfZero(n);
    CellsOfFillAll(n, 0, js);
  }

  /** Every state is reached from the empty board by the branch that lists its cells in increasing order. */
  lemma BranchOfState(n: nat, w: nat)
    requires ValidSize(n)
    ensures Choice(n, -1, |Cells(n, w)|, Enumerate(Cells(n, w), n * n))
    ensures StateLength(n, FillAll(0, Enumerate(Cells(n, w), n * n))) == StateLength(n, w)
  {
    EnumerateIsChoice(n, Cells(n, w));
    EnumerateFills(n, Cells(n, w));
  }

  /** The state a branch from the empty board reaches is a valid state with at most as many cells as the branch. */
  lemma StateOfBranch(n: nat, js: seq<nat>)
    requires ValidSize(n) && Choice(n, -1, |js|, js)
    ensures FillAll(0, js) < TotalStates(n)
    ensures |Cells(n, FillAll(0, js))| <= |js|
  {
    CellsOfZero(n);
    CellsOfFillAll(n, 0, js);
    ValuesAtMostLength(js);
    Pow2Monotone(0, n * n);
  }
}
