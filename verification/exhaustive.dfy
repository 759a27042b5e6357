/** The driver of simple.c: count the states of the n*n board, visit every state in
    increasing order, skip those that are not their own canonical representative,
    and keep the first state whose length is strictly larger than any seen so far. */
module Exhaustive {
  import opened Word
  import opened Grid
  import opened Simulation
  import opened Symmetry

  /** The answer a scan of the states lo .. hi-1 is meant to give: the largest length m
      of any state in the range, and b, the smallest state in the range that reaches it
      (the loops update only on a strictly larger length, so ties keep the earlier state). */
  predicate IsFirstBest(n: nat, lo: nat, hi: nat, m: nat, b: nat)
    requires ValidSize(n)
  {
    && lo <= b < hi
    && StateLength(n, b) == m
    && (forall s: nat :: lo <= s < hi ==> StateLength(n, s) <= m)
    && (forall s: nat :: lo <= s < b ==> StateLength(n, s) < m)
  }

  /** The answer is determined by the range: two scans that meet the description agree. */
  lemma FirstBestUnique(n: nat, lo: nat, hi: nat, m1: nat, b1: nat, m2: nat, b2: nat)
    requires ValidSize(n)
    requires IsFirstBest(n, lo, hi, m1, b1) && IsFirstBest(n, lo, hi, m2, b2)
    ensures m1 == m2 && b1 == b2
  {
    assert StateLength(n, b1) <= m2 && StateLength(n, b2) <= m1;
  }

  /** A single state is the first best of its own one-state range. */
  lemma FirstBestSingle(n: nat, s: nat)
    requires ValidSize(n)
    ensures IsFirstBest(n, s, s + 1, StateLength(n, s), s)
  {
  }

  /** Joining two adjacent ranges when the later one is not strictly better keeps the earlier answer. */
  lemma FirstBestJoinKeep(n: nat, lo: nat, mid: nat, hi: nat, m1: nat, b1: nat, m2: nat, b2: nat)
    requires ValidSize(n)
    requires IsFirstBest(n, lo, mid, m1, b1) && IsFirstBest(n, mid, hi, m2, b2)
    requires m2 <= m1
    ensures IsFirstBest(n, lo, hi, m1, b1)
  {
  }

  /** Joining two adjacent ranges when the later one is strictly better takes the later answer. */
  lemma FirstBestJoinTake(n: nat, lo: nat, mid: nat, hi: nat, m1: nat, b1: nat, m2: nat, b2: nat)
    requires ValidSize(n)
    requires IsFirstBest(n, lo, mid, m1, b1) && IsFirstBest(n, mid, hi, m2, b2)
    requires m2 > m1
    ensures IsFirstBest(n, lo, hi, m2, b2)
  {
  }

  /** `getCanonicalRep` as simple.c computes it: build the array of the eight images
      with the transform loops, then keep the first entry unless a later one is strictly smaller. */
  method GetCanonicalRep(n: nat, state: nat) returns (best: nat)
    requires ValidSize(n)
    ensures best == CanonicalRep(n, state)
  {
    var r90 := ApplyTransform(n, Rotate90, state);
    var r180 := ApplyTransform(n, Rotate180, state);
    var r270 := ApplyTransform(n, Rotate270, state);
    var fh := ApplyTransform(n, ReflectHorizontal, state);
    var fv := ApplyTransform(n, ReflectVertical, state);
    var fd := ApplyTransform(n, ReflectMainDiag, state);
    var fa := ApplyTransform(n, ReflectAntiDiag, state);
    var t := [state, r90, r180, r270, fh, fv, fd, fa];
    assert t == Images(n, state);
    best := t[0];
    var i := 1;
    while i < 8
      invariant 1 <= i <= 8
      invariant best == MinOf(t[..i])
    {
      assert t[..i + 1][..i] == t[..i];
      if t[i] < best {
        best := t[i];
      }
      i := i + 1;
    }
    assert t[..8] == t;
  }

  /** A state that is not canonical has a smaller canonical state of the same length. */
  lemma SmallerCanonicalTwin(n: nat, s: nat)
    requires ValidSize(n) && s < TotalStates(n) && !IsCanonical(n, s)
    ensures CanonicalRep(n, s) < s
    ensures IsCanonical(n, CanonicalRep(n, s))
    ensures StateLength(n, CanonicalRep(n, s)) == StateLength(n, s)
  {
    CanonicalIdempotent(n, s);
    CanonicalLength(n, s);
  }

  /** The invariant of the main loop of simple.c after visiting the states below `state`, for a
      scan that measures each state with `len` and skips the states `keep` rejects: the best kept
      state so far, and the first one to reach its length. */
  ghost predicate ScannedBelow(keep: nat -> bool, len: nat -> nat, state: nat, maxLength: nat, bestState: nat)
  {
    && (state == 0 ==> maxLength == 0 && bestState == 0)
    && (state > 0 ==> bestState < state && keep(bestState) && len(bestState) == maxLength)
    && (forall s: nat :: s < state && keep(s) ==> len(s) <= maxLength)
    && (forall s: nat :: s < bestState && keep(s) ==> len(s) < maxLength)
  }

  /** The empty board is its own canonical representative. */
  lemma ZeroIsCanonical(n: nat)
    requires ValidSize(n)
    ensures IsCanonical(n, 0)
  {
    assert CanonicalRep(n, 0) <= 0;
  }

  /** A visit that keeps the best: a skipped state, or a kept state that is not strictly longer.
      State 0 is kept and has a positive length, so it always replaces the initial zero. */
  lemma ScanKeeps(keep: nat -> bool, len: nat -> nat, state: nat, maxLength: nat, bestState: nat)
    requires keep(0) && len(0) >= 1
    requires ScannedBelow(keep, len, state, maxLength, bestState)
    requires !keep(state) || len(state) <= maxLength
    ensures ScannedBelow(keep, len, state + 1, maxLength, bestState)
  {
  }

  /** A visit that replaces the best: a kept state strictly longer than any before. */
  lemma ScanImproves(keep: nat -> bool, len: nat -> nat, state: nat, maxLength: nat, bestState: nat)
    requires ScannedBelow(keep, len, state, maxLength, bestState)
    requires keep(state) && len(state) > maxLength
    ensures ScannedBelow(keep, len, state + 1, len(state), state)
  {
  }

  /** The main loop of simple.c over the states 0 .. totalStates-1. Skipping the
      non-canonical states loses nothing: the result is the first best state over the
      whole range, and that state is canonical. */
  method Scan(n: nat, mask: seq<set<nat>>, totalStates: nat) returns (maxLength: nat, bestState: nat)
    requires ValidSize(n) && IsNeighborTable(n, mask) && 1 <= totalStates <= TotalStates(n)
    ensures IsFirstBest(n, 0, totalStates, maxLength, bestState)
    ensures IsCanonical(n, bestState)
  {
    ghost var keep: nat -> bool := (s: nat) => IsCanonical(n, s);
    ghost var len: nat -> nat := (s: nat) => StateLength(n, s);
    ZeroIsCanonical(n);
    maxLength := 0;
    bestState := 0;
    var state := 0;
    while state < totalStates
      invariant state <= totalStates
      invariant ScannedBelow(keep, len, state, maxLength, bestState)
    {
      var canonical := GetCanonicalRep(n, state);
      if state != canonical {
        ScanKeeps(keep, len, state, maxLength, bestState);
        state := state + 1;
        continue;
      }
      var length := ComputeLength(n, mask, state);
      if length > maxLength {
        ScanImproves(keep, len, state, maxLength, bestState);
        maxLength := length;
        bestState := state;
      } else {
        ScanKeeps(keep, len, state, maxLength, bestState);
      }
      state := state + 1;
    }
    forall s: nat | s < totalStates
      ensures StateLength(n, s) <= maxLength
      ensures s < bestState ==> StateLength(n, s) < maxLength
    {
      if IsCanonical(n, s) {
        assert keep(s);
      } else {
        SmallerCanonicalTwin(n, s);
        assert keep(CanonicalRep(n, s));
      }
    }
  }

  /** simple.c with the state count it evidently intends, 2^(n*n): the longest
      percolation time on the board and the smallest state that attains it. */
  method SimpleSearch(n: nat) returns (maxLength: nat, bestState: nat)
    requires ValidSize(n)
    ensures IsFirstBest(n, 0, TotalStates(n), maxLength, bestState)
    ensures IsCanonical(n, bestState)
    ensures 1 <= maxLength <= n * n + 1
  {
    var mask := BuildNeighborMasks(n);
    maxLength, bestState := Scan(n, mask, TotalStates(n));
  }

  /** `totalStates = 1ULL << (g_n*g_n)` as the machine evaluates it. */
  function TotalStatesAsWritten(n: nat): (r: nat)
    ensures r < Pow2(64)
  {
    ShiftLeft64(1, n * n)
  }

  /** The written state count is right for n <= 7. */
  lemma TotalStatesAsWrittenBelowEight(n: nat)
    requires ValidSize(n) && n <= 7
    ensures TotalStatesAsWritten(n) == TotalStates(n)
  {
    assert n * n <= 49 by {
      MulMonotone(n, 7, n);
      MulMonotone(n, 7, 7);
    }
    ModSmall(n * n, 64);
    Pow2Monotone(n * n + 1, 64);
    ModSmall(Pow2(n * n), Pow2(64));
  }

  /** For n = 8 the shift count 64 is reduced to 0, so the scan covers the single state 0
      instead of all 2^64 states. */
  lemma TotalStatesAsWrittenAtEight()
    ensures TotalStatesAsWritten(8) == 1 < TotalStates(8)
  {
    Pow2Monotone(1, 64);
    assert Pow2(64 % 64) == 1;
    ModSmall(1, Pow2(64));
  }

  /** The empty board never changes, so its length is 1. */
  lemma EmptyLength(n: nat)
    requires ValidSize(n)
    ensures StateLength(n, 0) == 1
  {
    CellsOfZero(n);
    forall c: nat | c < n * n
      ensures FilledNeighbors(n, {}, c) == 0
    {
      CountCommonIsSize({}, Neighbors(n, c), n * n);
    }
    assert Step(n, {}) == {};
  }

  /** simple.c as written: right for n <= 7, and for n = 8 it reports length 1 and state 0. */
  method SimpleSearchAsWritten(n: nat) returns (maxLength: nat, bestState: nat)
    requires ValidSize(n)
    ensures n <= 7 ==> IsFirstBest(n, 0, TotalStates(n), maxLength, bestState)
    ensures n == 8 ==> maxLength == 1 && bestState == 0
  {
    var mask := BuildNeighborMasks(n);
    var totalStates := TotalStatesAsWritten(n);
    if n <= 7 {
      TotalStatesAsWrittenBelowEight(n);
    } else {
      TotalStatesAsWrittenAtEight();
      Pow2Monotone(0, 64);
    }
    maxLength, bestState := Scan(n, mask, totalStates);
    if n == 8 {
      EmptyLength(n);
    }
  }

  /** Two distinct cells below k in both sets make the bit count at least 2. */
  lemma CountCommonAtLeastTwo(a: set<nat>, b: set<nat>, k: nat, x: nat, y: nat)
    requires x != y && x < k && y < k
    requires x in a && x in b && y in a && y in b
    ensures CountCommon(a, b, k) >= 2
  {
    CountCommonIsSize(a, b, k);
    var common := a * b * CellsBelow(k);
    assert {x, y} <= common;
    assert common == {x, y} + (common - {x, y});
  }

  /** A pattern that a round changes takes at least two rounds. */
  lemma UnstableLength(n: nat, cells: set<nat>)
    requires ValidSize(n) && InGrid(n, cells) && !Stable(n, cells)
    ensures Length(n, cells) >= 2
  {
  }

  /** On any board of side at least 2, the corner cell and its diagonal neighbour fill the
      cell between them in the first round, so some state has length at least 2; in particular
      the answer simple.c reports for n = 8 is not the maximum. */
  lemma LongerStateExists(n: nat)
    requires ValidSize(n) && n >= 2
    ensures Encode(n, {0, n + 1}) < TotalStates(n)
    ensures StateLength(n, Encode(n, {0, n + 1})) >= 2
  {
    var cells: set<nat> := {0, n + 1};
    CoordsOfIndex(n, 0, 0);
    CoordsOfIndex(n, 1, 0);
    CoordsOfIndex(n, 1, 1);
    CellsOfEncode(n, cells);
    assert Adjacent(n, 1, 0) && Adjacent(n, 1, n + 1);
    CountCommonAtLeastTwo(cells, Neighbors(n, 1), n * n, 0, n + 1);
    assert 1 in Step(n, cells);
    UnstableLength(n, cells);
  }
}
