/** The 64-bit machine word that holds a grid state, viewed as an unbounded
    natural number together with its binary digits.

    Bit i of a word is `(state >> i) & 1` in the programs; setting and clearing
    one bit are the `fillCell` / `unfillCell` helpers. A cell set is packed into
    a word by `Pack`, the inverse of reading the bits back. */
module Word {

  /** 2 to the power k. */
  function Pow2(k: nat): (r: nat)
    ensures r >= 1
  {
    if k == 0 then 1 else 2 * Pow2(k - 1)
  }

  /** Bit i of w, i.e. `(w >> i) & 1 == 1`. */
  predicate Bit(w: nat, i: nat)
  {
    if i == 0 then w % 2 == 1 else Bit(w / 2, i - 1)
  }

  /** A word below 2^k has no bit set at index k or above. */
  lemma {:induction false} BitsAboveWidth(w: nat, k: nat, i: nat)
    requires w < Pow2(k) && k <= i
    ensures !Bit(w, i)
  {
    if i > 0 {
      if k == 0 {
        BitsAboveWidth(w / 2, 0, i - 1);
      } else {
        BitsAboveWidth(w / 2, k - 1, i - 1);
      }
    }
  }

  /** A word with no bit set at index k or above is below 2^k. */
  lemma {:induction false} BitsBelowWidth(w: nat, k: nat)
    requires forall j: nat :: k <= j ==> !Bit(w, j)
    ensures w < Pow2(k)
  {
    if k == 0 {
      forall j: nat
        ensures Bit(w, j) <==> Bit(0, j)
      {
        BitsAboveWidth(0, 0, j);
      }
      SameBitsSameWord(w, 0);
    } else {
      forall j: nat | k - 1 <= j
        ensures !Bit(w / 2, j)
      {
        assert !Bit(w, j + 1);
      }
      BitsBelowWidth(w / 2, k - 1);
    }
  }

  /** 2^a <= 2^b whenever a <= b. */
  lemma {:induction false} Pow2Monotone(a: nat, b: nat)
    requires a <= b
    ensures Pow2(a) <= Pow2(b)
  {
    if a < b {
      Pow2Monotone(a, b - 1);
    }
  }

  lemma ModSmall(a: nat, m: nat)
    requires a < m
    ensures a % m == a
  {
  }

  /** `x << k` on a 64-bit unsigned word as x86-64 executes it: the shift count is taken
      modulo 64 and the product is truncated to 64 bits. */
  function ShiftLeft64(x: nat, k: nat): (r: nat)
    ensures r < Pow2(64)
    ensures k < 64 && x * Pow2(k) < Pow2(64) ==> r == x * Pow2(k)
  {
    ShiftWithinWord(x, k);
    (x * Pow2(k % 64)) % Pow2(64)
  }

  /** A count below 64 that shifts no bit out of the word gives the exact product. */
  lemma ShiftWithinWord(x: nat, k: nat)
    ensures k < 64 && x * Pow2(k) < Pow2(64) ==> (x * Pow2(k % 64)) % Pow2(64) == x * Pow2(k)
  {
    if k < 64 && x * Pow2(k) < Pow2(64) {
      ModSmall(k, 64);
      ModSmall(x * Pow2(k), Pow2(64));
    }
  }

  /** Only the count modulo 64 matters: a shift by k >= 64 is the shift by k - 64. */
  lemma ShiftCountWraps(x: nat, k: nat)
    requires k >= 64
    ensures ShiftLeft64(x, k) == ShiftLeft64(x, k - 64)
  {
    assert k % 64 == (k - 64) % 64;
  }

  /** Two words with the same bits are the same word. */
  lemma {:induction false} SameBitsSameWord(v: nat, w: nat)
    requires forall j: nat :: Bit(v, j) <==> Bit(w, j)
    ensures v == w
    decreases v + w
  {
    if v != 0 || w != 0 {
      assert Bit(v, 0) <==> Bit(w, 0);
      forall j: nat
        ensures Bit(v / 2, j) <==> Bit(w / 2, j)
      {
        assert Bit(v, j + 1) <==> Bit(w, j + 1);
      }
      SameBitsSameWord(v / 2, w / 2);
    }
  }

  /** Adding 2^i to a word whose bit i is clear sets exactly bit i. */
  lemma {:induction false} AddPow2Bits(w: nat, i: nat)
    requires !Bit(w, i)
    ensures forall j: nat :: Bit(w + Pow2(i), j) <==> Bit(w, j) || j == i
  {
    if i == 0 {
      forall j: nat
        ensures Bit(w + 1, j) <==> Bit(w, j) || j == 0
      {
        if j > 0 {
          assert (w + 1) / 2 == w / 2;
        }
      }
    } else {
      var p := Pow2(i - 1);
      AddPow2Bits(w / 2, i - 1);
      forall j: nat
        ensures Bit(w + Pow2(i), j) <==> Bit(w, j) || j == i
      {
        if j > 0 {
          assert (w + 2 * p) / 2 == w / 2 + p;
        }
      }
    }
  }

  /** A word whose bit i is set is at least 2^i, and subtracting 2^i clears that bit. */
  lemma {:induction false} SubPow2Bit(w: nat, i: nat)
    requires Bit(w, i)
    ensures w >= Pow2(i) && !Bit(w - Pow2(i), i)
  {
    if i > 0 {
      var p := Pow2(i - 1);
      SubPow2Bit(w / 2, i - 1);
      assert (w - 2 * p) / 2 == w / 2 - p;
    }
  }

  /** `*state |= (1ULL << idx)`: bit i becomes set and every other bit is kept. */
  function FillCell(w: nat, i: nat): (r: nat)
    ensures Bit(r, i)
    ensures forall j: nat :: j != i ==> (Bit(r, j) <==> Bit(w, j))
  {
    if Bit(w, i) then w
    else
      AddPow2Bits(w, i);
      w + Pow2(i)
  }

  /** `*state &= ~(1ULL << idx)`: bit i becomes clear and every other bit is kept. */
  function UnfillCell(w: nat, i: nat): (r: nat)
    ensures !Bit(r, i)
    ensures forall j: nat :: j != i ==> (Bit(r, j) <==> Bit(w, j))
  {
    if Bit(w, i) then
      SubPow2Bit(w, i);
      AddPow2Bits(w - Pow2(i), i);
      w - Pow2(i)
    else w
  }

  /** Filling a clear bit and then clearing it again gives back the original word. */
  lemma {:induction false} UnfillAfterFill(w: nat, i: nat)
    requires !Bit(w, i)
    ensures UnfillCell(FillCell(w, i), i) == w
  {
    var v := UnfillCell(FillCell(w, i), i);
    forall j: nat
      ensures Bit(v, j) <==> Bit(w, j)
    {
    }
    SameBitsSameWord(v, w);
  }

  /** The word whose bits 0 .. k-1 say whether lo, lo+1, ..., lo+k-1 are in cells. */
  function Pack(cells: set<nat>, lo: nat, k: nat): (r: nat)
    ensures r < Pow2(k)
    decreases k
  {
    if k == 0 then 0
    else (if lo in cells then 1 else 0) + 2 * Pack(cells, lo + 1, k - 1)
  }

  /** The low bit and the rest of b + 2 * r. */
  lemma LowBitSplit(b: nat, r: nat)
    requires b < 2
    ensures (b + 2 * r) % 2 == b && (b + 2 * r) / 2 == r
  {
  }

  /** Reading bit i of a packed word tells whether cell lo + i was in the set. */
  lemma {:induction false} BitOfPack(cells: set<nat>, lo: nat, k: nat, i: nat)
    ensures Bit(Pack(cells, lo, k), i) <==> i < k && lo + i in cells
    decreases k
  {
    if k == 0 {
      BitsAboveWidth(0, 0, i);
    } else {
      var b := if lo in cells then 1 else 0;
      var rest := Pack(cells, lo + 1, k - 1);
      assert Pack(cells, lo, k) == b + 2 * rest;
      LowBitSplit(b, rest);
      if i > 0 {
        BitOfPack(cells, lo + 1, k - 1, i - 1);
        assert lo + 1 + (i - 1) == lo + i;
      }
    }
  }

  /** Packing the bits of a word below 2^k gives back that word. */
  lemma {:induction false} PackOfBits(cells: set<nat>, lo: nat, k: nat, w: nat)
    requires w < Pow2(k)
    requires forall j: nat :: j < k ==> (Bit(w, j) <==> lo + j in cells)
    ensures Pack(cells, lo, k) == w
    decreases k
  {
    if k > 0 {
      assert Bit(w, 0) <==> lo in cells;
      forall j: nat | j < k - 1
        ensures Bit(w / 2, j) <==> lo + 1 + j in cells
      {
        assert Bit(w, j + 1) <==> lo + (j + 1) in cells;
      }
      PackOfBits(cells, lo + 1, k - 1, w / 2);
    }
  }
}
