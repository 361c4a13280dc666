/** 32-bit machine arithmetic: wrap-around addition and subtraction, and the bit mask
    `x & ~(alignment - 1)` defined bit by bit and shown to round down. */
module Words {

  const WORD: nat := 0x1_0000_0000

  type byte = x: int | 0 <= x < 256

  function Add32(a: int, b: int): nat {
    (a + b) % WORD
  }

  function Sub32(a: int, b: int): nat {
    (a - b) % WORD
  }

  function Pow2(k: nat): (r: nat)
    ensures 0 < r
  {
    if k == 0 then 1 else 2 * Pow2(k - 1)
  }

  /** The alignments the allocator accepts: powers of two that fit in a word. */
  ghost predicate IsAlignment(a: nat) {
    exists k: nat :: k < 32 && a == Pow2(k)
  }

  /** Bitwise conjunction. */
  function And(x: nat, y: nat): nat
    decreases x
  {
    if x == 0 then 0
    else (if x % 2 == 1 && y % 2 == 1 then 1 else 0) + 2 * And(x / 2, y / 2)
  }

  /** `x & ~(alignment - 1)` on 32-bit words. */
  function Mask32(x: nat, alignment: nat): nat
    requires 0 < alignment <= WORD
  {
    And(x, WORD - alignment)
  }

  /** The largest multiple of `alignment` that is at most `x`, over unbounded integers. */
  function AlignDown(x: int, alignment: nat): int
    requires 0 < alignment
  {
    x - x % alignment
  }

  lemma {:induction false} AndAllOnes(x: nat, w: nat)
    requires x < Pow2(w)
    ensures And(x, Pow2(w) - 1) == x
    decreases w
  {
    if w == 0 || x == 0 {
    } else {
      AndAllOnes(x / 2, w - 1);
      assert (Pow2(w) - 1) / 2 == Pow2(w - 1) - 1;
    }
  }

  lemma HalfRemainder(x: nat, m: nat)
    requires 0 < m
    ensures x % (2 * m) == x % 2 + 2 * ((x / 2) % m)
  {
    var h := x / 2;
    var q := h / m;
    assert h == q * m + h % m;
    var r := x % 2 + 2 * (h % m);
    assert x == q * (2 * m) + r by {
      assert x == 2 * h + x % 2;
      assert 2 * h == 2 * (q * m) + 2 * (h % m);
      assert 2 * (q * m) == q * (2 * m);
    }
    RemainderUnique(x, 2 * m, q, r);
  }

  lemma MulOrder(a: int, b: int, m: nat)
    requires a <= b
    ensures a * m <= b * m
  {
  }

  lemma RemainderUnique(x: int, m: nat, q: int, r: int)
    requires 0 < m && 0 <= r < m && x == q * m + r
    ensures x % m == r && x / m == q
  {
    var q', r' := x / m, x % m;
    assert x == q' * m + r';
    assert (q - q') * m == r' - r;
    if q > q' {
      MulOrder(1, q - q', m);
    } else if q < q' {
      MulOrder(q - q', -1, m);
    }
  }

  lemma {:induction false} AndClearsLowBits(x: nat, w: nat, k: nat)
    requires x < Pow2(w) && k <= w
    ensures Pow2(k) <= Pow2(w)
    ensures And(x, Pow2(w) - Pow2(k)) == x - x % Pow2(k)
    decreases w
  {
    if k == 0 {
      AndAllOnes(x, w);
    } else {
      AndClearsLowBits(x / 2, w - 1, k - 1);
      HalfRemainder(x, Pow2(k - 1));
      assert (Pow2(w) - Pow2(k)) / 2 == Pow2(w - 1) - Pow2(k - 1);
    }
  }

  lemma {:induction false} PowerSum(j: nat, k: nat)
    ensures Pow2(j + k) == Pow2(j) * Pow2(k)
  {
    if k > 0 {
      PowerSum(j, k - 1);
    }
  }

  lemma WordIsPow2()
    ensures Pow2(32) == WORD
  {
    assert Pow2(8) == 256;
    PowerSum(8, 8);
    PowerSum(16, 16);
  }

  /** For every power-of-two alignment the mask rounds down to a multiple of it. */
  lemma MaskAligns(x: nat, alignment: nat)
    requires x < WORD && IsAlignment(alignment)
    ensures 0 < alignment <= WORD
    ensures Mask32(x, alignment) == AlignDown(x, alignment)
  {
    var k: nat :| k < 32 && alignment == Pow2(k);
    WordIsPow2();
    AndClearsLowBits(x, 32, k);
  }

  /** `AlignDown` is the greatest multiple of the alignment that does not exceed its argument. */
  lemma AlignDownGreatest(x: int, alignment: nat)
    requires 0 < alignment
    ensures AlignDown(x, alignment) % alignment == 0
    ensures x - alignment < AlignDown(x, alignment) <= x
    ensures forall y: int :: y <= x && y % alignment == 0 ==> y <= AlignDown(x, alignment)
  {
    var d := AlignDown(x, alignment);
    assert d == (x / alignment) * alignment + 0;
    RemainderUnique(d, alignment, x / alignment, 0);
    forall y: int | y <= x && y % alignment == 0
      ensures y <= d
    {
      var q, q' := x / alignment, y / alignment;
      assert y == q' * alignment;
      if q' > q {
        MulOrder(q + 1, q', alignment);
      }
    }
  }

  lemma PowerBounds(k: nat)
    requires k < 32
    ensures 0 < Pow2(k) <= 0x8000_0000
  {
    WordIsPow2();
    AndClearsLowBits(0, 31, k);
    assert Pow2(32) == 2 * Pow2(31);
  }

  lemma LastRoundsDown(alignment: nat, q: nat)
    requires 0 < alignment && WORD == (q + 1) * alignment
    ensures AlignDown(WORD - 1, alignment) == WORD - alignment
  {
    RemainderUnique(WORD - 1, alignment, q, alignment - 1);
  }

  /** Alignments are at most half a word, and the last word address rounds down to `WORD - alignment`. */
  lemma AlignmentOfLast(alignment: nat)
    requires IsAlignment(alignment)
    ensures 0 < alignment <= 0x8000_0000
    ensures AlignDown(WORD - 1, alignment) == WORD - alignment
  {
    hide Pow2, AlignDown;
    var k: nat :| k < 32 && alignment == Pow2(k);
    PowerBounds(k);
    PowerBounds(31 - k);
    WordIsPow2();
    PowerSum(32 - k, k);
    var m := Pow2(32 - k);
    assert 0 < m;
    LastRoundsDown(alignment, m - 1);
  }
}
