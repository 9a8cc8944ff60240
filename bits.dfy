/** Powers of two, block alignment and the bitwise exclusive-or of natural
    numbers, as the buddy allocator uses them on frame indices. Everything
    here is defined by halving, so the proofs stay within linear arithmetic. */
module Bits {

  /** 2^k, the value of the C expression `1 << k`. */
  function Pow2(k: nat): (r: nat)
    ensures r >= 1
  {
    if k == 0 then 1 else 2 * Pow2(k - 1)
  }

  lemma {:induction false} Pow2Monotone(a: nat, b: nat)
    requires a <= b
    ensures Pow2(a) <= Pow2(b)
  {
    if a < b {
      Pow2Monotone(a, b - 1);
    }
  }

  /** `a` is a multiple of 2^k: its k lowest binary digits are zero. */
  predicate Aligned(a: nat, k: nat)
  {
    k == 0 || (a % 2 == 0 && Aligned(a / 2, k - 1))
  }

  lemma {:induction false} ZeroAligned(k: nat)
    ensures Aligned(0, k)
  {
    if k > 0 {
      ZeroAligned(k - 1);
    }
  }

  /** Alignment at a higher order implies alignment at every lower one. */
  lemma {:induction false} AlignedWeaken(a: nat, k: nat, f: nat)
    requires k <= f && Aligned(a, f)
    ensures Aligned(a, k)
  {
    if k > 0 {
      AlignedWeaken(a / 2, k - 1, f - 1);
    }
  }

  lemma {:induction false} AlignedAdd(a: nat, b: nat, k: nat)
    requires Aligned(a, k) && Aligned(b, k)
    ensures Aligned(a + b, k)
  {
    if k > 0 {
      AlignedAdd(a / 2, b / 2, k - 1);
      assert (a + b) / 2 == a / 2 + b / 2;
    }
  }

  /** 2^j is aligned at every order up to j. */
  lemma {:induction false} Pow2Aligned(j: nat, k: nat)
    requires k <= j
    ensures Aligned(Pow2(j), k)
  {
    if k > 0 {
      Pow2Aligned(j - 1, k - 1);
      var p := Pow2(j - 1);
      assert Pow2(j) == 2 * p;
      assert (2 * p) % 2 == 0 && (2 * p) / 2 == p;
    }
  }

  /** Two distinct multiples of 2^k are at least 2^k apart. */
  lemma {:induction false} AlignedGap(a: nat, b: nat, k: nat)
    requires Aligned(a, k) && Aligned(b, k) && a < b
    ensures a + Pow2(k) <= b
  {
    if k > 0 {
      AlignedGap(a / 2, b / 2, k - 1);
    }
  }

  /** An order-k aligned index that is not order-(k+1) aligned is the upper
      half of an order-(k+1) block whose base is 2^k below it. */
  lemma {:induction false} UpperHalf(a: nat, k: nat)
    requires Aligned(a, k) && !Aligned(a, k + 1)
    ensures a >= Pow2(k) && Aligned(a - Pow2(k), k + 1)
  {
    if k > 0 {
      UpperHalf(a / 2, k - 1);
      assert (a - Pow2(k)) / 2 == a / 2 - Pow2(k - 1);
    } else {
      ZeroAligned(0);
    }
  }

  /** The lower half of an order-(k+1) block, moved up by 2^k, is its upper half. */
  lemma {:induction false} LowerHalf(a: nat, k: nat)
    requires Aligned(a, k + 1)
    ensures Aligned(a + Pow2(k), k) && !Aligned(a + Pow2(k), k + 1)
  {
    AlignedWeaken(a, k, k + 1);
    Pow2Aligned(k, k);
    AlignedAdd(a, Pow2(k), k);
    if k > 0 {
      LowerHalf(a / 2, k - 1);
      assert (a + Pow2(k)) / 2 == a / 2 + Pow2(k - 1);
    }
  }

  /** Bitwise exclusive-or of two naturals, the `^` of the source on
      unsigned integers. */
  function Xor(a: nat, b: nat): nat
    decreases a + b
  {
    if a == 0 && b == 0 then 0
    else 2 * Xor(a / 2, b / 2) + (if a % 2 == b % 2 then 0 else 1)
  }

  lemma {:induction false} XorZero(a: nat)
    ensures Xor(a, 0) == a
  {
    if a > 0 {
      XorZero(a / 2);
    }
  }

  /** Exclusive-or with a fixed value is its own inverse. */
  lemma {:induction false} XorInvolutive(a: nat, b: nat)
    ensures Xor(Xor(a, b), b) == a
    decreases a + b
  {
    if a == 0 && b == 0 {
    } else {
      var x := Xor(a / 2, b / 2);
      var t := if a % 2 == b % 2 then 0 else 1;
      assert Xor(a, b) == 2 * x + t;
      if b == 0 {
        XorZero(a);
        XorZero(Xor(a, b));
      } else {
        XorInvolutive(a / 2, b / 2);
        assert (2 * x + t) / 2 == x && (2 * x + t) % 2 == t;
      }
    }
  }

  /** On an order-k aligned index, flipping bit k moves up by 2^k from the
      lower half of the enclosing order-(k+1) block and down by 2^k from its
      upper half. */
  lemma {:induction false} XorPow2Aligned(a: nat, k: nat)
    requires Aligned(a, k)
    ensures Xor(a, Pow2(k)) == if Aligned(a, k + 1) then a + Pow2(k) else a - Pow2(k)
  {
    var h := a / 2;
    assert a == 2 * h + a % 2;
    if k == 0 {
      XorZero(h);
      assert Pow2(0) == 1 && 1 / 2 == 0 && 1 % 2 == 1;
      assert Xor(a, 1) == 2 * Xor(h, 0) + (if a % 2 == 1 then 0 else 1);
      assert Aligned(a, 1) <==> a % 2 == 0;
    } else {
      var p := Pow2(k - 1);
      assert Pow2(k) == 2 * p && (2 * p) / 2 == p && (2 * p) % 2 == 0;
      assert a % 2 == 0;
      XorPow2Aligned(h, k - 1);
      assert Xor(a, Pow2(k)) == 2 * Xor(h, p);
      assert Aligned(a, k + 1) <==> Aligned(h, k);
    }
  }
}
