/** Non-negative integers seen as bit strings: a board is a bitmask where bit
    `row * size + col` tells whether that light is lit. */
module Bits {

  /** 2^k, the value of `1 << k` for k < 31. */
  function Pow2(k: nat): (p: nat)
    ensures p >= 1
  {
    if k == 0 then 1 else 2 * Pow2(k - 1)
  }

  /** Bit k of x: what `(x & (1 << k)) !== 0` tests for k < 31. */
  function Bit(x: nat, k: nat): bool
  {
    if k == 0 then x % 2 == 1 else Bit(x / 2, k - 1)
  }

  /** Bitwise exclusive or, the `^` operator on non-negative operands. */
  function Xor(a: nat, b: nat): nat
    decreases a + b
  {
    if a == 0 && b == 0 then 0 else 2 * Xor(a / 2, b / 2) + (a + b) % 2
  }

  lemma {:induction false} ZeroHasNoBits(k: nat)
    ensures !Bit(0, k)
  {
    if k > 0 {
      ZeroHasNoBits(k - 1);
    }
  }

  /** Each bit of `a ^ b` is the exclusive or of the bits of a and b. */
  lemma {:induction false} XorBit(a: nat, b: nat, k: nat)
    ensures Bit(Xor(a, b), k) == (Bit(a, k) != Bit(b, k))
    decreases k
  {
    if a == 0 && b == 0 {
      ZeroHasNoBits(k);
    } else if k > 0 {
      assert Xor(a, b) / 2 == Xor(a / 2, b / 2);
      XorBit(a / 2, b / 2, k - 1);
    }
  }

  /** Two numbers with the same bits are equal. */
  lemma {:induction false} BitsDetermine(a: nat, b: nat)
    requires forall k: nat :: Bit(a, k) == Bit(b, k)
    ensures a == b
    decreases a + b
  {
    if a != 0 || b != 0 {
      assert Bit(a, 0) == Bit(b, 0);
      forall k: nat
        ensures Bit(a / 2, k) == Bit(b / 2, k)
      {
        assert Bit(a, k + 1) == Bit(b, k + 1);
      }
      BitsDetermine(a / 2, b / 2);
    }
  }

  /** `1 << j` has exactly bit j set. */
  lemma {:induction false} Pow2Bit(j: nat, k: nat)
    ensures Bit(Pow2(j), k) == (j == k)
  {
    if j == 0 {
      if k > 0 {
        ZeroHasNoBits(k - 1);
      }
    } else if k == 0 {
    } else {
      Pow2Bit(j - 1, k - 1);
    }
  }

  /** x lies below 2^n exactly when it has no bit at position n or above. */
  lemma {:induction false} BelowPow2(x: nat, n: nat)
    ensures x < Pow2(n) <==> forall k: nat :: n <= k ==> !Bit(x, k)
  {
    if n == 0 {
      if x > 0 {
        HasSomeBit(x);
      } else {
        forall k: nat { ZeroHasNoBits(k); }
      }
    } else {
      BelowPow2(x / 2, n - 1);
      assert x < Pow2(n) <==> x / 2 < Pow2(n - 1);
      if x < Pow2(n) {
        forall k: nat | n <= k
          ensures !Bit(x, k)
        {
          assert !Bit(x / 2, k - 1);
        }
      } else {
        var k: nat :| n - 1 <= k && Bit(x / 2, k);
        var j: nat := k + 1;
        assert n <= j && Bit(x, j);
        assert exists i: nat :: n <= i && Bit(x, i);
      }
    }
  }

  /** A positive number has some bit set. */
  lemma {:induction false} HasSomeBit(x: nat)
    requires x > 0
    ensures exists k: nat :: Bit(x, k)
    decreases x
  {
    if x % 2 == 0 {
      HasSomeBit(x / 2);
      var k: nat :| Bit(x / 2, k);
      assert Bit(x, k + 1);
    } else {
      assert Bit(x, 0);
    }
  }

  lemma XorCommutes(a: nat, b: nat)
    ensures Xor(a, b) == Xor(b, a)
  {
    forall k: nat
      ensures Bit(Xor(a, b), k) == Bit(Xor(b, a), k)
    {
      XorBit(a, b, k);
      XorBit(b, a, k);
    }
    BitsDetermine(Xor(a, b), Xor(b, a));
  }

  lemma XorAssociates(a: nat, b: nat, c: nat)
    ensures Xor(Xor(a, b), c) == Xor(a, Xor(b, c))
  {
    forall k: nat
      ensures Bit(Xor(Xor(a, b), c), k) == Bit(Xor(a, Xor(b, c)), k)
    {
      XorBit(Xor(a, b), c, k);
      XorBit(a, b, k);
      XorBit(a, Xor(b, c), k);
      XorBit(b, c, k);
    }
    BitsDetermine(Xor(Xor(a, b), c), Xor(a, Xor(b, c)));
  }

  /** Exclusive or with the same mask twice restores the value. */
  lemma XorCancels(a: nat, m: nat)
    ensures Xor(Xor(a, m), m) == a
  {
    forall k: nat
      ensures Bit(Xor(Xor(a, m), m), k) == Bit(a, k)
    {
      XorBit(Xor(a, m), m, k);
      XorBit(a, m, k);
    }
    BitsDetermine(Xor(Xor(a, m), m), a);
  }

  /** The values b ^ i for i in [0, n). */
  ghost function XorImage(b: nat, n: nat): set<nat>
  {
    set i: nat | i < n :: Xor(b, i)
  }

  lemma SubsetSize<T>(a: set<T>, b: set<T>)
    requires a <= b
    ensures |a| <= |b|
  {
    assert b == a + (b - a);
  }

  lemma {:induction false} XorImageSize(b: nat, n: nat)
    ensures |XorImage(b, n)| <= n
  {
    if n > 0 {
      XorImageSize(b, n - 1);
      var fewer := XorImage(b, n - 1);
      forall y | y in XorImage(b, n)
        ensures y in fewer + {Xor(b, n - 1)}
      {
        var i: nat :| i < n && y == Xor(b, i);
        if i < n - 1 {
          assert y in fewer;
        }
      }
      SubsetSize(XorImage(b, n), fewer + {Xor(b, n - 1)});
    }
  }

  /** The numbers whose bits at positions n and above agree with those of b. */
  ghost function Coset(b: nat, n: nat): set<nat>
  {
    XorImage(b, Pow2(n))
  }

  lemma CosetSize(b: nat, n: nat)
    ensures |Coset(b, n)| <= Pow2(n)
  {
    XorImageSize(b, Pow2(n));
  }

  lemma InCoset(b: nat, n: nat, x: nat)
    requires forall k: nat :: n <= k ==> Bit(x, k) == Bit(b, k)
    ensures x in Coset(b, n)
  {
    var i := Xor(b, x);
    forall k: nat | n <= k
      ensures !Bit(i, k)
    {
      XorBit(b, x, k);
    }
    BelowPow2(i, n);
    XorAssociates(b, b, x);
    XorCancels(x, b);
    XorCommutes(b, x);
    assert Xor(b, i) == x by {
      XorCommutes(Xor(b, b), x);
      XorAssociates(x, b, b);
    }
  }

  lemma CosetAgrees(b: nat, n: nat, x: nat, k: nat)
    requires x in Coset(b, n) && n <= k
    ensures Bit(x, k) == Bit(b, k)
  {
    var i: nat :| i < Pow2(n) && x == Xor(b, i);
    BelowPow2(i, n);
    XorBit(b, i, k);
  }

  /** The number whose bit t is bits[t]. */
  function FromBits(bits: seq<bool>): nat
  {
    if bits == [] then 0 else (if bits[0] then 1 else 0) + 2 * FromBits(bits[1..])
  }

  /** FromBits is below 2^|bits| and has exactly the given bits. */
  lemma {:induction false} FromBitsBits(bits: seq<bool>)
    ensures FromBits(bits) < Pow2(|bits|)
    ensures forall t :: 0 <= t < |bits| ==> Bit(FromBits(bits), t) == bits[t]
  {
    if bits != [] {
      FromBitsBits(bits[1..]);
      var x := FromBits(bits);
      assert x / 2 == FromBits(bits[1..]);
      forall t | 0 <= t < |bits|
        ensures Bit(x, t) == bits[t]
      {
        if t > 0 {
          assert bits[1..][t - 1] == bits[t];
        }
      }
    }
  }

  /** Two different numbers below 2^n differ in one of their n low bits. */
  lemma LowBitsDiffer(a: nat, b: nat, n: nat)
    requires a < Pow2(n) && b < Pow2(n) && a != b
    ensures exists t :: 0 <= t < n && Bit(a, t) != Bit(b, t)
  {
    BelowPow2(a, n);
    BelowPow2(b, n);
    if forall t :: 0 <= t < n ==> Bit(a, t) == Bit(b, t) {
      forall k: nat
        ensures Bit(a, k) == Bit(b, k)
      {
      }
      BitsDetermine(a, b);
    }
  }
}

