/** Bitwise exclusive or of unsigned integers as a metric, and the position of the top bit. */
module XorMetric {

  function Pow2(n: nat): (p: nat)
    ensures p > 0
  {
    if n == 0 then 1 else 2 * Pow2(n - 1)
  }

  /** Bit by bit: the bits of the sum are compared from the lowest up. */
  function Xor(a: nat, b: nat): nat
    decreases a + b
  {
    if a == 0 then b else if b == 0 then a else 2 * Xor(a / 2, b / 2) + (a + b) % 2
  }

  /** The number of bits up to and including the highest one that is set. */
  function BitLength(x: nat): nat {
    if x == 0 then 0 else 1 + BitLength(x / 2)
  }

  lemma XorBits(a: nat, b: nat)
    ensures Xor(a, b) == 2 * Xor(a / 2, b / 2) + (a + b) % 2
    ensures Xor(a, b) / 2 == Xor(a / 2, b / 2) && Xor(a, b) % 2 == (a + b) % 2
  {
  }

  lemma {:induction false} XorCommutes(a: nat, b: nat)
    ensures Xor(a, b) == Xor(b, a)
    decreases a + b
  {
    if a != 0 && b != 0 {
      XorCommutes(a / 2, b / 2);
    }
  }

  lemma {:induction false} XorAssociates(a: nat, b: nat, c: nat)
    ensures Xor(Xor(a, b), c) == Xor(a, Xor(b, c))
    decreases a + b + c
  {
    if a != 0 && b != 0 && c != 0 {
      hide Xor;
      var ab, bc := Xor(a, b), Xor(b, c);
      XorBits(a, b);
      XorBits(b, c);
      XorBits(ab, c);
      XorBits(a, bc);
      XorAssociates(a / 2, b / 2, c / 2);
      Parity(a, b, c, ab, bc);
      assert Xor(ab, c) == 2 * Xor(ab / 2, c / 2) + (ab + c) % 2;
      assert Xor(a, bc) == 2 * Xor(a / 2, bc / 2) + (a + bc) % 2;
    }
  }

  lemma Parity(a: nat, b: nat, c: nat, ab: nat, bc: nat)
    requires ab % 2 == (a + b) % 2 && bc % 2 == (b + c) % 2
    ensures (ab + c) % 2 == (a + bc) % 2
  {
  }

  lemma {:induction false} XorZeroIffEqual(a: nat, b: nat)
    ensures Xor(a, b) == 0 <==> a == b
    decreases a + b
  {
    if a != 0 && b != 0 {
      XorZeroIffEqual(a / 2, b / 2);
    }
  }

  /** The distances from two nodes to a third one decide whether the two are the same. */
  lemma XorCancels(t: nat, a: nat, b: nat)
    ensures Xor(Xor(t, a), Xor(t, b)) == Xor(a, b)
    ensures Xor(t, a) == Xor(t, b) ==> a == b
  {
    XorCommutes(t, a);
    XorAssociates(a, t, Xor(t, b));
    XorAssociates(t, t, b);
    XorZeroIffEqual(t, t);
    XorZeroIffEqual(a, b);
    XorZeroIffEqual(Xor(t, a), Xor(t, b));
  }

  lemma {:induction false} XorAtMostSum(a: nat, b: nat)
    ensures Xor(a, b) <= a + b
    decreases a + b
  {
    if a != 0 && b != 0 {
      XorAtMostSum(a / 2, b / 2);
    }
  }

  lemma XorTriangle(a: nat, b: nat, c: nat)
    ensures Xor(a, c) <= Xor(a, b) + Xor(b, c)
  {
    XorCommutes(a, b);
    XorCancels(b, a, c);
    XorAtMostSum(Xor(b, a), Xor(b, c));
  }

  // ----- the top bit

  /** `BitLength(x) == i + 1` says exactly that 2^i <= x < 2^(i+1). */
  lemma {:induction false} BitLengthExact(x: nat, i: nat)
    ensures BitLength(x) == i + 1 <==> Pow2(i) <= x < Pow2(i + 1)
    decreases x
  {
    if x > 0 {
      if i == 0 {
        if x > 1 {
          assert BitLength(x / 2) > 0;
        }
      } else {
        BitLengthExact(x / 2, i - 1);
      }
    }
  }

  lemma {:induction false} BitLengthBounded(x: nat, n: nat)
    ensures x < Pow2(n) <==> BitLength(x) <= n
    decreases x
  {
    if x > 0 && n > 0 {
      BitLengthBounded(x / 2, n - 1);
    }
  }

  lemma {:induction false} BitLengthMonotone(a: nat, b: nat)
    requires BitLength(a) < BitLength(b)
    ensures a < b
    decreases a
  {
    if a > 0 {
      BitLengthMonotone(a / 2, b / 2);
    }
  }

  /** Equal top bits cancel. */
  lemma {:induction false} XorOfSameLength(a: nat, b: nat)
    requires BitLength(a) == BitLength(b) > 0
    ensures BitLength(Xor(a, b)) < BitLength(a)
    decreases a
  {
    XorBits(a, b);
    if a / 2 == 0 {
      assert b / 2 == 0 && a == b == 1;
    } else {
      XorOfSameLength(a / 2, b / 2);
    }
  }

  /** Of different top bits the higher one stays. */
  lemma {:induction false} XorOfLonger(a: nat, b: nat)
    requires BitLength(a) < BitLength(b)
    ensures BitLength(Xor(a, b)) == BitLength(b) && BitLength(Xor(b, a)) == BitLength(b)
    decreases b
  {
    XorCommutes(a, b);
    if a != 0 {
      XorBits(a, b);
      XorOfLonger(a / 2, b / 2);
    }
  }

  lemma XorBounded(a: nat, b: nat, n: nat)
    requires a < Pow2(n) && b < Pow2(n)
    ensures Xor(a, b) < Pow2(n)
  {
    BitLengthBounded(a, n);
    BitLengthBounded(b, n);
    BitLengthBounded(Xor(a, b), n);
    if BitLength(a) == BitLength(b) {
      if a != 0 {
        XorOfSameLength(a, b);
      }
    } else if BitLength(a) < BitLength(b) {
      XorOfLonger(a, b);
    } else {
      XorOfLonger(b, a);
    }
  }

  // ----- joining high and low bits

  function Join(n: nat, high: nat, low: nat): nat {
    Pow2(n) * high + low
  }

  lemma JoinHalves(n: nat, high: nat, low: nat)
    requires n > 0
    ensures Join(n, high, low) == 2 * Join(n - 1, high, low / 2) + low % 2
  {
    assert Pow2(n) * high == 2 * (Pow2(n - 1) * high);
  }

  lemma XorWithLowBits(a: nat, b: nat, x: nat, y: nat)
    ensures Xor(2 * a + x % 2, 2 * b + y % 2) == 2 * Xor(a, b) + Xor(x, y) % 2
  {
    hide Xor;
    XorBits(2 * a + x % 2, 2 * b + y % 2);
    XorBits(x, y);
    assert (2 * a + x % 2) / 2 == a && (2 * b + y % 2) / 2 == b;
    assert (2 * a + x % 2 + (2 * b + y % 2)) % 2 == (x + y) % 2;
  }

  lemma {:induction false} XorOfJoined(n: nat, p: nat, q: nat, x: nat, y: nat)
    requires x < Pow2(n) && y < Pow2(n)
    ensures Xor(Join(n, p, x), Join(n, q, y)) == Join(n, Xor(p, q), Xor(x, y))
    decreases n
  {
    if n != 0 {
      hide Xor, Join;
      XorOfJoined(n - 1, p, q, x / 2, y / 2);
      JoinHalves(n, p, x);
      JoinHalves(n, q, y);
      JoinHalves(n, Xor(p, q), Xor(x, y));
      XorBits(x, y);
      XorWithLowBits(Join(n - 1, p, x / 2), Join(n - 1, q, y / 2), x, y);
    }
  }

  lemma {:induction false} BitLengthOfJoined(n: nat, p: nat, x: nat)
    requires p > 0 && x < Pow2(n)
    ensures BitLength(Join(n, p, x)) == n + BitLength(p)
    decreases n
  {
    if n != 0 {
      JoinHalves(n, p, x);
      BitLengthOfJoined(n - 1, p, x / 2);
      assert Pow2(n - 1) * p > 0;
    }
  }
}
