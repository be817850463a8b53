/** The bits of non-negative integers, and the operators C++ has for them. */
module Bits {

  predicate Bit(x: nat, t: nat) {
    if t == 0 then x % 2 == 1 else Bit(x / 2, t - 1)
  }

  /** x | y */
  function Or(x: nat, y: nat): nat {
    if x == 0 && y == 0 then 0
    else 2 * Or(x / 2, y / 2) + if x % 2 == 1 || y % 2 == 1 then 1 else 0
  }

  /** x << n */
  function ShiftLeft(x: nat, n: nat): nat {
    if n == 0 then x else 2 * ShiftLeft(x, n - 1)
  }

  /** x >> n */
  function ShiftRight(x: nat, n: nat): nat {
    if n == 0 then x else ShiftRight(x / 2, n - 1)
  }

  /** The lowest n bits of x, that is, x & (2^n - 1). */
  function Low(x: nat, n: nat): nat {
    if n == 0 then 0 else 2 * Low(x / 2, n - 1) + x % 2
  }

  lemma {:induction false} ZeroBits(t: nat)
    ensures !Bit(0, t)
  {
    if t > 0 { ZeroBits(t - 1); }
  }

  lemma {:induction false} OrBits(x: nat, y: nat, t: nat)
    ensures Bit(Or(x, y), t) <==> Bit(x, t) || Bit(y, t)
  {
    if x == 0 && y == 0 {
      ZeroBits(t);
    } else if t > 0 {
      OrBits(x / 2, y / 2, t - 1);
    }
  }

  lemma {:induction false} ShiftLeftBits(x: nat, n: nat, t: nat)
    ensures Bit(ShiftLeft(x, n), t) <==> t >= n && Bit(x, t - n)
  {
    if n > 0 && t > 0 {
      ShiftLeftBits(x, n - 1, t - 1);
    }
  }

  lemma {:induction false} ShiftRightBits(x: nat, n: nat, t: nat)
    ensures Bit(ShiftRight(x, n), t) <==> Bit(x, t + n)
  {
    if n > 0 {
      ShiftRightBits(x / 2, n - 1, t);
    }
  }

  lemma {:induction false} LowBits(x: nat, n: nat, t: nat)
    ensures Bit(Low(x, n), t) <==> t < n && Bit(x, t)
  {
    if n == 0 {
      ZeroBits(t);
    } else if t > 0 {
      LowBits(x / 2, n - 1, t - 1);
    }
  }

  /** A number below 2^n has no bits from n on. */
  predicate Fits(x: nat, n: nat) {
    if n == 0 then x == 0 else Fits(x / 2, n - 1)
  }

  lemma {:induction false} FitsBits(x: nat, n: nat, t: nat)
    requires Fits(x, n) && t >= n
    ensures !Bit(x, t)
  {
    if n == 0 {
      ZeroBits(t);
    } else {
      FitsBits(x / 2, n - 1, t - 1);
    }
  }

  lemma {:induction false} LowFits(x: nat, n: nat)
    ensures Fits(Low(x, n), n)
  {
    if n > 0 { LowFits(x / 2, n - 1); }
  }

  lemma {:induction false} FitsMore(x: nat, n: nat, m: nat)
    requires Fits(x, n) && n <= m
    ensures Fits(x, m)
  {
    if m == 0 {
    } else if n == 0 {
      FitsMore(0, 0, m - 1);
    } else {
      FitsMore(x / 2, n - 1, m - 1);
    }
  }

  lemma {:induction false} OrFits(x: nat, y: nat, n: nat)
    requires Fits(x, n) && Fits(y, n)
    ensures Fits(Or(x, y), n)
  {
    if n > 0 { OrFits(x / 2, y / 2, n - 1); }
  }

  /** Numbers with the same bits are the same. */
  lemma {:induction false} BitsDetermine(x: nat, y: nat, n: nat)
    requires Fits(x, n) && Fits(y, n) && forall t :: 0 <= t < n ==> Bit(x, t) == Bit(y, t)
    ensures x == y
  {
    if n > 0 {
      assert Bit(x, 0) == Bit(y, 0);
      forall t | 0 <= t < n - 1 ensures Bit(x / 2, t) == Bit(y / 2, t) {
        assert Bit(x, t + 1) == Bit(y, t + 1);
      }
      BitsDetermine(x / 2, y / 2, n - 1);
    }
  }

  /** Fitting into 5 and 8 bits, as ranges. */
  lemma {:induction false} FitsRange(x: nat)
    ensures Fits(x, 5) <==> x < 32
    ensures Fits(x, 8) <==> x < 256
  {
    Fits5(x);
    Fits5(x / 8);
    assert Fits(x, 8) == Fits(x / 2, 7) == Fits(x / 2 / 2, 6) == Fits(x / 2 / 2 / 2, 5);
    assert x / 2 / 2 / 2 == x / 8;
  }

  lemma {:induction false} Fits5(x: nat)
    ensures Fits(x, 5) <==> x < 32
  {
    assert Fits(x, 5) == Fits(x / 2, 4) == Fits(x / 2 / 2, 3) == Fits(x / 2 / 2 / 2, 2) == Fits(x / 2 / 2 / 2 / 2, 1);
    assert Fits(x / 2 / 2 / 2 / 2, 1) == Fits(x / 2 / 2 / 2 / 2 / 2, 0);
  }
}
