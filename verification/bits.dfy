/**
 The bitwise operators of C on unsigned words, given on naturals.  A word of width w is a natural
 below Pow2(w); every operator is pinned down bit by bit, so that its laws follow by comparing bits.
 */
module Bits {

  function Pow2(n: nat): (p: nat)
    ensures p > 0
  {
    if n == 0 then 1 else 2 * Pow2(n - 1)
  }

  /** Bit i of a, where bit 0 is the least significant one. */
  predicate Bit(a: nat, i: nat) {
    if i == 0 then a % 2 == 1 else Bit(a / 2, i - 1)
  }

  datatype BitOp = Or | And | Xor {
    predicate Apply(x: bool, y: bool) {
      match this
      case Or => x || y
      case And => x && y
      case Xor => x != y
    }
  }

  function Digit(b: bool): (d: nat)
    ensures d < 2
  {
    if b then 1 else 0
  }

  /** The word whose bits are op applied to the bits of a and b. */
  function Combine(op: BitOp, a: nat, b: nat): nat
    decreases a + b
  {
    if a == 0 && b == 0 then 0
    else 2 * Combine(op, a / 2, b / 2) + Digit(op.Apply(a % 2 == 1, b % 2 == 1))
  }

  /** Complement of a within a word of w bits. */
  function Complement(a: nat, w: nat): nat
    requires a < Pow2(w)
  {
    Pow2(w) - 1 - a
  }

  lemma {:induction false} ZeroBits(i: nat)
    ensures !Bit(0, i)
  {
    if i > 0 { ZeroBits(i - 1); }
  }

  lemma {:induction false} CombineBit(op: BitOp, a: nat, b: nat, i: nat)
    ensures Bit(Combine(op, a, b), i) == op.Apply(Bit(a, i), Bit(b, i))
    decreases i
  {
    if a == 0 && b == 0 {
      ZeroBits(i);
    } else {
      var rest := Combine(op, a / 2, b / 2);
      assert Combine(op, a, b) / 2 == rest;
      if i > 0 { CombineBit(op, a / 2, b / 2, i - 1); }
    }
  }

  lemma {:induction false} HighBitsClear(a: nat, w: nat, i: nat)
    requires a < Pow2(w) && w <= i
    ensures !Bit(a, i)
    decreases w
  {
    if w == 0 {
      ZeroBits(i);
    } else {
      HighBitsClear(a / 2, w - 1, i - 1);
    }
  }

  /** Two words with the same bits are the same word. */
  lemma {:induction false} SameBits(a: nat, b: nat)
    requires forall i: nat :: Bit(a, i) == Bit(b, i)
    ensures a == b
    decreases a + b
  {
    if a != 0 || b != 0 {
      assert Bit(a, 0) == Bit(b, 0);
      forall i: nat ensures Bit(a / 2, i) == Bit(b / 2, i) {
        assert Bit(a, i + 1) == Bit(b, i + 1);
      }
      SameBits(a / 2, b / 2);
    }
  }

  lemma {:induction false} CombineBelow(op: BitOp, a: nat, b: nat, w: nat)
    requires a < Pow2(w) && b < Pow2(w)
    ensures Combine(op, a, b) < Pow2(w)
    decreases w
  {
    if w > 0 && (a != 0 || b != 0) {
      CombineBelow(op, a / 2, b / 2, w - 1);
    }
  }

  lemma {:induction false} ComplementBit(a: nat, w: nat, i: nat)
    requires a < Pow2(w)
    ensures Bit(Complement(a, w), i) == (i < w && !Bit(a, i))
    decreases w
  {
    if w == 0 {
      ZeroBits(i);
    } else {
      var c := Complement(a, w);
      assert c / 2 == Complement(a / 2, w - 1) && c % 2 == 1 - a % 2;
      if i > 0 { ComplementBit(a / 2, w - 1, i - 1); }
    }
  }

  /** a & (2^k - 1) keeps the remainder modulo 2^k. */
  lemma {:induction false} MaskLow(a: nat, k: nat)
    ensures Combine(And, a, Pow2(k) - 1) == a % Pow2(k)
    decreases k
  {
    if k == 0 {
      MaskNothing(a);
    } else {
      MaskLow(a / 2, k - 1);
      MaskStep(a, Pow2(k - 1));
    }
  }

  lemma MaskStep(a: nat, p: nat)
    requires p > 0 && Combine(And, a / 2, p - 1) == a / 2 % p
    ensures Combine(And, a, 2 * p - 1) == a % (2 * p)
  {
    var m := 2 * p - 1;
    assert m / 2 == p - 1 && m % 2 == 1;
    ModSplit(a, 2, p);
  }

  lemma MaskNothing(a: nat)
    ensures Combine(And, a, 0) == 0
  {
    forall i: nat ensures Bit(Combine(And, a, 0), i) == Bit(0, i) {
      CombineBit(And, a, 0, i);
      ZeroBits(i);
    }
    SameBits(Combine(And, a, 0), 0);
  }

  /** The remainder modulo a product, taken one factor at a time. */
  lemma ModSplit(a: nat, m: nat, p: nat)
    requires m > 0 && p > 0
    ensures m * p > 0 && a % (m * p) == m * (a / m % p) + a % m
  {
    var q, r, s := a / m / p, a / m % p, a % m;
    Regroup(m, p, q, r);
    MulMonotonic(m, r, p - 1);
    ModUnique(a, m * p, q, m * r + s);
  }

  lemma Regroup(m: int, p: int, q: int, r: int)
    ensures m * (q * p + r) == q * (m * p) + m * r
    ensures m * (p - 1) == m * p - m
  {
  }

  lemma MulMonotonic(m: nat, x: int, y: int)
    requires x <= y
    ensures m * x <= m * y
  {
  }

  lemma ModUnique(a: int, m: int, q: int, r: int)
    requires 0 <= r < m && a == q * m + r
    ensures a % m == r && a / m == q
  {
    var q', r' := a / m, a % m;
    assert a == m * q' + r';
    assert (q - q') * m == r' - r;
    SmallMultiple(q - q', m);
  }

  lemma SmallMultiple(d: int, m: int)
    requires -m < d * m < m
    ensures d == 0
  {
  }

  /** a & ~(2^k - 1), the complement taken within w bits, rounds a down to a multiple of 2^k. */
  lemma MaskHigh(a: nat, k: nat, w: nat)
    requires a < Pow2(w)
    requires Pow2(k) - 1 < Pow2(w)
    ensures Combine(And, a, Complement(Pow2(k) - 1, w)) == a - a % Pow2(k)
  {
    var m := Pow2(k) - 1;
    var high, low := Combine(And, a, Complement(m, w)), Combine(And, a, m);
    forall i: nat ensures (Bit(low, i) ==> Bit(a, i)) && Bit(high, i) == (Bit(a, i) && !Bit(low, i)) {
      MaskBit(a, m, w, i);
    }
    DisjointSum(a, high, low);
    MaskLow(a, k);
  }

  lemma MaskBit(a: nat, m: nat, w: nat, i: nat)
    requires a < Pow2(w) && m < Pow2(w)
    ensures Bit(Combine(And, a, m), i) ==> Bit(a, i)
    ensures Bit(Combine(And, a, Complement(m, w)), i) == (Bit(a, i) && !Bit(Combine(And, a, m), i))
  {
    CombineBit(And, a, Complement(m, w), i);
    ComplementBit(m, w, i);
    CombineBit(And, a, m, i);
    if i >= w { HighBitsClear(a, w, i); }
  }

  /** Splitting the bits of a over two words splits a into their sum. */
  lemma {:induction false} DisjointSum(a: nat, b: nat, c: nat)
    requires forall i: nat :: Bit(c, i) ==> Bit(a, i)
    requires forall i: nat :: Bit(b, i) == (Bit(a, i) && !Bit(c, i))
    ensures a == b + c
    decreases a + b + c
  {
    if a != 0 || b != 0 || c != 0 {
      assert Bit(b, 0) == (Bit(a, 0) && !Bit(c, 0)) && (Bit(c, 0) ==> Bit(a, 0));
      forall i: nat ensures (Bit(c / 2, i) ==> Bit(a / 2, i)) && Bit(b / 2, i) == (Bit(a / 2, i) && !Bit(c / 2, i)) {
        assert Bit(c, i + 1) ==> Bit(a, i + 1);
        assert Bit(b, i + 1) == (Bit(a, i + 1) && !Bit(c, i + 1));
      }
      DisjointSum(a / 2, b / 2, c / 2);
    }
  }

  lemma {:induction false} Pow2Add(m: nat, n: nat)
    ensures Pow2(m + n) == Pow2(m) * Pow2(n)
    decreases m
  {
    if m > 0 { Pow2Add(m - 1, n); }
  }

  lemma {:induction false} Pow2Monotonic(m: nat, n: nat)
    requires m <= n
    ensures Pow2(m) <= Pow2(n)
    decreases n - m
  {
    if m < n { Pow2Monotonic(m, n - 1); }
  }

  /** Cutting the all-ones word of n bits to m bits leaves all ones. */
  lemma AllOnesCut(m: nat, n: nat)
    requires m <= n
    ensures (Pow2(n) - 1) % Pow2(m) == Pow2(m) - 1
  {
    Pow2Add(n - m, m);
    AllOnesRemainder(Pow2(n - m), Pow2(m));
  }

  lemma AllOnesRemainder(q: nat, p: nat)
    requires p > 0 && q > 0
    ensures (q * p - 1) % p == p - 1
  {
    assert q * p - 1 == (q - 1) * p + (p - 1);
    ModUnique(q * p - 1, p, q - 1, p - 1);
  }

  /** The word sizes of C. */
  lemma WordSizes()
    ensures Pow2(4) == 0x10 && Pow2(8) == 0x100 && Pow2(16) == 0x1_0000
    ensures Pow2(31) == 0x8000_0000 && Pow2(32) == 0x1_0000_0000
    ensures Pow2(63) == 0x8000_0000_0000_0000 && Pow2(64) == 0x1_0000_0000_0000_0000
  {
    assert Pow2(4) == 0x10 && Pow2(8) == 0x100;
    Pow2Add(8, 8);
    Pow2Add(16, 16);
    Pow2Add(32, 32);
    assert Pow2(32) == 2 * Pow2(31) && Pow2(64) == 2 * Pow2(63);
  }

  lemma {:induction false} BitDiv(a: nat, i: nat)
    ensures Bit(a, i) == (a / Pow2(i) % 2 == 1)
    decreases i
  {
    if i > 0 {
      BitDiv(a / 2, i - 1);
      DivDiv(a, 2, Pow2(i - 1));
    }
  }

  lemma DivDiv(a: nat, m: nat, p: nat)
    requires m > 0 && p > 0
    ensures m * p > 0 && a / m / p == a / (m * p)
  {
    var q, r, s := a / m / p, a / m % p, a % m;
    Regroup(m, p, q, r);
    MulMonotonic(m, r, p - 1);
    ModUnique(a, m * p, q, m * r + s);
  }

  lemma {:induction false} SingleBit(b: nat, i: nat)
    ensures Bit(Pow2(b), i) == (i == b)
    decreases b
  {
    if b == 0 {
      if i > 0 { ZeroBits(i - 1); }
    } else if i > 0 {
      assert Pow2(b) / 2 == Pow2(b - 1);
      SingleBit(b - 1, i - 1);
    }
  }

  lemma OrOne(x: nat, b: nat)
    ensures Combine(Or, x, Pow2(b)) == if Bit(x, b) then x else x + Pow2(b)
  {
    hide Combine, Bit, Pow2;
    var r := Combine(Or, x, Pow2(b));
    forall i: nat ensures Bit(r, i) == (Bit(x, i) || i == b) {
      CombineBit(Or, x, Pow2(b), i);
      SingleBit(b, i);
    }
    if Bit(x, b) {
      SameBits(r, x);
    } else {
      forall i: nat ensures (Bit(x, i) ==> Bit(r, i)) && Bit(Pow2(b), i) == (Bit(r, i) && !Bit(x, i)) {
        SingleBit(b, i);
      }
      DisjointSum(r, Pow2(b), x);
    }
  }

  /** v & (1 << b) is nonzero exactly when bit b is set. */
  lemma MaskTests(v: nat, b: nat)
    ensures Combine(And, v, Pow2(b)) != 0 <==> Bit(v, b)
  {
    hide Combine, Bit, Pow2;
    var m := Combine(And, v, Pow2(b));
    CombineBit(And, v, Pow2(b), b);
    SingleBit(b, b);
    ZeroBits(b);
    if !Bit(v, b) {
      forall i: nat ensures Bit(m, i) == Bit(0, i) {
        CombineBit(And, v, Pow2(b), i);
        SingleBit(b, i);
        ZeroBits(i);
      }
      SameBits(m, 0);
    }
  }

  lemma {:induction false} ShiftLeftBit(v: nat, s: nat, i: nat)
    ensures Bit(v * Pow2(s), i) == (s <= i && Bit(v, i - s))
    decreases s
  {
    if s == 0 {
      assert v * Pow2(0) == v;
    } else {
      var half := v * Pow2(s - 1);
      Doubled(v, Pow2(s - 1));
      assert Pow2(s) == 2 * Pow2(s - 1) && v * Pow2(s) == 2 * half;
      assert Bit(2 * half, i) == (i > 0 && Bit(half, i - 1)) by {
        if i > 0 { assert 2 * half / 2 == half; }
      }
      if i > 0 { ShiftLeftBit(v, s - 1, i - 1); }
    }
  }

  lemma Doubled(v: nat, p: nat)
    ensures v * (2 * p) == 2 * (v * p)
  {
  }

  function Quotient(v: nat, p: nat): nat
    requires p > 0
  {
    v / p
  }

  lemma {:induction false} ShiftRightBit(v: nat, s: nat, i: nat)
    ensures Bit(Quotient(v, Pow2(s)), i) == Bit(v, i + s)
    decreases s
  {
    if s == 0 {
      assert Quotient(v, Pow2(0)) == v;
    } else {
      DivDiv(v, 2, Pow2(s - 1));
      assert Quotient(v, Pow2(s)) == Quotient(v / 2, Pow2(s - 1));
      ShiftRightBit(v / 2, s - 1, i);
    }
  }

  /** Cutting a number to w bits keeps its low w bits. */
  lemma CutBit(v: nat, w: nat, i: nat)
    ensures Bit(v % Pow2(w), i) == (i < w && Bit(v, i))
  {
    hide Combine, Bit;
    MaskLow(v, w);
    CombineBit(And, v, Pow2(w) - 1, i);
    ComplementBit(0, w, i);
    ZeroBits(i);
  }
}
