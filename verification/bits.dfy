/**
 Machine words as natural numbers, bit by bit.

 C's `|`, `&`, `& ~`, `<<`, `>>` and low-bit masks on unsigned integers are
 defined by recursion on the bits, so that every law below is a plain induction
 without non-linear arithmetic. Widths are subset types: assigning to one is the
 proof that no bit is lost.
 */
module Bits {

  type byte = x: nat | x < 0x100
  type uint16 = x: nat | x < 0x1_0000
  type uint32 = x: nat | x < 0x1_0000_0000
  type uint64 = x: nat | x < 0x1_0000_0000_0000_0000

  function Pow2(n: nat): (r: nat)
    ensures r > 0
  {
    if n == 0 then 1 else 2 * Pow2(n - 1)
  }

  /** The powers of two that word sizes are made of; `n` is not a literal, so that callers do not unfold it. */
  lemma Pow2Values(n: nat)
    ensures n == 4 ==> Pow2(n) == 16
    ensures n == 8 ==> Pow2(n) == 0x100
    ensures n == 15 ==> Pow2(n) == 0x8000
    ensures n == 16 ==> Pow2(n) == 0x1_0000
    ensures n == 32 ==> Pow2(n) == 0x1_0000_0000
  {
    if n >= 4 {
      assert Pow2(n) == 2 * Pow2(n - 1) == 4 * Pow2(n - 2) == 8 * Pow2(n - 3) == 16 * Pow2(n - 4);
      if n == 4 {
        assert Pow2(n - 4) == 1;
      } else if n == 15 {
        Pow2Double(8);
        Pow2Values(8);
        assert Pow2(16) == 2 * Pow2(n);
      } else if n in {8, 16, 32} {
        Pow2Double(n / 2);
        Pow2Values(n / 2);
      }
    }
  }

  lemma Pow2Double(n: nat)
    ensures Pow2(n + n) == Pow2(n) * Pow2(n)
  {
    Pow2Shl(n, n);
    ShlIsMul(Pow2(n), n);
  }

  /** Bit `i` of `x`, counted from the least significant. */
  predicate Bit(x: nat, i: nat)
    decreases i
  {
    if i == 0 then x % 2 == 1 else Bit(x / 2, i - 1)
  }

  function B2N(b: bool): nat {
    if b then 1 else 0
  }

  /** `x << n` on unbounded naturals. */
  function Shl(x: nat, n: nat): nat {
    if n == 0 then x else 2 * Shl(x, n - 1)
  }

  /** `x >> n` */
  function Shr(x: nat, n: nat): nat
    decreases n, x
  {
    if n == 0 then x else Shr(x / 2, n - 1)
  }

  /** `x & ((1 << n) - 1)` */
  function Low(x: nat, n: nat): nat
    decreases n, x
  {
    if n == 0 then 0 else x % 2 + 2 * Low(x / 2, n - 1)
  }

  /** `x | y` */
  function Or(x: nat, y: nat): nat {
    if x == 0 then y else (if x % 2 == 1 || y % 2 == 1 then 1 else 0) + 2 * Or(x / 2, y / 2)
  }

  /** `x & y` */
  function And(x: nat, y: nat): nat {
    if x == 0 then 0 else (if x % 2 == 1 && y % 2 == 1 then 1 else 0) + 2 * And(x / 2, y / 2)
  }

  /** `x & ~y` */
  function AndNot(x: nat, y: nat): nat {
    if x == 0 then 0 else (if x % 2 == 1 && y % 2 == 0 then 1 else 0) + 2 * AndNot(x / 2, y / 2)
  }

  /** The low `n` bits of `x` in reverse order. */
  function Rev(x: nat, n: nat): nat {
    if n == 0 then 0 else 2 * Rev(x, n - 1) + B2N(Bit(x, n - 1))
  }

  // ----- single bits of the operations

  lemma {:induction false} BitOr(x: nat, y: nat, i: nat)
    ensures Bit(Or(x, y), i) <==> Bit(x, i) || Bit(y, i)
    decreases i
  {
    if x == 0 {
      BitZero(i);
    } else if i > 0 {
      BitOr(x / 2, y / 2, i - 1);
    }
  }

  lemma {:induction false} BitAnd(x: nat, y: nat, i: nat)
    ensures Bit(And(x, y), i) <==> Bit(x, i) && Bit(y, i)
    decreases i
  {
    if x == 0 {
      BitZero(i);
    } else if i > 0 {
      BitAnd(x / 2, y / 2, i - 1);
    }
  }

  lemma {:induction false} BitAndNot(x: nat, y: nat, i: nat)
    ensures Bit(AndNot(x, y), i) <==> Bit(x, i) && !Bit(y, i)
    decreases i
  {
    if x == 0 {
      BitZero(i);
    } else if i > 0 {
      BitAndNot(x / 2, y / 2, i - 1);
    }
  }

  lemma {:induction false} BitZero(i: nat)
    ensures !Bit(0, i)
  {
    if i > 0 { BitZero(i - 1); }
  }

  lemma {:induction false} BitShl(x: nat, n: nat, i: nat)
    ensures Bit(Shl(x, n), i) <==> i >= n && Bit(x, i - n)
    decreases n
  {
    if n > 0 && i > 0 { BitShl(x, n - 1, i - 1); }
  }

  lemma {:induction false} BitShr(x: nat, n: nat, i: nat)
    ensures Bit(Shr(x, n), i) <==> Bit(x, i + n)
    decreases n
  {
    if n > 0 { BitShr(x / 2, n - 1, i); }
  }

  /** `1 << n` has exactly one bit. */
  lemma {:induction false} BitPow2(n: nat, i: nat)
    ensures Bit(Pow2(n), i) <==> i == n
  {
    if n == 0 {
      if i > 0 { BitZero(i - 1); }
    } else if i > 0 {
      BitPow2(n - 1, i - 1);
    }
  }

  lemma {:induction false} BitAbove(x: nat, n: nat, i: nat)
    requires x < Pow2(n) && n <= i
    ensures !Bit(x, i)
    decreases n
  {
    if n == 0 { BitZero(i); } else { BitAbove(x / 2, n - 1, i - 1); }
  }

  /** Two words with the same bits are equal. */
  lemma {:induction false} BitExt(x: nat, y: nat, n: nat)
    requires x < Pow2(n) && y < Pow2(n)
    requires forall i :: 0 <= i < n ==> Bit(x, i) == Bit(y, i)
    ensures x == y
    decreases n
  {
    if n > 0 {
      assert Bit(x, 0) == Bit(y, 0);
      forall i | 0 <= i < n - 1 ensures Bit(x / 2, i) == Bit(y / 2, i) {
        assert Bit(x, i + 1) == Bit(y, i + 1);
      }
      BitExt(x / 2, y / 2, n - 1);
    }
  }

  lemma {:induction false} NonzeroHasBit(x: nat, n: nat) returns (i: nat)
    requires 0 < x < Pow2(n)
    ensures i < n && Bit(x, i)
    decreases n
  {
    if x % 2 == 1 {
      i := 0;
    } else {
      i := NonzeroHasBit(x / 2, n - 1);
      i := i + 1;
    }
  }

  // ----- bounds

  lemma {:induction false} OrBound(x: nat, y: nat, n: nat)
    requires x < Pow2(n) && y < Pow2(n)
    ensures Or(x, y) < Pow2(n)
    decreases n
  {
    if n > 0 && x > 0 { OrBound(x / 2, y / 2, n - 1); }
  }

  lemma {:induction false} AndBound(x: nat, y: nat)
    ensures And(x, y) <= x && And(x, y) <= y
  {
    if x > 0 { AndBound(x / 2, y / 2); }
  }

  lemma {:induction false} AndNotBound(x: nat, y: nat)
    ensures AndNot(x, y) <= x
  {
    if x > 0 { AndNotBound(x / 2, y / 2); }
  }

  lemma {:induction false} Pow2Mono(m: nat, n: nat)
    requires m <= n
    ensures Pow2(m) <= Pow2(n)
    decreases n
  {
    if m < n { Pow2Mono(m, n - 1); }
  }

  lemma {:induction false} Pow2Shl(m: nat, n: nat)
    ensures Shl(Pow2(m), n) == Pow2(m + n)
  {
    if n > 0 { Pow2Shl(m, n - 1); }
  }

  lemma {:induction false} ShlIsMul(x: nat, n: nat)
    ensures Shl(x, n) == x * Pow2(n)
  {
    if n > 0 { ShlIsMul(x, n - 1); }
  }

  lemma {:induction false} ShlGrows(x: nat, n: nat)
    ensures x <= Shl(x, n)
  {
    if n > 0 { ShlGrows(x, n - 1); }
  }

  lemma {:induction false} ShlMono(x: nat, y: nat, n: nat)
    ensures x < y ==> Shl(x, n) + Pow2(n) <= Shl(y, n)
    ensures x <= y ==> Shl(x, n) <= Shl(y, n)
  {
    if n > 0 { ShlMono(x, y, n - 1); }
  }

  lemma {:induction false} ShlTwice(x: nat, m: nat, n: nat)
    ensures Shl(Shl(x, m), n) == Shl(x, m + n)
  {
    if n > 0 { ShlTwice(x, m, n - 1); }
  }

  /** `x` below bit `n` and `y` above it stay below bit `n + m` together. */
  lemma {:induction false} JoinBound(x: nat, y: nat, n: nat, m: nat)
    requires x < Pow2(n) && y < Pow2(m)
    ensures x + Shl(y, n) < Pow2(n + m)
  {
    ShlMono(y, Pow2(m), n);
    Pow2Shl(m, n);
  }

  lemma {:induction false} LowBound(x: nat, n: nat)
    ensures Low(x, n) < Pow2(n) && Low(x, n) <= x
    decreases n
  {
    if n > 0 { LowBound(x / 2, n - 1); }
  }

  lemma {:induction false} LowIdentity(x: nat, n: nat)
    requires x < Pow2(n)
    ensures Low(x, n) == x
    decreases n
  {
    if n > 0 { LowIdentity(x / 2, n - 1); }
  }

  lemma {:induction false} RevBound(x: nat, n: nat)
    ensures Rev(x, n) < Pow2(n)
  {
    if n > 0 { RevBound(x, n - 1); }
  }

  // ----- splitting and joining

  lemma {:induction false} LowShr(x: nat, n: nat)
    ensures Low(x, n) + Shl(Shr(x, n), n) == x
    decreases n
  {
    if n > 0 {
      LowShr(x / 2, n - 1);
    }
  }

  /** Or-ing disjoint bit ranges is adding them; both parts can be read back. */
  lemma {:induction false} OrDisjoint(x: nat, y: nat, n: nat)
    requires x < Pow2(n)
    ensures Or(x, Shl(y, n)) == x + Shl(y, n)
    ensures Low(x + Shl(y, n), n) == x
    ensures Shr(x + Shl(y, n), n) == y
    decreases n
  {
    if n > 0 {
      OrDisjoint(x / 2, y, n - 1);
      assert Shl(y, n) / 2 == Shl(y, n - 1);
      assert (x + Shl(y, n)) / 2 == x / 2 + Shl(y, n - 1);
      assert (x + Shl(y, n)) % 2 == x % 2;
      if x == 0 {
        assert Or(x, Shl(y, n)) == Shl(y, n);
      } else if x / 2 == 0 {
        assert Or(x / 2, Shl(y, n - 1)) == Shl(y, n - 1);
      }
    }
  }

  lemma {:induction false} LowLow(x: nat, n: nat, m: nat)
    requires m <= n
    ensures Low(Low(x, n), m) == Low(x, m)
    decreases m
  {
    if m > 0 {
      assert Low(x, n) / 2 == Low(x / 2, n - 1);
      LowLow(x / 2, n - 1, m - 1);
    }
  }

  lemma {:induction false} BitLow(x: nat, n: nat, i: nat)
    requires i < n
    ensures Bit(Low(x, n), i) == Bit(x, i)
    decreases i
  {
    assert Low(x, n) / 2 == Low(x / 2, n - 1);
    if i > 0 { BitLow(x / 2, n - 1, i - 1); }
  }

  lemma {:induction false} RevLow(x: nat, n: nat, m: nat)
    requires m <= n
    ensures Rev(Low(x, n), m) == Rev(x, m)
    decreases m
  {
    if m > 0 {
      BitLow(x, n, m - 1);
      RevLow(x, n, m - 1);
    }
  }

  /** The first `m` reversed bits are the high bits of the reversal. */
  lemma {:induction false} ShrRev(x: nat, n: nat, m: nat)
    requires m <= n
    ensures Shr(Rev(x, n), n - m) == Rev(x, m)
    decreases n
  {
    if m < n {
      assert Rev(x, n) / 2 == Rev(x, n - 1);
      ShrRev(x, n - 1, m);
    }
  }

  lemma {:induction false} BitRev(x: nat, n: nat, i: nat)
    requires i < n
    ensures Bit(Rev(x, n), i) == Bit(x, n - 1 - i)
    decreases n
  {
    assert Rev(x, n) / 2 == Rev(x, n - 1);
    if i > 0 { BitRev(x, n - 1, i - 1); }
  }

  lemma {:induction false} RevRev(x: nat, n: nat)
    requires x < Pow2(n)
    ensures Rev(Rev(x, n), n) == x
  {
    RevBound(Rev(x, n), n);
    forall i | 0 <= i < n ensures Bit(Rev(Rev(x, n), n), i) == Bit(x, i) {
      BitRev(Rev(x, n), n, i);
      BitRev(x, n, n - 1 - i);
    }
    BitExt(Rev(Rev(x, n), n), x, n);
  }

  /** `k < e << n` compares the bits of `k` above `n` with `e`. */
  lemma {:induction false} LessShl(k: nat, e: nat, n: nat)
    ensures k < Shl(e, n) <==> Shr(k, n) < e
    decreases n
  {
    if n > 0 { LessShl(k / 2, e, n - 1); }
  }

  // ----- single-bit masks

  /** `x | (1 << i)` */
  lemma SetBit(x: nat, i: nat, n: nat)
    requires x < Pow2(n) && i < n
    ensures Or(x, Pow2(i)) < Pow2(n)
    ensures forall o: nat {:trigger Bit(x, o)} :: Bit(Or(x, Pow2(i)), o) <==> Bit(x, o) || o == i
  {
    Pow2Mono(i + 1, n);
    OrBound(x, Pow2(i), n);
    forall o: nat ensures Bit(Or(x, Pow2(i)), o) <==> Bit(x, o) || o == i {
      BitOr(x, Pow2(i), o);
      BitPow2(i, o);
    }
  }

  /** `x & ~(1 << i)` */
  lemma ClearBit(x: nat, i: nat)
    ensures AndNot(x, Pow2(i)) <= x
    ensures forall o: nat {:trigger Bit(x, o)} :: Bit(AndNot(x, Pow2(i)), o) <==> Bit(x, o) && o != i
  {
    AndNotBound(x, Pow2(i));
    forall o: nat ensures Bit(AndNot(x, Pow2(i)), o) <==> Bit(x, o) && o != i {
      BitAndNot(x, Pow2(i), o);
      BitPow2(i, o);
    }
  }

  lemma {:induction false} TopBit(x: nat, k: nat)
    requires Pow2(k) <= x < Pow2(k + 1)
    ensures Bit(x, k) && forall i: nat :: i > k ==> !Bit(x, i)
    decreases k
  {
    forall i: nat | i > k ensures !Bit(x, i) { BitAbove(x, k + 1, i); }
    if k > 0 { TopBit(x / 2, k - 1); }
  }

  lemma Bit5(x: byte)
    ensures Bit(x, 5) <==> x / 32 % 2 == 1
  {
    var a, b := x / 2, x / 4;
    assert Bit(x, 5) == Bit(a, 4) == Bit(b, 3) == Bit(b / 2, 2) == Bit(b / 4, 1) == Bit(b / 8, 0);
  }
}
