/** Python's bitwise operators on integers. */
module Bits {

  function Pow2(k: nat): (p: nat)
    ensures p > 0
  {
    if k == 0 then 1 else 2 * Pow2(k - 1)
  }

  /** a | b */
  function BitOr(a: nat, b: nat): nat
    decreases a + b
  {
    if a == 0 && b == 0 then 0
    else 2 * BitOr(a / 2, b / 2) + (if a % 2 == 1 || b % 2 == 1 then 1 else 0)
  }

  function Abs(a: int): nat { if a < 0 then -a else a }

  /** a ^ b on Python integers: negative numbers are two's complement without end. */
  function BitXor(a: int, b: int): int
    decreases Abs(a) + Abs(b)
  {
    if -1 <= a <= 0 && -1 <= b <= 0 then if a == b then 0 else -1
    else 2 * BitXor(a / 2, b / 2) + (if a % 2 == b % 2 then 0 else 1)
  }

  /** Binary digit i of an integer; negative numbers have ones without end. */
  function Bit(a: int, i: nat): bool
    decreases i
  {
    if i == 0 then a % 2 == 1 else Bit(a / 2, i - 1)
  }

  lemma OrUnrolled(a: nat, b: nat)
    ensures BitOr(a, b) / 2 == BitOr(a / 2, b / 2)
    ensures BitOr(a, b) % 2 == 1 <==> a % 2 == 1 || b % 2 == 1
  {
  }

  lemma {:induction false} OrBits(a: nat, b: nat, i: nat)
    ensures Bit(BitOr(a, b), i) == (Bit(a, i) || Bit(b, i))
    decreases i
  {
    hide BitOr;
    OrUnrolled(a, b);
    if i > 0 {
      OrBits(a / 2, b / 2, i - 1);
    }
  }

  lemma {:induction false} XorBits(a: int, b: int, i: nat)
    ensures Bit(BitXor(a, b), i) == (Bit(a, i) != Bit(b, i))
    decreases i
  {
    hide BitXor;
    XorUnrolled(a, b);
    if i > 0 {
      XorBits(a / 2, b / 2, i - 1);
    }
  }

  lemma Halved(a: int)
    ensures Abs(a / 2) <= Abs(a) && (Abs(a / 2) < Abs(a) || -1 <= a <= 0)
  {
  }

  lemma XorUnrolled(a: int, b: int)
    ensures BitXor(a, b) == 2 * BitXor(a / 2, b / 2) + (if a % 2 == b % 2 then 0 else 1)
    ensures BitXor(a, b) / 2 == BitXor(a / 2, b / 2)
    ensures BitXor(a, b) % 2 == if a % 2 == b % 2 then 0 else 1
  {
  }

  lemma {:induction false} XorCommutes(a: int, b: int)
    ensures BitXor(a, b) == BitXor(b, a)
    decreases Abs(a) + Abs(b)
  {
    if !(-1 <= a <= 0 && -1 <= b <= 0) {
      XorCommutes(a / 2, b / 2);
    }
  }

  lemma {:induction false} XorAssociates(a: int, b: int, c: int)
    ensures BitXor(BitXor(a, b), c) == BitXor(a, BitXor(b, c))
    decreases Abs(a) + Abs(b) + Abs(c)
  {
    if -1 <= a <= 0 && -1 <= b <= 0 && -1 <= c <= 0 {
      var ab, bc := BitXor(a, b), BitXor(b, c);
      assert BitXor(ab, c) == BitXor(a, bc);
    } else {
      hide BitXor, Abs;
      Halved(a);
      Halved(b);
      Halved(c);
      XorAssociates(a / 2, b / 2, c / 2);
      XorUnrolled(a, b);
      XorUnrolled(b, c);
      XorUnrolled(BitXor(a, b), c);
      XorUnrolled(a, BitXor(b, c));
    }
  }

  lemma {:induction false} XorZero(a: int)
    ensures BitXor(a, 0) == a
    decreases Abs(a)
  {
    if !(-1 <= a <= 0) {
      XorZero(a / 2);
    }
  }

  lemma {:induction false} LowStep(a: int, k: nat)
    requires k > 0
    ensures (a % Pow2(k)) / 2 == (a / 2) % Pow2(k - 1)
    ensures (a % Pow2(k)) % 2 == a % 2
  {
    var p, h := Pow2(k - 1), a / 2;
    assert a == 2 * h + a % 2;
    assert h == p * (h / p) + h % p;
    var q, r := h / p, 2 * (h % p) + a % 2;
    assert 2 * (p * q) == (2 * p) * q;
    assert a == (2 * p) * q + r;
    LowOf(2 * p, q, r);
  }

  lemma LowOf(p: int, q: int, r: int)
    requires 0 <= r < p
    ensures (p * q + r) % p == r
  {
    var n := p * q + r;
    var d, m := n / p, n % p;
    assert n == p * d + m;
    SmallMultiple(p, q - d, m - r);
  }

  lemma SmallMultiple(p: int, t: int, m: int)
    requires -p < m < p && m == p * t
    ensures m == 0
  {
    if t >= 1 {
      AtLeast(p, t);
    } else if t <= -1 {
      AtLeast(p, -t);
    }
  }

  lemma {:induction false} AtLeast(p: int, t: int)
    requires p > 0 && t >= 1
    ensures p * t >= p
    decreases t
  {
    if t > 1 {
      AtLeast(p, t - 1);
      assert p * t == p * (t - 1) + p;
    }
  }

  /** The low word of a xor is the xor of the low words. */
  lemma {:induction false} LowXor(a: int, b: int, k: nat)
    ensures BitXor(a, b) % Pow2(k) == BitXor(a % Pow2(k), b % Pow2(k))
    decreases k
  {
    if k > 0 {
      LowXor(a / 2, b / 2, k - 1);
      LowStep(a, k);
      LowStep(b, k);
      LowStep(BitXor(a, b), k);
      XorUnrolled(a, b);
      XorUnrolled(a % Pow2(k), b % Pow2(k));
      hide BitXor, Pow2;
    }
  }

  /** n >> k */
  function Shr(n: int, k: nat): int
    decreases k
  {
    if k == 0 then n else Shr(n / 2, k - 1)
  }

  /** A shift of a xor is the xor of the shifts. */
  lemma {:induction false} ShrXor(a: int, b: int, k: nat)
    ensures Shr(BitXor(a, b), k) == BitXor(Shr(a, k), Shr(b, k))
    decreases k
  {
    hide BitXor;
    if k > 0 {
      XorUnrolled(a, b);
      ShrXor(a / 2, b / 2, k - 1);
    }
  }

  /** Shifting right by some places and then by more. */
  lemma {:induction false} ShrAdd(n: int, j: nat, k: nat)
    ensures Shr(n, j + k) == Shr(Shr(n, j), k)
    decreases j
  {
    if j > 0 {
      ShrAdd(n / 2, j - 1, k);
    }
  }

  lemma {:induction false} XorSelf(a: int)
    ensures BitXor(a, a) == 0
    decreases Abs(a)
  {
    if !(-1 <= a <= 0) {
      XorSelf(a / 2);
    }
  }

  /** A xor that cancels says that both sides are the same. */
  lemma XorCancels(a: int, b: int, c: int)
    ensures BitXor(a, c) == BitXor(b, c) ==> a == b
    ensures BitXor(a, b) == 0 ==> a == b
  {
    hide BitXor;
    XorAssociates(a, c, c);
    XorAssociates(b, c, c);
    XorAssociates(a, b, b);
    XorSelf(c);
    XorSelf(b);
    XorZero(a);
    XorZero(b);
    XorCommutes(0, b);
  }

  /** Words stay words. */
  lemma XorBound(a: nat, b: nat, k: nat)
    requires a < Pow2(k) && b < Pow2(k)
    ensures 0 <= BitXor(a, b) < Pow2(k)
  {
    hide BitXor, Pow2;
    LowXor(a, b, k);
    assert a % Pow2(k) == a && b % Pow2(k) == b by {
      LowOf(Pow2(k), 0, a);
      LowOf(Pow2(k), 0, b);
    }
  }

  lemma WordSize()
    ensures Pow2(64) == 0x1_0000_0000_0000_0000
  {
    assert Pow2(8) == 0x100;
    assert Pow2(16) == 0x1_0000;
    assert Pow2(24) == 0x100_0000;
    assert Pow2(32) == 0x1_0000_0000;
    assert Pow2(40) == 0x100_0000_0000;
    assert Pow2(48) == 0x1_0000_0000_0000;
    assert Pow2(56) == 0x100_0000_0000_0000;
  }
}
