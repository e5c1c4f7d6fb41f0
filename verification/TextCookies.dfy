/** The opaque integer returned by TextIOWrapper.tell. */
module TextCookies {
  import opened Bits

  /** A place in the text: a start in the file with decoder flags, and how many bytes decoded from
      there, the last time finally or not, lead past how many characters to it. */
  datatype Cookie = Cookie(position: nat, decFlags: nat, bytesToFeed: nat, needEof: bool, charsToSkip: nat)

  function Shl(a: nat, k: nat): nat { a * Pow2(k) }

  function Pack(c: Cookie): nat
  {
    BitOr(BitOr(BitOr(BitOr(c.position, Shl(c.decFlags, 64)), Shl(c.bytesToFeed, 128)),
                Shl(c.charsToSkip, 192)),
          Shl(if c.needEof then 1 else 0, 256))
  }

  function Unpack(bigint: nat): Cookie
  {
    var w := Pow2(64);
    var rest, position := bigint / w, bigint % w;
    var rest2, decFlags := rest / w, rest % w;
    var rest3, bytesToFeed := rest2 / w, rest2 % w;
    var needEof, charsToSkip := rest3 / w, rest3 % w;
    Cookie(position, decFlags, bytesToFeed, needEof != 0, charsToSkip)
  }

  /** Every numeric field fits a 64-bit slot. */
  predicate Fits(c: Cookie)
  {
    var w := Pow2(64);
    c.position < w && c.decFlags < w && c.bytesToFeed < w && c.charsToSkip < w
  }

  lemma {:induction false} OrZero(b: nat)
    ensures BitOr(0, b) == b
  {
    if b > 0 {
      OrZero(b / 2);
    }
  }

  lemma ShlStep(b: nat, k: nat)
    requires k > 0
    ensures Shl(b, k) / 2 == Shl(b, k - 1) && Shl(b, k) % 2 == 0
  {
    assert b * Pow2(k) == 2 * (b * Pow2(k - 1));
  }

  /** Or-ing in a value shifted past the other operand is adding it. */
  lemma {:induction false} OrAbove(a: nat, b: nat, k: nat)
    requires a < Pow2(k)
    ensures BitOr(a, Shl(b, k)) == a + Shl(b, k)
  {
    if k == 0 {
      OrZero(b);
    } else {
      ShlStep(b, k);
      OrAbove(a / 2, b, k - 1);
    }
  }

  lemma MulAssoc(a: nat, b: nat, c: nat)
    ensures (a * b) * c == a * (b * c)
  {
  }

  lemma Pow2Unrolled(j: nat)
    ensures Pow2(j) == if j == 0 then 1 else 2 * Pow2(j - 1)
  {
  }

  lemma {:induction false} Pow2Add(j: nat, k: nat)
    ensures Pow2(j + k) == Pow2(j) * Pow2(k)
  {
    hide Pow2;
    Pow2Unrolled(j);
    if j > 0 {
      Pow2Add(j - 1, k);
      Pow2Unrolled(j + k);
      MulAssoc(2, Pow2(j - 1), Pow2(k));
    }
  }

  lemma ShlShl(b: nat, j: nat, k: nat)
    ensures Shl(Shl(b, j), k) == Shl(b, j + k)
  {
    hide Pow2;
    Pow2Add(j, k);
    MulAssoc(b, Pow2(j), Pow2(k));
  }

  lemma {:induction false} OrAssoc(a: nat, b: nat, c: nat)
    ensures BitOr(BitOr(a, b), c) == BitOr(a, BitOr(b, c))
    decreases a + b + c
  {
    if a + b + c > 0 {
      OrAssoc(a / 2, b / 2, c / 2);
    }
  }

  lemma {:induction false} OrShl(a: nat, b: nat, k: nat)
    ensures BitOr(Shl(a, k), Shl(b, k)) == Shl(BitOr(a, b), k)
  {
    if k > 0 {
      OrShl(a, b, k - 1);
      ShlStep(a, k);
      ShlStep(b, k);
      ShlStep(BitOr(a, b), k);
    }
  }

  /** `high` shifted 64 places above `low`, as tell nests its fields. */
  function Above(low: nat, high: nat): nat
  {
    BitOr(low, Shl(high, 64))
  }

  lemma AboveShl(low: nat, high: nat, k: nat)
    ensures Shl(Above(low, high), k) == BitOr(Shl(low, k), Shl(high, 64 + k))
  {
    hide BitOr, Shl, Pow2;
    OrShl(low, Shl(high, 64), k);
    ShlShl(high, 64, k);
  }

  /** The five shifts and ors are one 64-bit slot put above another, four times. */
  lemma PackNests(c: Cookie)
    ensures Pack(c) == Above(c.position, Above(c.decFlags, Above(c.bytesToFeed,
                             Above(c.charsToSkip, if c.needEof then 1 else 0))))
  {
    hide BitOr, Shl, Pow2;
    var e := if c.needEof then 1 else 0;
    var s := Above(c.charsToSkip, e);
    var b := Above(c.bytesToFeed, s);
    AboveShl(c.decFlags, b, 64);
    AboveShl(c.bytesToFeed, s, 128);
    AboveShl(c.charsToSkip, e, 192);
    OrAssoc(c.position, Shl(c.decFlags, 64), Shl(b, 128));
    var pf := BitOr(c.position, Shl(c.decFlags, 64));
    OrAssoc(pf, Shl(c.bytesToFeed, 128), Shl(s, 192));
    var pfb := BitOr(pf, Shl(c.bytesToFeed, 128));
    OrAssoc(pfb, Shl(c.charsToSkip, 192), Shl(e, 256));
  }

  lemma MulLe(a: nat, b: nat, c: nat)
    requires a <= b
    ensures a * c <= b * c
  {
  }

  lemma DivMod(n: nat, low: nat, high: nat, w: nat)
    requires low < w && n == low + high * w
    ensures n / w == high && n % w == low
  {
    var q := n / w;
    assert n == q * w + n % w;
    assert (q + 1) * w == q * w + w;
    assert (high + 1) * w == high * w + w;
    if q < high {
      MulLe(q + 1, high, w);
    } else if q > high {
      MulLe(high + 1, q, w);
    }
  }

  /** One divmod takes off one slot. */
  lemma AboveDivMod(low: nat, high: nat)
    requires low < Pow2(64)
    ensures Above(low, high) / Pow2(64) == high && Above(low, high) % Pow2(64) == low
  {
    hide Pow2, BitOr;
    OrAbove(low, high, 64);
    DivMod(Above(low, high), low, high, Pow2(64));
  }

  const SLOT := 0x1_0000_0000_0000_0000

  /** Which number a cookie is whose fields fit: its fields are the digits, lowest first. */
  lemma PackDigits(c: Cookie)
    requires Fits(c)
    ensures Pack(c) == c.position + SLOT * (c.decFlags + SLOT * (c.bytesToFeed + SLOT * (c.charsToSkip
                       + SLOT * if c.needEof then 1 else 0)))
  {
    hide Pack, BitOr, Pow2;
    WordSize();
    var e := if c.needEof then 1 else 0;
    var s := Above(c.charsToSkip, e);
    var b := Above(c.bytesToFeed, s);
    var f := Above(c.decFlags, b);
    PackNests(c);
    OrAbove(c.position, f, 64);
    OrAbove(c.decFlags, b, 64);
    OrAbove(c.bytesToFeed, s, 64);
    OrAbove(c.charsToSkip, e, 64);
  }

  /** Unpacking gives back what was packed exactly when every number fits its slot. */
  lemma UnpackPack(c: Cookie)
    ensures Unpack(Pack(c)) == c <==> Fits(c)
  {
    hide Pack, Above, Pow2;
    if Fits(c) {
      var e := if c.needEof then 1 else 0;
      var s := Above(c.charsToSkip, e);
      var b := Above(c.bytesToFeed, s);
      var f := Above(c.decFlags, b);
      PackNests(c);
      AboveDivMod(c.position, f);
      AboveDivMod(c.decFlags, b);
      AboveDivMod(c.bytesToFeed, s);
      AboveDivMod(c.charsToSkip, e);
    } else {
      UnpackFits(Pack(c));
    }
  }

  /** A position of 2**64 runs into the slot of the flags: its cookie is that of position 0 with flags 1. */
  lemma PositionOverflows()
    ensures Pack(Cookie(Pow2(64), 0, 0, false, 0)) == Pack(Cookie(0, 1, 0, false, 0))
  {
    hide Pow2;
    PackPlain(Pow2(64));
    OrZero(Shl(1, 64));
    OrZeroRight(Shl(1, 64));
  }

  lemma UnpackFits(bigint: nat)
    ensures Fits(Unpack(bigint))
  {
    hide Pow2;
    ModLess(bigint);
    ModLess(bigint / Pow2(64));
    ModLess(bigint / Pow2(64) / Pow2(64));
    ModLess(bigint / Pow2(64) / Pow2(64) / Pow2(64));
  }

  lemma ModLess(n: nat)
    ensures n % Pow2(64) < Pow2(64)
  {
  }

  /** Distinct fields give distinct cookies. */
  lemma PackInjective(c: Cookie, d: Cookie)
    requires Fits(c) && Fits(d) && Pack(c) == Pack(d)
    ensures c == d
  {
    hide Pack, Unpack;
    UnpackPack(c);
    UnpackPack(d);
  }

  lemma DivAbove(n: nat)
    ensures n / Pow2(64) >= 0 && Above(n % Pow2(64), n / Pow2(64)) == n
  {
    hide Pow2, BitOr;
    ModLess(n);
    OrAbove(n % Pow2(64), n / Pow2(64), 64);
  }

  lemma DivLess(n: nat, k: nat)
    requires n < 2 * Pow2(k + 64)
    ensures n / Pow2(64) < 2 * Pow2(k)
  {
    hide Pow2;
    Pow2Add(k, 64);
    var q := n / Pow2(64);
    assert n >= q * Pow2(64);
    assert 2 * Pow2(k + 64) == (2 * Pow2(k)) * Pow2(64);
    if q >= 2 * Pow2(k) {
      MulLe(2 * Pow2(k), q, Pow2(64));
    }
  }

  /** Packing gives back every integer below 2**257, the range tell can return. */
  lemma PackUnpack(bigint: nat)
    requires bigint < 2 * Pow2(256)
    ensures Pack(Unpack(bigint)) == bigint
  {
    hide Pack, Above, Pow2;
    var w := Pow2(64);
    var r1 := bigint / w;
    var r2 := r1 / w;
    var r3 := r2 / w;
    DivLess(bigint, 192);
    DivLess(r1, 128);
    DivLess(r2, 64);
    DivLess(r3, 0);
    OneIsPow2();
    DivAbove(bigint);
    DivAbove(r1);
    DivAbove(r2);
    DivAbove(r3);
    PackNests(Unpack(bigint));
  }

  lemma OneIsPow2()
    ensures Pow2(0) == 1
  {
  }

  lemma UnpackZero()
    ensures Unpack(0) == Cookie(0, 0, 0, false, 0)
  {
  }

  /** A plain byte position is its own cookie. */
  lemma PackPlain(position: nat)
    ensures Pack(Cookie(position, 0, 0, false, 0)) == position
  {
    OrZeroRight(position);
  }

  lemma {:induction false} OrZeroRight(a: nat)
    ensures BitOr(a, 0) == a
  {
    if a > 0 {
      OrZeroRight(a / 2);
    }
  }
}
