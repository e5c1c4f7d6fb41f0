/** Set.__le__, Set.__eq__ and Set._hash of Lib/_collections_abc.py. */
module SetHashes {
  import opened Bits

  /** A 64-bit machine word; sys.maxsize is 2**63 - 1. */
  const WORD := 0x1_0000_0000_0000_0000
  type Word = n: int | 0 <= n < WORD

  const MAX := 0x7FFF_FFFF_FFFF_FFFF

  /** Elements with an equality and a hash, as Python objects have them. */
  datatype Elements<!T> = Elements(eq: (T, T) -> bool, hash: T -> int)

  /** Equality is an equivalence, and equal elements hash alike. */
  ghost predicate Lawful<T(!new)>(e: Elements<T>)
  {
    && (forall x :: e.eq(x, x))
    && (forall x, y :: e.eq(x, y) ==> e.eq(y, x) && e.hash(x) == e.hash(y))
    && (forall x, y, z :: e.eq(x, y) && e.eq(y, z) ==> e.eq(x, z))
  }

  ghost predicate Contains<T>(e: Elements<T>, s: seq<T>, x: T)
  {
    exists i :: 0 <= i < |s| && e.eq(s[i], x)
  }

  /** The order in which a set yields its elements: no two equal. */
  ghost predicate Distinct<T>(e: Elements<T>, s: seq<T>)
  {
    forall i, j :: 0 <= i < j < |s| ==> !e.eq(s[i], s[j])
  }

  ghost predicate Subset<T>(e: Elements<T>, a: seq<T>, b: seq<T>)
  {
    forall i :: 0 <= i < |a| ==> Contains(e, b, a[i])
  }

  /** `elem in other` */
  method In<T>(e: Elements<T>, s: seq<T>, x: T) returns (found: bool)
    ensures found == Contains(e, s, x)
  {
    for i := 0 to |s|
      invariant forall k :: 0 <= k < i ==> !e.eq(s[k], x)
    {
      if e.eq(s[i], x) {
        return true;
      }
    }
    found := false;
  }

  /** Set.__le__: the length test only saves work. */
  method Le<T(!new)>(e: Elements<T>, a: seq<T>, b: seq<T>) returns (le: bool)
    requires Lawful(e) && Distinct(e, a) && Distinct(e, b)
    ensures le == Subset(e, a, b)
  {
    if |a| > |b| {
      if Subset(e, a, b) {
        SubsetIsSmaller(e, a, b);
      }
      return false;
    }
    for i := 0 to |a|
      invariant forall k :: 0 <= k < i ==> Contains(e, b, a[k])
    {
      var found := In(e, b, a[i]);
      if !found {
        return false;
      }
    }
    le := true;
  }

  method Ge<T(!new)>(e: Elements<T>, a: seq<T>, b: seq<T>) returns (ge: bool)
    requires Lawful(e) && Distinct(e, a) && Distinct(e, b)
    ensures ge == Subset(e, b, a)
  {
    if |a| < |b| {
      if Subset(e, b, a) {
        SubsetIsSmaller(e, b, a);
      }
      return false;
    }
    for i := 0 to |b|
      invariant forall k :: 0 <= k < i ==> Contains(e, a, b[k])
    {
      var found := In(e, a, b[i]);
      if !found {
        return false;
      }
    }
    ge := true;
  }

  /** Set.__eq__ checks one inclusion only; with equal lengths that is both. */
  method Eq<T(!new)>(e: Elements<T>, a: seq<T>, b: seq<T>) returns (equal: bool)
    requires Lawful(e) && Distinct(e, a) && Distinct(e, b)
    ensures equal == (Subset(e, a, b) && Subset(e, b, a))
  {
    var le := false;
    if |a| == |b| {
      le := Le(e, a, b);
    }
    equal := |a| == |b| && le;
    if Subset(e, a, b) && |a| == |b| {
      SubsetIsAll(e, a, b);
    }
    if Subset(e, a, b) && Subset(e, b, a) {
      SubsetIsSmaller(e, a, b);
      SubsetIsSmaller(e, b, a);
    }
  }

  // ----- Matching the elements of one iteration with those of another

  function Without<T>(s: seq<T>, j: nat): seq<T>
    requires j < |s|
  {
    s[..j] + s[j + 1..]
  }

  /** Where element k of `s` stands once element j is gone. */
  function Shifted(k: nat, j: nat): nat
    requires k != j
  {
    if k < j then k else k - 1
  }

  lemma WithoutKeeps<T>(s: seq<T>, j: nat, k: nat)
    requires j < |s| && k < |s| && k != j
    ensures Shifted(k, j) < |Without(s, j)| && Without(s, j)[Shifted(k, j)] == s[k]
  {
  }

  lemma WithoutIsDistinct<T>(e: Elements<T>, s: seq<T>, j: nat)
    requires Distinct(e, s) && j < |s|
    ensures Distinct(e, Without(s, j))
  {
    var rest := Without(s, j);
    forall i, k | 0 <= i < k < |rest| ensures !e.eq(rest[i], rest[k]) {
      var i', k' := if i < j then i else i + 1, if k < j then k else k + 1;
      assert rest[i] == s[i'] && rest[k] == s[k'];
    }
  }

  /** Another element than the one at j is found without that one too. */
  lemma FoundElsewhere<T(!new)>(e: Elements<T>, a: seq<T>, b: seq<T>, j: nat, i: nat)
    requires Lawful(e) && Distinct(e, a) && 0 < i < |a|
    requires Contains(e, b, a[i]) && j < |b| && e.eq(b[j], a[0])
    ensures Contains(e, Without(b, j), a[i])
  {
    var k :| 0 <= k < |b| && e.eq(b[k], a[i]);
    assert !e.eq(a[0], a[i]);
    assert k != j;
    WithoutKeeps(b, j, k);
  }

  /** Where the first element of `a` stands in `b`. */
  lemma FirstFound<T(!new)>(e: Elements<T>, a: seq<T>, b: seq<T>) returns (j: nat)
    requires Lawful(e) && Distinct(e, a) && Distinct(e, b) && Subset(e, a, b) && a != []
    ensures j < |b| && e.eq(b[j], a[0])
    ensures Distinct(e, a[1..]) && Distinct(e, Without(b, j)) && Subset(e, a[1..], Without(b, j))
  {
    assert Contains(e, b, a[0]);
    j :| 0 <= j < |b| && e.eq(b[j], a[0]);
    WithoutIsDistinct(e, b, j);
    hide Contains, Without;
    forall i | 0 <= i < |a[1..]| ensures Contains(e, Without(b, j), a[1..][i]) {
      FoundElsewhere(e, a, b, j, i + 1);
    }
  }

  lemma {:induction false} SubsetIsSmaller<T(!new)>(e: Elements<T>, a: seq<T>, b: seq<T>)
    requires Lawful(e) && Distinct(e, a) && Distinct(e, b) && Subset(e, a, b)
    ensures |a| <= |b|
  {
    if a != [] {
      var j := FirstFound(e, a, b);
      SubsetIsSmaller(e, a[1..], Without(b, j));
    }
  }

  lemma FoundInTail<T>(e: Elements<T>, a: seq<T>, x: T)
    requires a != [] && Contains(e, a[1..], x)
    ensures Contains(e, a, x)
  {
    var i :| 0 <= i < |a[1..]| && e.eq(a[1..][i], x);
    assert e.eq(a[i + 1], x);
  }

  /** A subset of the same size is everything. */
  lemma {:induction false} SubsetIsAll<T(!new)>(e: Elements<T>, a: seq<T>, b: seq<T>)
    requires Lawful(e) && Distinct(e, a) && Distinct(e, b) && Subset(e, a, b) && |a| == |b|
    ensures Subset(e, b, a)
  {
    if a != [] {
      var j := FirstFound(e, a, b);
      SubsetIsAll(e, a[1..], Without(b, j));
      forall k | 0 <= k < |b| ensures Contains(e, a, b[k]) {
        if k == j {
          assert e.eq(a[0], b[k]);
        } else {
          WithoutKeeps(b, j, k);
          FoundInTail(e, a, b[k]);
        }
      }
    }
  }

  // ----- The hash

  /** `& MASK`: the low word of any integer, negative ones in two's complement. */
  function Mask(n: int): (w: Word)
  {
    n % WORD
  }

  /** `^` of two words is a word. */
  function Xor(a: Word, b: Word): Word
  {
    WordSize();
    XorBound(a, b, 64);
    BitXor(a, b)
  }

  lemma XorLaws(a: Word, b: Word, c: Word)
    ensures Xor(a, b) == Xor(b, a)
    ensures Xor(Xor(a, b), c) == Xor(a, Xor(b, c))
    ensures Xor(a, 0) == a && Xor(0, a) == a
  {
    XorCommutes(a, b);
    XorAssociates(a, b, c);
    XorZero(a);
    XorCommutes(0, a);
  }

  /** Masking after a xor of integers is a xor of words. */
  lemma MaskXor(a: int, b: int)
    ensures Mask(BitXor(a, b)) == Xor(Mask(a), Mask(b))
  {
    WordSize();
    LowXor(a, b, 64);
  }

  /** What one element contributes, in its low word. */
  function Mix(hx: int): Word
  {
    Mask(BitXor(BitXor(hx, hx * 65536), 89869747) * 3644798167)
  }

  /** The contributions of all elements, xored together in the order of iteration. */
  function Mixed<T>(e: Elements<T>, s: seq<T>): Word
  {
    if s == [] then 0 else Xor(Mixed(e, s[..|s| - 1]), Mix(e.hash(s[|s| - 1])))
  }

  lemma {:induction false} MixedSplit<T>(e: Elements<T>, s: seq<T>, t: seq<T>)
    ensures Mixed(e, s + t) == Xor(Mixed(e, s), Mixed(e, t))
  {
    hide Mix, Xor;
    XorLaws(Mixed(e, s), 0, 0);
    if t == [] {
      assert s + t == s;
    } else {
      var n := |t| - 1;
      assert (s + t)[..|s + t| - 1] == s + t[..n];
      MixedSplit(e, s, t[..n]);
      XorLaws(Mixed(e, s), Mixed(e, t[..n]), Mix(e.hash(t[n])));
    }
  }

  lemma MixedOne<T>(e: Elements<T>, x: T)
    ensures Mixed(e, [x]) == Mix(e.hash(x))
  {
    XorLaws(Mix(e.hash(x)), 0, 0);
    assert [x][..0] == [];
  }

  /** Taking out one element takes out its contribution. */
  lemma MixedWithout<T>(e: Elements<T>, s: seq<T>, j: nat)
    requires j < |s|
    ensures Mixed(e, s) == Xor(Mixed(e, Without(s, j)), Mix(e.hash(s[j])))
  {
    hide Mix, Xor, Mixed;
    var m := Mix(e.hash(s[j]));
    MixedSplit(e, s[..j], s[j..]);
    MixedSplit(e, [s[j]], s[j + 1..]);
    MixedSplit(e, s[..j], s[j + 1..]);
    MixedOne(e, s[j]);
    assert s[..j] + s[j..] == s && [s[j]] + s[j + 1..] == s[j..];
    XorLaws(m, Mixed(e, s[j + 1..]), m);
    XorLaws(Mixed(e, s[..j]), Mixed(e, s[j + 1..]), m);
  }

  /** Equal sets mix to the same word, whatever order each is iterated in. */
  lemma {:induction false} MixedAgree<T(!new)>(e: Elements<T>, a: seq<T>, b: seq<T>)
    requires Lawful(e) && Distinct(e, a) && Distinct(e, b) && Subset(e, a, b) && |a| == |b|
    ensures Mixed(e, a) == Mixed(e, b)
  {
    hide Mix, Xor;
    if a != [] {
      var j := FirstFound(e, a, b);
      MixedAgree(e, a[1..], Without(b, j));
      hide Mixed;
      MixedWithout(e, b, j);
      MixedWithout(e, a, 0);
      assert Without(a, 0) == a[1..];
    }
  }

  /** h ^ ((h >> 11) ^ (h >> 25)) */
  function Fold(h: Word): Word
  {
    Xor(h, Xor(h / 2048, h / 33554432))
  }

  /** The dispersal of the low bits and the last linear step. */
  function Scramble(h: Word): Word
  {
    Mask(Fold(h) * 69069 + 907133923)
  }

  /** A word read as a signed number, with the reserved value -1 replaced. */
  function Signed(h: Word): (r: int)
    ensures -MAX - 1 <= r <= MAX && r != -1
  {
    var r := if h > MAX then h - WORD else h;
    if r == -1 then 590923713 else r
  }

  /** The word that the size and the mixed contributions lead to. */
  function RawHash(n: nat, mixed: Word): Word
  {
    Scramble(Xor(Mask(1927868237 * (n + 1)), mixed))
  }

  /** The hash as a function of the size and the mixed contributions. */
  function HashOf(n: nat, mixed: Word): int
  {
    Signed(RawHash(n, mixed))
  }

  // ----- The hash tells mixes apart

  lemma Shifts(h: int)
    ensures Shr(h, 11) == h / 2048 && Shr(h, 25) == h / 33554432
  {
    ShiftsLow(h);
    ShrAdd(h, 11, 14);
    ShiftsHigh(h / 2048);
  }

  lemma ShiftsLow(h: int)
    ensures Shr(h, 11) == h / 2048
  {
    var a := h / 2;
    var b := a / 2;
    var c := b / 2;
    var d := c / 2;
    assert Shr(h, 11) == Shr(d, 7);
    assert d == h / 16;
    var e := d / 2;
    var f := e / 2;
    var g := f / 2;
    assert Shr(d, 7) == Shr(g, 4);
    assert g == h / 128;
    assert Shr(g, 4) == g / 2 / 2 / 2 / 2;
  }

  lemma ShiftsHigh(h: int)
    ensures Shr(h, 14) == h / 16384
  {
    var c := h / 2 / 2 / 2 / 2;
    assert Shr(h, 14) == Shr(c, 10);
    assert c == h / 16;
    var d := c / 2 / 2 / 2 / 2;
    assert Shr(c, 10) == Shr(d, 6);
    assert d == h / 256;
    var e := d / 2 / 2 / 2;
    assert Shr(d, 6) == Shr(e, 3);
    assert e == h / 2048;
    assert Shr(e, 3) == e / 2 / 2 / 2;
  }

  /** What the two shifts of a number xor to is shorter than the number. */
  lemma Shorter(d: nat, k: nat, m: nat)
    requires m == Pow2(k) && d < 2048 * m && d == BitXor(d / 2048, d / 33554432)
    ensures d < m
  {
    hide BitXor, Pow2;
    XorBound(d / 2048, d / 33554432, k);
  }

  /** Nothing but 0 is the xor of its own two shifts. */
  lemma OnlyZero(d: Word)
    requires d == BitXor(d / 2048, d / 33554432)
    ensures d == 0
  {
    hide BitXor;
    Shorter(d, 53, 0x20_0000_0000_0000) by { assert Pow2(53) == 0x20_0000_0000_0000 by { PowersOfTwo(); } }
    Shorter(d, 42, 0x400_0000_0000) by { assert Pow2(42) == 0x400_0000_0000 by { PowersOfTwo(); } }
    Shorter(d, 31, 0x8000_0000) by { assert Pow2(31) == 0x8000_0000 by { PowersOfTwo(); } }
    Shorter(d, 20, 0x10_0000) by { assert Pow2(20) == 0x10_0000 by { PowersOfTwo(); } }
    Shorter(d, 9, 0x200) by { assert Pow2(9) == 0x200 by { PowersOfTwo(); } }
    XorZero(0);
  }

  lemma PowersOfTwo()
    ensures Pow2(9) == 0x200 && Pow2(20) == 0x10_0000 && Pow2(31) == 0x8000_0000
    ensures Pow2(42) == 0x400_0000_0000 && Pow2(53) == 0x20_0000_0000_0000
  {
    assert Pow2(9) == 0x200;
    assert Pow2(16) == 0x1_0000;
    assert Pow2(20) == 0x10_0000;
    assert Pow2(26) == 0x400_0000;
    assert Pow2(31) == 0x8000_0000;
    assert Pow2(37) == 0x20_0000_0000;
    assert Pow2(42) == 0x400_0000_0000;
    assert Pow2(48) == 0x1_0000_0000_0000;
  }

  /** The shifts that are xored in lose no bit. */
  lemma FoldInjective(a: Word, b: Word)
    requires Fold(a) == Fold(b)
    ensures a == b
  {
    hide BitXor;
    var d := Xor(a, b);
    Shifts(a);
    Shifts(b);
    Shifts(d);
    ShrXor(a, b, 11);
    ShrXor(a, b, 25);
    FoldXor(a, b);
    XorSelf(Fold(a));
    XorCancels(d, Xor(d / 2048, d / 33554432), 0);
    OnlyZero(d);
    XorCancels(a, b, 0);
  }

  lemma FoldXor(a: Word, b: Word)
    requires Xor(a, b) / 2048 == BitXor(a / 2048, b / 2048)
    requires Xor(a, b) / 33554432 == BitXor(a / 33554432, b / 33554432)
    ensures Fold(Xor(a, b)) == Xor(Fold(a), Fold(b))
  {
    hide BitXor;
    Interchange(a / 2048, b / 2048, a / 33554432, b / 33554432);
    Interchange(a, b, Xor(a / 2048, a / 33554432), Xor(b / 2048, b / 33554432));
  }

  lemma Interchange(a: Word, b: Word, c: Word, d: Word)
    ensures Xor(Xor(a, b), Xor(c, d)) == Xor(Xor(a, c), Xor(b, d))
  {
    hide Xor;
    XorLaws(a, b, Xor(c, d));
    XorLaws(b, c, d);
    XorLaws(c, b, d);
    XorLaws(a, c, Xor(b, d));
  }

  /** 69069 is odd, so multiplying by it loses nothing modulo 2**64; 10576784936904337157 undoes it. */
  lemma LinearInjective(a: Word, b: Word)
    requires Mask(a * 69069 + 907133923) == Mask(b * 69069 + 907133923)
    ensures a == b
  {
    var x, y := a * 69069 + 907133923, b * 69069 + 907133923;
    var t, d := x / WORD - y / WORD, a - b;
    assert d * 69069 == WORD * t;
    assert 69069 * 10576784936904337157 == 1 + 39602 * WORD;
    assert d + WORD * (39602 * d) == WORD * (10576784936904337157 * t);
    assert d == WORD * (10576784936904337157 * t - 39602 * d);
  }

  /** Two mixes of sets of one size have one hash only if they are the same, or if one leads to the
      reserved -1 and the other to what replaces it. */
  lemma HashTellsApart(n: nat, a: Word, b: Word)
    ensures HashOf(n, a) == HashOf(n, b)
            <==> a == b || {RawHash(n, a), RawHash(n, b)} == {WORD - 1, 590923713}
  {
    hide Xor, Fold;
    if RawHash(n, a) == RawHash(n, b) {
      var seed := Mask(1927868237 * (n + 1));
      LinearInjective(Fold(Xor(seed, a)), Fold(Xor(seed, b)));
      FoldInjective(Xor(seed, a), Xor(seed, b));
      SeedCancels(seed, a, b);
    }
  }

  lemma SeedCancels(seed: Word, a: Word, b: Word)
    requires Xor(seed, a) == Xor(seed, b)
    ensures a == b
  {
    hide BitXor;
    XorCommutes(seed, a);
    XorCommutes(seed, b);
    XorCancels(a, b, seed);
  }

  /** Set._hash over one iteration of the set. */
  method Hash<T>(e: Elements<T>, s: seq<T>) returns (r: int)
    ensures r == HashOf(|s|, Mixed(e, s))
    ensures -MAX - 1 <= r <= MAX && r != -1
  {
    hide Mix, Scramble, Xor, Mask, BitXor;
    var h: int := 1927868237 * (|s| + 1);
    h := Mask(h);
    ghost var seed: Word := h;
    XorLaws(seed, 0, 0);
    for i := 0 to |s|
      invariant 0 <= h < WORD && h == Xor(seed, Mixed(e, s[..i]))
    {
      assert s[..i + 1][..i] == s[..i];
      var hx := e.hash(s[i]);
      var mixed := BitXor(BitXor(hx, hx * 65536), 89869747) * 3644798167;
      MixStep(seed, Mixed(e, s[..i]), h, hx);
      h := BitXor(h, mixed);
      h := Mask(h);
    }
    assert s[..|s|] == s;
    ScrambleStep(h);
    h := BitXor(h, BitXor(h / 2048, h / 33554432));
    h := h * 69069 + 907133923;
    h := Mask(h);
    if h > MAX {
      h := h - WORD;
    }
    if h == -1 {
      h := 590923713;
    }
    r := h;
  }

  /** One round of the loop. */
  lemma MixStep(seed: Word, mixed: Word, h: Word, hx: int)
    requires h == Xor(seed, mixed)
    ensures Mask(BitXor(h, BitXor(BitXor(hx, hx * 65536), 89869747) * 3644798167)) == Xor(seed, Xor(mixed, Mix(hx)))
  {
    var c := BitXor(BitXor(hx, hx * 65536), 89869747) * 3644798167;
    hide Xor, BitXor;
    MaskXor(h, c);
    XorLaws(seed, mixed, Mask(c));
  }

  lemma ScrambleStep(h: Word)
    ensures Fold(h) == BitXor(h, BitXor(h / 2048, h / 33554432))
    ensures Scramble(h) == Mask(BitXor(h, BitXor(h / 2048, h / 33554432)) * 69069 + 907133923)
  {
    hide BitXor;
  }

  /** The two methods together: `a == b` implies `hash(a) == hash(b)`. */
  method EqThenHash<T(!new)>(e: Elements<T>, a: seq<T>, b: seq<T>) returns (equal: bool, ha: int, hb: int)
    requires Lawful(e) && Distinct(e, a) && Distinct(e, b)
    ensures equal == (Subset(e, a, b) && Subset(e, b, a))
    ensures equal ==> ha == hb
  {
    hide HashOf;
    equal := Eq(e, a, b);
    ha := Hash(e, a);
    hb := Hash(e, b);
    if equal {
      SubsetIsSmaller(e, a, b);
      SubsetIsSmaller(e, b, a);
      MixedAgree(e, a, b);
    }
  }
}
