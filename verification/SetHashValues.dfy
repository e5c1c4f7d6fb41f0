/** Values of Set._hash, computed by hexadecimal digits. */
module SetHashValues {
  import opened Bits
  import opened SetHashes

  /** One binary digit in front of others. */
  lemma XorBit(a: nat, b: nat, x: nat, y: nat)
    requires x < 2 && y < 2
    ensures BitXor(2 * a + x, 2 * b + y) == 2 * BitXor(a, b) + if x == y then 0 else 1
  {
    hide BitXor;
    XorUnrolled(2 * a + x, 2 * b + y);
  }

  /** The value of a hexadecimal digit. */
  function Value(x: bv4): nat { x as nat }

  /** A digit in its binary digits. */
  function Binary(p: nat, q: nat, r: nat, s: nat): nat { 2 * (2 * (2 * p + q) + r) + s }

  function Ne(x: nat, y: nat): nat { if x == y then 0 else 1 }

  lemma BinaryXor(a: nat, b: nat, p: nat, q: nat, r: nat, s: nat, p': nat, q': nat, r': nat, s': nat)
    requires p < 2 && q < 2 && r < 2 && s < 2 && p' < 2 && q' < 2 && r' < 2 && s' < 2
    ensures BitXor(16 * a + Binary(p, q, r, s), 16 * b + Binary(p', q', r', s'))
         == 16 * BitXor(a, b) + Binary(Ne(p, p'), Ne(q, q'), Ne(r, r'), Ne(s, s'))
  {
    hide BitXor;
    XorBit(a, b, p, p');
    XorBit(2 * a + p, 2 * b + p', q, q');
    XorBit(4 * a + 2 * p + q, 4 * b + 2 * p' + q', r, r');
    XorBit(8 * a + 4 * p + 2 * q + r, 8 * b + 4 * p' + 2 * q' + r', s, s');
  }

  function Low(x: bv4): (r: nat)
    ensures r < 2
  {
    if x & 1 == 1 then 1 else 0
  }

  lemma InBinary(x: bv4)
    ensures Value(x) == Binary(Low(x >> 3), Low(x >> 2), Low(x >> 1), Low(x))
  {
  }

  lemma LowXor4(x: bv4, y: bv4)
    ensures Low(x ^ y) == Ne(Low(x), Low(y)) && Low((x ^ y) >> 1) == Ne(Low(x >> 1), Low(y >> 1))
    ensures Low((x ^ y) >> 2) == Ne(Low(x >> 2), Low(y >> 2)) && Low((x ^ y) >> 3) == Ne(Low(x >> 3), Low(y >> 3))
  {
  }

  /** One hexadecimal digit in front of others. */
  lemma XorDigit(a: nat, b: nat, x: bv4, y: bv4)
    ensures BitXor(16 * a + Value(x), 16 * b + Value(y)) == 16 * BitXor(a, b) + Value(x ^ y)
  {
    hide BitXor, Value, Low;
    InBinary(x);
    InBinary(y);
    InBinary(x ^ y);
    LowXor4(x, y);
    BinaryXor(a, b, Low(x >> 3), Low(x >> 2), Low(x >> 1), Low(x), Low(y >> 3), Low(y >> 2), Low(y >> 1), Low(y));
  }

  function Hex(a: bv4, b: bv4, c: bv4, d: bv4): nat
  {
    16 * (16 * (16 * Value(a) + Value(b)) + Value(c)) + Value(d)
  }

  /** Four more digits. */
  lemma Xor4(a: nat, b: nat, x3: bv4, x2: bv4, x1: bv4, x0: bv4, y3: bv4, y2: bv4, y1: bv4, y0: bv4)
    ensures BitXor(65536 * a + Hex(x3, x2, x1, x0), 65536 * b + Hex(y3, y2, y1, y0))
         == 65536 * BitXor(a, b) + Hex(x3 ^ y3, x2 ^ y2, x1 ^ y1, x0 ^ y0)
  {
    hide BitXor, Value;
    var a3, b3 := 16 * a + Value(x3), 16 * b + Value(y3);
    var a2, b2 := 16 * a3 + Value(x2), 16 * b3 + Value(y2);
    var a1, b1 := 16 * a2 + Value(x1), 16 * b2 + Value(y1);
    XorDigit(a, b, x3, y3);
    XorDigit(a3, b3, x2, y2);
    XorDigit(a2, b2, x1, y1);
    XorDigit(a1, b1, x0, y0);
  }

  lemma ShiftedEmpty()
    ensures BitXor(941341, 57) == 941348
  {
    hide BitXor;
    XorZero(0);
    Xor4(0, 0, 0x0, 0x0, 0x0, 0xE, 0x0, 0x0, 0x0, 0x0);
    Xor4(14, 0, 0x5, 0xD, 0x1, 0xD, 0x0, 0x0, 0x3, 0x9);
  }

  lemma FoldedEmpty()
    ensures BitXor(1927868237, 941348) == 1927721577
  {
    hide BitXor;
    XorZero(0);
    Xor4(0, 0, 0x7, 0x2, 0xE, 0x8, 0x0, 0x0, 0x0, 0xE);
    Xor4(29416, 14, 0xE, 0xF, 0x4, 0xD, 0x5, 0xD, 0x2, 0x4);
  }

  lemma SpreadOne()
    ensures BitXor(1, 65536) == 65537
  {
    hide BitXor;
    XorZero(0);
    Xor4(0, 0, 0x0, 0x0, 0x0, 0x0, 0x0, 0x0, 0x0, 0x1);
    Xor4(0, 1, 0x0, 0x0, 0x0, 0x1, 0x0, 0x0, 0x0, 0x0);
  }

  lemma SaltOne()
    ensures BitXor(65537, 89869747) == 89804210
  {
    hide BitXor;
    XorZero(0);
    Xor4(0, 0, 0x0, 0x0, 0x0, 0x1, 0x0, 0x5, 0x5, 0xB);
    Xor4(1, 1371, 0x0, 0x0, 0x0, 0x1, 0x4, 0xD, 0xB, 0x3);
  }

  lemma SeededOne()
    ensures BitXor(3855736474, 327318219996883070) == 327318217233839844
  {
    hide BitXor;
    XorZero(0);
    Xor4(0, 0, 0x0, 0x0, 0x0, 0x0, 0x0, 0x4, 0x8, 0xA);
    Xor4(0, 1162, 0x0, 0x0, 0x0, 0x0, 0xD, 0xE, 0x2, 0xF);
    Xor4(0, 76209711, 0xE, 0x5, 0xD, 0x1, 0xD, 0x7, 0x6, 0xD);
    Xor4(58833, 4994479675245, 0xD, 0xE, 0x9, 0xA, 0x6, 0x8, 0x7, 0xE);
  }

  lemma ShiftedOne()
    ensures BitXor(159823348258710, 9754843033) == 159813594595343
  {
    hide BitXor;
    XorZero(0);
    Xor4(0, 0, 0x9, 0x1, 0x5, 0xB, 0x0, 0x0, 0x0, 0x2);
    Xor4(37211, 2, 0xC, 0x5, 0xE, 0x6, 0x4, 0x5, 0x6, 0xF);
    Xor4(2438710758, 148847, 0x5, 0x7, 0x9, 0x6, 0x1, 0x7, 0x9, 0x9);
  }

  lemma FoldedOne()
    ensures BitXor(327318217233839844, 159813594595343) == 327161294152398571
  {
    hide BitXor;
    XorZero(0);
    Xor4(0, 0, 0x0, 0x4, 0x8, 0xA, 0x0, 0x0, 0x0, 0x0);
    Xor4(1162, 0, 0xD, 0xE, 0x2, 0xF, 0x9, 0x1, 0x5, 0x9);
    Xor4(76209711, 37209, 0x3, 0x2, 0xB, 0xC, 0x8, 0x0, 0x8, 0x9);
    Xor4(4994479633084, 2438561929, 0xB, 0x6, 0xE, 0x4, 0x4, 0x0, 0x0, 0xF);
  }

  lemma SpreadTwo()
    ensures BitXor(2, 131072) == 131074
  {
    hide BitXor;
    XorZero(0);
    Xor4(0, 0, 0x0, 0x0, 0x0, 0x0, 0x0, 0x0, 0x0, 0x2);
    Xor4(0, 2, 0x0, 0x0, 0x0, 0x2, 0x0, 0x0, 0x0, 0x0);
  }

  lemma SaltTwo()
    ensures BitXor(131074, 89869747) == 89738673
  {
    hide BitXor;
    XorZero(0);
    Xor4(0, 0, 0x0, 0x0, 0x0, 0x2, 0x0, 0x5, 0x5, 0xB);
    Xor4(2, 1371, 0x0, 0x0, 0x0, 0x2, 0x4, 0xD, 0xB, 0x3);
  }

  lemma SeededTwo()
    ensures BitXor(3855736474, 327079350859412391) == 327079348228517181
  {
    hide BitXor;
    XorZero(0);
    Xor4(0, 0, 0x0, 0x0, 0x0, 0x0, 0x0, 0x4, 0x8, 0xA);
    Xor4(0, 1162, 0x0, 0x0, 0x0, 0x0, 0x0, 0x4, 0xE, 0xF);
    Xor4(0, 76154095, 0xE, 0x5, 0xD, 0x1, 0xC, 0x9, 0x5, 0x7);
    Xor4(58833, 4990834821463, 0xD, 0xE, 0x9, 0xA, 0x3, 0x3, 0xA, 0x7);
  }

  lemma ShiftedTwo()
    ensures BitXor(159706713002205, 9747724182) == 159716292945739
  {
    hide BitXor;
    XorZero(0);
    Xor4(0, 0, 0x9, 0x1, 0x4, 0x0, 0x0, 0x0, 0x0, 0x2);
    Xor4(37184, 2, 0x9, 0xD, 0xE, 0x5, 0x4, 0x5, 0x0, 0x2);
    Xor4(2436931045, 148738, 0x9, 0x0, 0xD, 0xD, 0x7, 0x7, 0x9, 0x6);
  }

  lemma FoldedTwo()
    ensures BitXor(327079348228517181, 159716292945739) == 327238497299663478
  {
    hide BitXor;
    XorZero(0);
    Xor4(0, 0, 0x0, 0x4, 0x8, 0xA, 0x0, 0x0, 0x0, 0x0);
    Xor4(1162, 0, 0x0, 0x4, 0xE, 0xF, 0x9, 0x1, 0x4, 0x2);
    Xor4(76154095, 37186, 0x2, 0xC, 0x8, 0x6, 0xD, 0x8, 0xE, 0x7);
    Xor4(4990834781318, 2437077223, 0xE, 0xD, 0x3, 0xD, 0xE, 0x7, 0x4, 0xB);
  }

  lemma HashEmpty()
    ensures HashOf(0, 0) == 133146708735736
  {
    hide BitXor;
    XorZero(1927868237);
    ShiftedEmpty();
    FoldedEmpty();
    assert Fold(1927868237) == 1927721577;
  }

  lemma HashOne()
    ensures HashOf(1, 327318219996883070) == -558064481276695278
    ensures Mix(1) == 327318219996883070
  {
    hide BitXor;
    SpreadOne();
    SaltOne();
    SeededOne();
    ShiftedOne();
    FoldedOne();
    assert Fold(327318217233839844) == 327161294152398571;
  }

  lemma HashTwo()
    ensures HashOf(1, 327079350859412391) == 4774279697163166305
    ensures Mix(2) == 327079350859412391
  {
    hide BitXor;
    SpreadTwo();
    SaltTwo();
    SeededTwo();
    ShiftedTwo();
    FoldedTwo();
    assert Fold(327079348228517181) == 327238497299663478;
  }

  /** Set._hash of the empty set and of one element with hash 1 or 2. */
  method HashValues() returns (none: int, one: int, two: int)
    ensures none == 133146708735736
    ensures one == -558064481276695278
    ensures two == 4774279697163166305
  {
    hide HashOf, Mix;
    var e: Elements<int> := Elements((x, y) => x == y, x => x);
    none := Hash(e, []);
    one := Hash(e, [1]);
    two := Hash(e, [2]);
    MixedOne(e, 1);
    MixedOne(e, 2);
    HashEmpty();
    HashOne();
    HashTwo();
  }
}
