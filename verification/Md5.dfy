/**
  The streaming digest of md5.c: bytes are collected until there is more than a block of them,
  and whole blocks are then worked into the four accumulators.
 */
module Md5 {
  import opened Bytes
  import opened Rfc1321

  // ----- the round functions as they are written -----

  function FF(b: bv32, c: bv32, d: bv32): bv32 { d ^ (b & (c ^ d)) }
  function FG(b: bv32, c: bv32, d: bv32): bv32 { FF(d, b, c) }
  function FH(b: bv32, c: bv32, d: bv32): bv32 { b ^ c ^ d }
  function FI(b: bv32, c: bv32, d: bv32): bv32 { c ^ (b | !d) }

  function Cyclic(w: bv32, s: nat): bv32
    requires s <= 32
  {
    (w << s) | (w >> (32 - s))
  }

  function Op(f: bv32, a: bv32, b: bv32, x: bv32, s: nat, t: bv32): bv32
    requires s <= 32
  {
    Sum(Cyclic(Sum(a, Sum(Sum(f, x), t)), s), b)
  }

  lemma FirstFunction(b: bv32, c: bv32, d: bv32)
    ensures FF(b, c, d) == F(b, c, d)
  {
    Choose(b, c, d);
  }

  /** Choosing bits of c or d by the bits of b. */
  lemma Choose(b: bv32, c: bv32, d: bv32)
    ensures d ^ (b & (c ^ d)) == (b & c) | (!b & d)
  {
  }

  lemma SecondFunction(b: bv32, c: bv32, d: bv32)
    ensures FG(b, c, d) == G(b, c, d)
  {
    ChooseBack(b, c, d);
  }

  lemma ChooseBack(b: bv32, c: bv32, d: bv32)
    ensures c ^ (d & (b ^ c)) == (b & d) | (c & !d)
  {
  }

  lemma ThirdFunction(b: bv32, c: bv32, d: bv32)
    ensures FH(b, c, d) == H(b, c, d)
  {
  }

  lemma FourthFunction(b: bv32, c: bv32, d: bv32)
    ensures FI(b, c, d) == I(b, c, d)
  {
  }

  /** The round function of step `i` as the code has it. */
  function Mixed(i: int, b: bv32, c: bv32, d: bv32): bv32 {
    if i < 16 then FF(b, c, d) else if i < 32 then FG(b, c, d) else if i < 48 then FH(b, c, d) else FI(b, c, d)
  }

  lemma RoundFunctions(i: int, b: bv32, c: bv32, d: bv32)
    ensures Mixed(i, b, c, d) == Mix(i, b, c, d)
  {
    hide FF, FG, FH, FI, F, G, H, I;
    FirstFunction(b, c, d);
    SecondFunction(b, c, d);
    ThirdFunction(b, c, d);
    FourthFunction(b, c, d);
  }

  lemma Cyclic4(w: bv32)
    ensures (w << 4) | (w >> 28) == w.RotateLeft(4)
  {
  }

  lemma Cyclic5(w: bv32)
    ensures (w << 5) | (w >> 27) == w.RotateLeft(5)
  {
  }

  lemma Cyclic6(w: bv32)
    ensures (w << 6) | (w >> 26) == w.RotateLeft(6)
  {
  }

  lemma Cyclic7(w: bv32)
    ensures (w << 7) | (w >> 25) == w.RotateLeft(7)
  {
  }

  lemma Cyclic9(w: bv32)
    ensures (w << 9) | (w >> 23) == w.RotateLeft(9)
  {
  }

  lemma Cyclic10(w: bv32)
    ensures (w << 10) | (w >> 22) == w.RotateLeft(10)
  {
  }

  lemma Cyclic11(w: bv32)
    ensures (w << 11) | (w >> 21) == w.RotateLeft(11)
  {
  }

  lemma Cyclic12(w: bv32)
    ensures (w << 12) | (w >> 20) == w.RotateLeft(12)
  {
  }

  lemma Cyclic14(w: bv32)
    ensures (w << 14) | (w >> 18) == w.RotateLeft(14)
  {
  }

  lemma Cyclic15(w: bv32)
    ensures (w << 15) | (w >> 17) == w.RotateLeft(15)
  {
  }

  lemma Cyclic16(w: bv32)
    ensures (w << 16) | (w >> 16) == w.RotateLeft(16)
  {
  }

  lemma Cyclic17(w: bv32)
    ensures (w << 17) | (w >> 15) == w.RotateLeft(17)
  {
  }

  lemma Cyclic20(w: bv32)
    ensures (w << 20) | (w >> 12) == w.RotateLeft(20)
  {
  }

  lemma Cyclic21(w: bv32)
    ensures (w << 21) | (w >> 11) == w.RotateLeft(21)
  {
  }

  lemma Cyclic22(w: bv32)
    ensures (w << 22) | (w >> 10) == w.RotateLeft(22)
  {
  }

  lemma Cyclic23(w: bv32)
    ensures (w << 23) | (w >> 9) == w.RotateLeft(23)
  {
  }

  /** The shifts of the code rotate, for each of the distances that occur. */
  lemma CyclicRotates(w: bv32, i: int)
    ensures Cyclic(w, S(i)) == Rotl(w, S(i))
  {
    match S(i)
    case 4 => Cyclic4(w);
    case 5 => Cyclic5(w);
    case 6 => Cyclic6(w);
    case 7 => Cyclic7(w);
    case 9 => Cyclic9(w);
    case 10 => Cyclic10(w);
    case 11 => Cyclic11(w);
    case 12 => Cyclic12(w);
    case 14 => Cyclic14(w);
    case 15 => Cyclic15(w);
    case 16 => Cyclic16(w);
    case 17 => Cyclic17(w);
    case 20 => Cyclic20(w);
    case 21 => Cyclic21(w);
    case 22 => Cyclic22(w);
    case 23 => Cyclic23(w);
  }

  /** The word, the distance and the constant of step `i`. */
  predicate At(i: int, k: int, s: nat, t: bv32) { k == K(i) && s == S(i) && t == T(i) }

  /** One line of the code is one step of the standard. */
  lemma Next(i: nat, k: int, s: nat, t: bv32, st: State, x: seq<bv32>, a: bv32, b: bv32, c: bv32, d: bv32)
    requires |x| == 16 && Steps(st, x, i) == State(a, b, c, d) && At(i, k, s, t)
    ensures 0 <= k < 16 && s <= 32
    ensures Steps(st, x, i + 1) == State(d, Op(Mixed(i, b, c, d), a, b, x[k], s, t), b, c)
  {
    hide Mixed, Mix, Cyclic, Rotl, Sum, T, K, S;
    RoundFunctions(i, b, c, d);
    CyclicRotates(Sum(a, Sum(Sum(Mixed(i, b, c, d), x[k]), t)), i);
  }

  lemma ConstantsOneBegins()
    ensures At(0, 0, 7, 0xd76aa478) && At(1, 1, 12, 0xe8c7b756) && At(2, 2, 17, 0x242070db) && At(3, 3, 22, 0xc1bdceee)
    ensures At(4, 4, 7, 0xf57c0faf) && At(5, 5, 12, 0x4787c62a) && At(6, 6, 17, 0xa8304613) && At(7, 7, 22, 0xfd469501)
  {
  }

  method RoundOneBegins(ghost st: State, x: seq<bv32>, s: State) returns (r: State)
    requires |x| == 16 && s == Steps(st, x, 0)
    ensures r == Steps(st, x, 8)
  {
    hide Op, FF, FG, FH, FI, Steps, At;
    ConstantsOneBegins();
    var a, b, c, d := s.a, s.b, s.c, s.d;
    Next(0, 0, 7, 0xd76aa478, st, x, a, b, c, d);
    a := Op(FF(b, c, d), a, b, x[0], 7, 0xd76aa478);
    Next(1, 1, 12, 0xe8c7b756, st, x, d, a, b, c);
    d := Op(FF(a, b, c), d, a, x[1], 12, 0xe8c7b756);
    Next(2, 2, 17, 0x242070db, st, x, c, d, a, b);
    c := Op(FF(d, a, b), c, d, x[2], 17, 0x242070db);
    Next(3, 3, 22, 0xc1bdceee, st, x, b, c, d, a);
    b := Op(FF(c, d, a), b, c, x[3], 22, 0xc1bdceee);
    Next(4, 4, 7, 0xf57c0faf, st, x, a, b, c, d);
    a := Op(FF(b, c, d), a, b, x[4], 7, 0xf57c0faf);
    Next(5, 5, 12, 0x4787c62a, st, x, d, a, b, c);
    d := Op(FF(a, b, c), d, a, x[5], 12, 0x4787c62a);
    Next(6, 6, 17, 0xa8304613, st, x, c, d, a, b);
    c := Op(FF(d, a, b), c, d, x[6], 17, 0xa8304613);
    Next(7, 7, 22, 0xfd469501, st, x, b, c, d, a);
    b := Op(FF(c, d, a), b, c, x[7], 22, 0xfd469501);
    r := State(a, b, c, d);
  }

  lemma ConstantsOneEnds()
    ensures At(8, 8, 7, 0x698098d8) && At(9, 9, 12, 0x8b44f7af) && At(10, 10, 17, 0xffff5bb1) && At(11, 11, 22, 0x895cd7be)
    ensures At(12, 12, 7, 0x6b901122) && At(13, 13, 12, 0xfd987193) && At(14, 14, 17, 0xa679438e) && At(15, 15, 22, 0x49b40821)
  {
  }

  method RoundOneEnds(ghost st: State, x: seq<bv32>, s: State) returns (r: State)
    requires |x| == 16 && s == Steps(st, x, 8)
    ensures r == Steps(st, x, 16)
  {
    hide Op, FF, FG, FH, FI, Steps, At;
    ConstantsOneEnds();
    var a, b, c, d := s.a, s.b, s.c, s.d;
    Next(8, 8, 7, 0x698098d8, st, x, a, b, c, d);
    a := Op(FF(b, c, d), a, b, x[8], 7, 0x698098d8);
    Next(9, 9, 12, 0x8b44f7af, st, x, d, a, b, c);
    d := Op(FF(a, b, c), d, a, x[9], 12, 0x8b44f7af);
    Next(10, 10, 17, 0xffff5bb1, st, x, c, d, a, b);
    c := Op(FF(d, a, b), c, d, x[10], 17, 0xffff5bb1);
    Next(11, 11, 22, 0x895cd7be, st, x, b, c, d, a);
    b := Op(FF(c, d, a), b, c, x[11], 22, 0x895cd7be);
    Next(12, 12, 7, 0x6b901122, st, x, a, b, c, d);
    a := Op(FF(b, c, d), a, b, x[12], 7, 0x6b901122);
    Next(13, 13, 12, 0xfd987193, st, x, d, a, b, c);
    d := Op(FF(a, b, c), d, a, x[13], 12, 0xfd987193);
    Next(14, 14, 17, 0xa679438e, st, x, c, d, a, b);
    c := Op(FF(d, a, b), c, d, x[14], 17, 0xa679438e);
    Next(15, 15, 22, 0x49b40821, st, x, b, c, d, a);
    b := Op(FF(c, d, a), b, c, x[15], 22, 0x49b40821);
    r := State(a, b, c, d);
  }

  lemma ConstantsTwoBegins()
    ensures At(16, 1, 5, 0xf61e2562) && At(17, 6, 9, 0xc040b340) && At(18, 11, 14, 0x265e5a51) && At(19, 0, 20, 0xe9b6c7aa)
    ensures At(20, 5, 5, 0xd62f105d) && At(21, 10, 9, 0x02441453) && At(22, 15, 14, 0xd8a1e681) && At(23, 4, 20, 0xe7d3fbc8)
  {
  }

  method RoundTwoBegins(ghost st: State, x: seq<bv32>, s: State) returns (r: State)
    requires |x| == 16 && s == Steps(st, x, 16)
    ensures r == Steps(st, x, 24)
  {
    hide Op, FF, FG, FH, FI, Steps, At;
    ConstantsTwoBegins();
    var a, b, c, d := s.a, s.b, s.c, s.d;
    Next(16, 1, 5, 0xf61e2562, st, x, a, b, c, d);
    a := Op(FG(b, c, d), a, b, x[1], 5, 0xf61e2562);
    Next(17, 6, 9, 0xc040b340, st, x, d, a, b, c);
    d := Op(FG(a, b, c), d, a, x[6], 9, 0xc040b340);
    Next(18, 11, 14, 0x265e5a51, st, x, c, d, a, b);
    c := Op(FG(d, a, b), c, d, x[11], 14, 0x265e5a51);
    Next(19, 0, 20, 0xe9b6c7aa, st, x, b, c, d, a);
    b := Op(FG(c, d, a), b, c, x[0], 20, 0xe9b6c7aa);
    Next(20, 5, 5, 0xd62f105d, st, x, a, b, c, d);
    a := Op(FG(b, c, d), a, b, x[5], 5, 0xd62f105d);
    Next(21, 10, 9, 0x02441453, st, x, d, a, b, c);
    d := Op(FG(a, b, c), d, a, x[10], 9, 0x02441453);
    Next(22, 15, 14, 0xd8a1e681, st, x, c, d, a, b);
    c := Op(FG(d, a, b), c, d, x[15], 14, 0xd8a1e681);
    Next(23, 4, 20, 0xe7d3fbc8, st, x, b, c, d, a);
    b := Op(FG(c, d, a), b, c, x[4], 20, 0xe7d3fbc8);
    r := State(a, b, c, d);
  }

  lemma ConstantsTwoEnds()
    ensures At(24, 9, 5, 0x21e1cde6) && At(25, 14, 9, 0xc33707d6) && At(26, 3, 14, 0xf4d50d87) && At(27, 8, 20, 0x455a14ed)
    ensures At(28, 13, 5, 0xa9e3e905) && At(29, 2, 9, 0xfcefa3f8) && At(30, 7, 14, 0x676f02d9) && At(31, 12, 20, 0x8d2a4c8a)
  {
  }

  method RoundTwoEnds(ghost st: State, x: seq<bv32>, s: State) returns (r: State)
    requires |x| == 16 && s == Steps(st, x, 24)
    ensures r == Steps(st, x, 32)
  {
    hide Op, FF, FG, FH, FI, Steps, At;
    ConstantsTwoEnds();
    var a, b, c, d := s.a, s.b, s.c, s.d;
    Next(24, 9, 5, 0x21e1cde6, st, x, a, b, c, d);
    a := Op(FG(b, c, d), a, b, x[9], 5, 0x21e1cde6);
    Next(25, 14, 9, 0xc33707d6, st, x, d, a, b, c);
    d := Op(FG(a, b, c), d, a, x[14], 9, 0xc33707d6);
    Next(26, 3, 14, 0xf4d50d87, st, x, c, d, a, b);
    c := Op(FG(d, a, b), c, d, x[3], 14, 0xf4d50d87);
    Next(27, 8, 20, 0x455a14ed, st, x, b, c, d, a);
    b := Op(FG(c, d, a), b, c, x[8], 20, 0x455a14ed);
    Next(28, 13, 5, 0xa9e3e905, st, x, a, b, c, d);
    a := Op(FG(b, c, d), a, b, x[13], 5, 0xa9e3e905);
    Next(29, 2, 9, 0xfcefa3f8, st, x, d, a, b, c);
    d := Op(FG(a, b, c), d, a, x[2], 9, 0xfcefa3f8);
    Next(30, 7, 14, 0x676f02d9, st, x, c, d, a, b);
    c := Op(FG(d, a, b), c, d, x[7], 14, 0x676f02d9);
    Next(31, 12, 20, 0x8d2a4c8a, st, x, b, c, d, a);
    b := Op(FG(c, d, a), b, c, x[12], 20, 0x8d2a4c8a);
    r := State(a, b, c, d);
  }

  lemma ConstantsThreeBegins()
    ensures At(32, 5, 4, 0xfffa3942) && At(33, 8, 11, 0x8771f681) && At(34, 11, 16, 0x6d9d6122) && At(35, 14, 23, 0xfde5380c)
    ensures At(36, 1, 4, 0xa4beea44) && At(37, 4, 11, 0x4bdecfa9) && At(38, 7, 16, 0xf6bb4b60) && At(39, 10, 23, 0xbebfbc70)
  {
  }

  method RoundThreeBegins(ghost st: State, x: seq<bv32>, s: State) returns (r: State)
    requires |x| == 16 && s == Steps(st, x, 32)
    ensures r == Steps(st, x, 40)
  {
    hide Op, FF, FG, FH, FI, Steps, At;
    ConstantsThreeBegins();
    var a, b, c, d := s.a, s.b, s.c, s.d;
    Next(32, 5, 4, 0xfffa3942, st, x, a, b, c, d);
    a := Op(FH(b, c, d), a, b, x[5], 4, 0xfffa3942);
    Next(33, 8, 11, 0x8771f681, st, x, d, a, b, c);
    d := Op(FH(a, b, c), d, a, x[8], 11, 0x8771f681);
    Next(34, 11, 16, 0x6d9d6122, st, x, c, d, a, b);
    c := Op(FH(d, a, b), c, d, x[11], 16, 0x6d9d6122);
    Next(35, 14, 23, 0xfde5380c, st, x, b, c, d, a);
    b := Op(FH(c, d, a), b, c, x[14], 23, 0xfde5380c);
    Next(36, 1, 4, 0xa4beea44, st, x, a, b, c, d);
    a := Op(FH(b, c, d), a, b, x[1], 4, 0xa4beea44);
    Next(37, 4, 11, 0x4bdecfa9, st, x, d, a, b, c);
    d := Op(FH(a, b, c), d, a, x[4], 11, 0x4bdecfa9);
    Next(38, 7, 16, 0xf6bb4b60, st, x, c, d, a, b);
    c := Op(FH(d, a, b), c, d, x[7], 16, 0xf6bb4b60);
    Next(39, 10, 23, 0xbebfbc70, st, x, b, c, d, a);
    b := Op(FH(c, d, a), b, c, x[10], 23, 0xbebfbc70);
    r := State(a, b, c, d);
  }

  lemma ConstantsThreeEnds()
    ensures At(40, 13, 4, 0x289b7ec6) && At(41, 0, 11, 0xeaa127fa) && At(42, 3, 16, 0xd4ef3085) && At(43, 6, 23, 0x04881d05)
    ensures At(44, 9, 4, 0xd9d4d039) && At(45, 12, 11, 0xe6db99e5) && At(46, 15, 16, 0x1fa27cf8) && At(47, 2, 23, 0xc4ac5665)
  {
  }

  method RoundThreeEnds(ghost st: State, x: seq<bv32>, s: State) returns (r: State)
    requires |x| == 16 && s == Steps(st, x, 40)
    ensures r == Steps(st, x, 48)
  {
    hide Op, FF, FG, FH, FI, Steps, At;
    ConstantsThreeEnds();
    var a, b, c, d := s.a, s.b, s.c, s.d;
    Next(40, 13, 4, 0x289b7ec6, st, x, a, b, c, d);
    a := Op(FH(b, c, d), a, b, x[13], 4, 0x289b7ec6);
    Next(41, 0, 11, 0xeaa127fa, st, x, d, a, b, c);
    d := Op(FH(a, b, c), d, a, x[0], 11, 0xeaa127fa);
    Next(42, 3, 16, 0xd4ef3085, st, x, c, d, a, b);
    c := Op(FH(d, a, b), c, d, x[3], 16, 0xd4ef3085);
    Next(43, 6, 23, 0x04881d05, st, x, b, c, d, a);
    b := Op(FH(c, d, a), b, c, x[6], 23, 0x04881d05);
    Next(44, 9, 4, 0xd9d4d039, st, x, a, b, c, d);
    a := Op(FH(b, c, d), a, b, x[9], 4, 0xd9d4d039);
    Next(45, 12, 11, 0xe6db99e5, st, x, d, a, b, c);
    d := Op(FH(a, b, c), d, a, x[12], 11, 0xe6db99e5);
    Next(46, 15, 16, 0x1fa27cf8, st, x, c, d, a, b);
    c := Op(FH(d, a, b), c, d, x[15], 16, 0x1fa27cf8);
    Next(47, 2, 23, 0xc4ac5665, st, x, b, c, d, a);
    b := Op(FH(c, d, a), b, c, x[2], 23, 0xc4ac5665);
    r := State(a, b, c, d);
  }

  lemma ConstantsFourBegins()
    ensures At(48, 0, 6, 0xf4292244) && At(49, 7, 10, 0x432aff97) && At(50, 14, 15, 0xab9423a7) && At(51, 5, 21, 0xfc93a039)
    ensures At(52, 12, 6, 0x655b59c3) && At(53, 3, 10, 0x8f0ccc92) && At(54, 10, 15, 0xffeff47d) && At(55, 1, 21, 0x85845dd1)
  {
  }

  method RoundFourBegins(ghost st: State, x: seq<bv32>, s: State) returns (r: State)
    requires |x| == 16 && s == Steps(st, x, 48)
    ensures r == Steps(st, x, 56)
  {
    hide Op, FF, FG, FH, FI, Steps, At;
    ConstantsFourBegins();
    var a, b, c, d := s.a, s.b, s.c, s.d;
    Next(48, 0, 6, 0xf4292244, st, x, a, b, c, d);
    a := Op(FI(b, c, d), a, b, x[0], 6, 0xf4292244);
    Next(49, 7, 10, 0x432aff97, st, x, d, a, b, c);
    d := Op(FI(a, b, c), d, a, x[7], 10, 0x432aff97);
    Next(50, 14, 15, 0xab9423a7, st, x, c, d, a, b);
    c := Op(FI(d, a, b), c, d, x[14], 15, 0xab9423a7);
    Next(51, 5, 21, 0xfc93a039, st, x, b, c, d, a);
    b := Op(FI(c, d, a), b, c, x[5], 21, 0xfc93a039);
    Next(52, 12, 6, 0x655b59c3, st, x, a, b, c, d);
    a := Op(FI(b, c, d), a, b, x[12], 6, 0x655b59c3);
    Next(53, 3, 10, 0x8f0ccc92, st, x, d, a, b, c);
    d := Op(FI(a, b, c), d, a, x[3], 10, 0x8f0ccc92);
    Next(54, 10, 15, 0xffeff47d, st, x, c, d, a, b);
    c := Op(FI(d, a, b), c, d, x[10], 15, 0xffeff47d);
    Next(55, 1, 21, 0x85845dd1, st, x, b, c, d, a);
    b := Op(FI(c, d, a), b, c, x[1], 21, 0x85845dd1);
    r := State(a, b, c, d);
  }

  lemma ConstantsFourEnds()
    ensures At(56, 8, 6, 0x6fa87e4f) && At(57, 15, 10, 0xfe2ce6e0) && At(58, 6, 15, 0xa3014314) && At(59, 13, 21, 0x4e0811a1)
    ensures At(60, 4, 6, 0xf7537e82) && At(61, 11, 10, 0xbd3af235) && At(62, 2, 15, 0x2ad7d2bb) && At(63, 9, 21, 0xeb86d391)
  {
  }

  method RoundFourEnds(ghost st: State, x: seq<bv32>, s: State) returns (r: State)
    requires |x| == 16 && s == Steps(st, x, 56)
    ensures r == Steps(st, x, 64)
  {
    hide Op, FF, FG, FH, FI, Steps, At;
    ConstantsFourEnds();
    var a, b, c, d := s.a, s.b, s.c, s.d;
    Next(56, 8, 6, 0x6fa87e4f, st, x, a, b, c, d);
    a := Op(FI(b, c, d), a, b, x[8], 6, 0x6fa87e4f);
    Next(57, 15, 10, 0xfe2ce6e0, st, x, d, a, b, c);
    d := Op(FI(a, b, c), d, a, x[15], 10, 0xfe2ce6e0);
    Next(58, 6, 15, 0xa3014314, st, x, c, d, a, b);
    c := Op(FI(d, a, b), c, d, x[6], 15, 0xa3014314);
    Next(59, 13, 21, 0x4e0811a1, st, x, b, c, d, a);
    b := Op(FI(c, d, a), b, c, x[13], 21, 0x4e0811a1);
    Next(60, 4, 6, 0xf7537e82, st, x, a, b, c, d);
    a := Op(FI(b, c, d), a, b, x[4], 6, 0xf7537e82);
    Next(61, 11, 10, 0xbd3af235, st, x, d, a, b, c);
    d := Op(FI(a, b, c), d, a, x[11], 10, 0xbd3af235);
    Next(62, 2, 15, 0x2ad7d2bb, st, x, c, d, a, b);
    c := Op(FI(d, a, b), c, d, x[2], 15, 0x2ad7d2bb);
    Next(63, 9, 21, 0xeb86d391, st, x, b, c, d, a);
    b := Op(FI(c, d, a), b, c, x[9], 21, 0xeb86d391);
    r := State(a, b, c, d);
  }

  // ----- counting and padding -----

  const WORD := 0x1_0000_0000

  /** A count of bytes in two words. */
  function Total(lo: word, hi: word): nat { lo + WORD * hi }

  /** Adding to the low word with a carry into the high one, as the code does it. */
  lemma CarryAdds(lo: word, hi: word, n: nat)
    requires n < WORD
    ensures var (lo', hi') := if lo > 0xffff_ffff - n then (lo - (WORD - n), (hi + 1) % WORD) else (lo + n, hi);
      0 <= lo' < WORD && Total(lo', hi') == (Total(lo, hi) + n) % (WORD * WORD)
  {
    if lo > 0xffff_ffff - n && hi == WORD - 1 {
      assert Total(lo, hi) + n == (lo + n - WORD) + WORD * WORD;
    }
  }

  /** The two length words of the code are the length in bits modulo 2^64. */
  lemma LengthWords(lo: word, hi: word, n: nat)
    requires Total(lo, hi) == n % (WORD * WORD)
    ensures lo % 0x2000_0000 * 8 < WORD && hi * 8 % WORD + lo / 0x2000_0000 < WORD
    ensures LengthBytes(n) == WordBytes(lo % 0x2000_0000 * 8) + WordBytes(hi * 8 % WORD + lo / 0x2000_0000)
  {
    hide WordBytes;
    var q := n / (WORD * WORD);
    assert 8 * n == 8 * Total(lo, hi) + WORD * WORD * (8 * q);
    BitsModulo(8 * Total(lo, hi), 8 * q);
    var a, b := lo % 0x2000_0000 * 8, lo / 0x2000_0000;
    assert 8 * lo == a + WORD * b;
    assert 8 * Total(lo, hi) == a + WORD * (b + 8 * hi);
    var c := 8 * hi / WORD;
    assert 8 * hi == hi * 8 % WORD + WORD * c;
    assert 8 * Total(lo, hi) == a + WORD * (hi * 8 % WORD + b) + WORD * WORD * c;
    BitsModulo(a + WORD * (hi * 8 % WORD + b), c);
    TwoWords(a, hi * 8 % WORD + b);
  }

  lemma BitsModulo(x: nat, q: nat)
    ensures (x + WORD * WORD * q) % (WORD * WORD) == x % (WORD * WORD)
  {
  }

  lemma TwoWords(a: nat, b: nat)
    requires a < WORD && b < WORD
    ensures (a + WORD * b) % (WORD * WORD) == a + WORD * b
    ensures (a + WORD * b) % WORD == a && (a + WORD * b) / WORD == b
  {
  }

  lemma {:induction false} BlocksConcat(st: State, s: seq<byte>, t: seq<byte>)
    requires |s| % 64 == 0 && |t| % 64 == 0
    ensures (|s| + |t|) % 64 == 0 && Blocks(st, s + t) == Blocks(Blocks(st, s), t)
  {
    hide Block;
    WholeSum(|s|, |t|);
    if t == [] {
      assert s + t == s;
    } else {
      var t' := t[..|t| - 64];
      WholeSum(|s|, |t'|);
      BlocksConcat(st, s, t');
      assert (s + t)[..|s + t| - 64] == s + t';
      assert (s + t)[|s + t| - 64..] == t[|t| - 64..];
    }
  }

  lemma WholeSum(m: nat, n: nat)
    requires m % 64 == 0 && n % 64 == 0
    ensures (m + n) % 64 == 0 && (n > 0 ==> n >= 64 && (n - 64) % 64 == 0)
  {
  }

  lemma BlocksSnoc(st: State, s: seq<byte>, i: nat)
    requires i % 64 == 0 && i + 64 <= |s|
    ensures Blocks(st, s[..i + 64]) == Block(Blocks(st, s[..i]), s[i..i + 64])
  {
    hide Block;
    var t := s[..i + 64];
    assert t[..|t| - 64] == s[..i] && t[|t| - 64..] == s[i..i + 64];
  }

  lemma NoBlocks(st: State, s: seq<byte>)
    ensures s[..0] == [] && Blocks(st, []) == st
  {
  }

  method DoBlock(s: State, block: seq<byte>) returns (r: State)
    requires |block| == 64
    ensures r == Block(s, block)
  {
    hide Op, Sum, Added;
    var x := Words(block);
    ghost var st := s;
    r := RoundOneBegins(st, x, s);
    r := RoundOneEnds(st, x, r);
    r := RoundTwoBegins(st, x, r);
    r := RoundTwoEnds(st, x, r);
    r := RoundThreeBegins(st, x, r);
    r := RoundThreeEnds(st, x, r);
    r := RoundFourBegins(st, x, r);
    r := RoundFourEnds(st, x, r);
    r := Added(r, s);
  }

  class Md5 {
    var acc: State
    var total0: word
    var total1: word
    var bufLen: word
    const buffer: array<byte>
    ghost var processed: seq<byte>

    /** The accumulators and the totals are those of the bytes processed so far. */
    ghost predicate Counted()
      reads `acc, `total0, `total1, `processed
    {
      |processed| % 64 == 0 && acc == Blocks(INIT, processed) && Total(total0, total1) == |processed| % (WORD * WORD)
    }

    ghost predicate Valid()
      reads this, buffer
    {
      buffer.Length == 128 && bufLen <= 64 && Counted()
    }

    /** Everything that has been put in since Init. */
    ghost function Contents(): seq<byte>
      reads this, buffer
      requires Valid()
    {
      processed + buffer[..bufLen]
    }

    constructor ()
      ensures buffer.Length == 128 && fresh(buffer)
    {
      buffer := new byte[128];
    }

    method Init()
      requires buffer.Length == 128
      modifies this
      ensures Valid() && Contents() == [] && bufLen == 0
    {
      acc := INIT;
      total0, total1 := 0, 0;
      bufLen := 0;
      processed := [];
    }

    /** Add to the count of bytes, with a carry. */
    method Count(n: word)
      modifies this`total0, this`total1
      ensures Total(total0, total1) == (old(Total(total0, total1)) + n) % (WORD * WORD)
    {
      CarryAdds(total0, total1, n);
      if total0 > 0xffff_ffff - n {
        total1 := (total1 + 1) % WORD;
        total0 := total0 - (0xffff_ffff + 1 - n);
      } else {
        total0 := total0 + n;
      }
    }

    /** Work whole blocks into the accumulators; the total is counted by the caller's `n`. */
    method WorkIn(s: seq<byte>)
      requires |s| % 64 == 0
      modifies this`acc
      ensures acc == Blocks(old(acc), s)
    {
      hide Block, Blocks;
      ghost var st := acc;
      var i := 0;
      NoBlocks(st, s);
      while i < |s|
        invariant 0 <= i <= |s| && i % 64 == 0 && (|s| - i) % 64 == 0
        invariant acc == Blocks(st, s[..i])
      {
        WholeSum(i, |s| - i);
        WholeSum(i, 64);
        BlocksSnoc(st, s, i);
        acc := DoBlock(acc, s[i..i + 64]);
        i := i + 64;
      }
      assert s[..i] == s;
    }

    method ProcessBlock(s: seq<byte>)
      requires |s| % 64 == 0 && |s| < WORD && Counted()
      modifies this`acc, this`total0, this`total1, this`processed
      ensures Counted() && processed == old(processed) + s
    {
      hide Blocks, Total;
      Count(|s|);
      WorkIn(s);
      BlocksConcat(INIT, processed, s);
      SumModulo(|processed|, |s|);
      processed := processed + s;
    }

    method CopyIn(at: nat, s: seq<byte>)
      requires at + |s| <= buffer.Length
      modifies buffer
      ensures buffer[..at + |s|] == old(buffer[..at]) + s
    {
      forall k | 0 <= k < |s| {
        buffer[at + k] := s[k];
      }
      assert buffer[..at] == old(buffer[..at]) && buffer[at..at + |s|] == s;
    }

    /** Put more bytes in; the sum of what is held and what comes must not wrap, if anything is held. */
    method Process(chunk: seq<byte>)
      requires Valid() && |chunk| < WORD && (bufLen == 0 || bufLen + |chunk| < WORD)
      modifies this, buffer
      ensures Valid() && Contents() == old(Contents()) + chunk
    {
      hide Counted;
      var rest := chunk;
      if bufLen > 0 {
        rest := FillUp(chunk);
      }
      if |rest| > 64 {
        rest := TakeBlocks(rest);
      }
      if |rest| > 0 {
        KeepRest(rest);
      }
    }

    /** Process the whole blocks at the front of the chunk straight from it. */
    method TakeBlocks(chunk: seq<byte>) returns (rest: seq<byte>)
      requires Valid() && bufLen == 0 && |chunk| < WORD
      modifies this
      ensures Valid() && bufLen == 0 && |rest| < 64 && Contents() + rest == old(Contents()) + chunk
    {
      hide Counted;
      var n := |chunk| - |chunk| % 64;
      WholeFront(|chunk|);
      ProcessBlock(chunk[..n]);
      rest := chunk[n..];
      assert chunk == chunk[..n] + rest;
      assert Contents() == processed && old(Contents()) == old(processed);
    }

    /** Keep the last bytes of a chunk in the buffer. */
    method KeepRest(rest: seq<byte>)
      requires Valid() && bufLen == 0 && |rest| <= 64
      modifies this`bufLen, buffer
      ensures Valid() && Contents() == old(Contents()) + rest
    {
      hide Counted;
      CopyIn(0, rest);
      bufLen := |rest|;
      assert buffer[..bufLen] == rest;
      assert old(Contents()) == processed;
    }

    /** Process the whole blocks in the buffer, and move what is behind them to the front. */
    method Flush(inBlock: nat)
      requires buffer.Length == 128 && 64 < inBlock <= 128 && Counted()
      modifies this, buffer
      ensures Valid() && Contents() == old(processed + buffer[..inBlock]) && (inBlock == 128 ==> bufLen == 0)
    {
      hide Counted, Blocks, Total;
      var n := inBlock - inBlock % 64;
      WholeFront(inBlock);
      ghost var whole, tail := buffer[..n], buffer[n..inBlock];
      assert buffer[..inBlock] == whole + tail;
      ProcessBlock(buffer[..n]);
      CopyIn(0, buffer[n..inBlock]);
      bufLen := inBlock % 64;
      FlushedContents(old(processed), whole, tail);
      assert buffer[..bufLen] == tail;
    }

    /** Fill the buffer from the chunk, and process what is more than a block; what is left of the chunk comes
        back, and then the buffer is empty. */
    method FillUp(chunk: seq<byte>) returns (rest: seq<byte>)
      requires Valid() && 0 < bufLen && bufLen + |chunk| < WORD
      modifies this, buffer
      ensures Valid() && Contents() + rest == old(Contents()) + chunk && |rest| <= |chunk|
      ensures rest != [] ==> bufLen == 0
    {
      hide Counted;
      var inBlock: nat := bufLen;
      var add := if inBlock + |chunk| > 128 then 128 - inBlock else |chunk|;
      CopyIn(inBlock, chunk[..add]);
      inBlock := inBlock + add;
      assert processed + buffer[..inBlock] == old(Contents()) + chunk[..add];
      if inBlock > 64 {
        Flush(inBlock);
      } else {
        bufLen := inBlock;
      }
      rest := chunk[add..];
      assert chunk == chunk[..add] + rest;
    }

    /** Write the padding and the two length words behind the first `bytes` bytes. */
    method PadBuffer(bytes: nat, pad: nat, lo: word, hi: word)
      requires buffer.Length == 128 && 1 <= pad && bytes + pad + 8 <= 128
      modifies buffer
      ensures buffer[..bytes + pad + 8] == old(buffer[..bytes]) + ([0x80] + seq(pad - 1, _ => 0) + (WordBytes(lo) + WordBytes(hi)))
    {
      hide WordBytes;
      CopyIn(bytes, [0x80]);
      CopyIn(bytes + 1, seq(pad - 1, _ => 0));
      CopyIn(bytes + pad, WordBytes(lo));
      CopyIn(bytes + pad + 4, WordBytes(hi));
    }

    /** Pad what is left, process it, and give the digest of everything put in. */
    method Finish() returns (signature: seq<byte>)
      requires Valid()
      modifies this, buffer
      ensures signature == Digest(old(Contents()))
    {
      hide Blocks, Total, Zeros, LengthBytes, WordBytes;
      ghost var message, held := Contents(), buffer[..bufLen];
      var bytes := bufLen;
      Count(bytes);
      SumModulo(|processed|, bytes);
      var pad: int := 64 - 8 - bytes as int;
      if pad <= 0 {
        pad := pad + 64;
      }
      PadIs(|message|, bytes, pad);
      LengthWords(total0, total1, |message|);
      PadBuffer(bytes, pad, total0 % 0x2000_0000 * 8, total1 * 8 % WORD + total0 / 0x2000_0000);
      assert buffer[..bytes + pad + 8] == held + Padding(|message|);
      WorkIn(buffer[..bytes + pad + 8]);
      BlocksConcat(INIT, processed, held + Padding(|message|));
      assert processed + (held + Padding(|message|)) == message + Padding(|message|);
      signature := WordBytes(Number(acc.a)) + WordBytes(Number(acc.b)) + WordBytes(Number(acc.c)) + WordBytes(Number(acc.d));
    }
  }

  lemma FlushedContents(p: seq<byte>, whole: seq<byte>, tail: seq<byte>)
    ensures p + whole + tail == p + (whole + tail) && [] + tail == tail
  {
  }

  lemma WholeFront(n: nat)
    ensures 0 <= n % 64 < 64 && n % 64 <= n && (n - n % 64) % 64 == 0
  {
  }

  lemma SumModulo(m: nat, n: nat)
    ensures (m % (WORD * WORD) + n) % (WORD * WORD) == (m + n) % (WORD * WORD)
  {
  }

  /** The padding of the code is that of the standard, also when the length words need a block of their own. */
  lemma PadIs(n: nat, bytes: int, pad: int)
    requires 0 <= bytes <= 64 && (n - bytes) % 64 == 0 && n >= bytes
    requires pad == if 56 - bytes <= 0 then 56 - bytes + 64 else 56 - bytes
    ensures 1 <= pad && bytes + pad + 8 <= 128 && pad - 1 == Zeros(n)
  {
  }

  /** The digest of one buffer. */
  method DigestBuffer(s: seq<byte>) returns (signature: seq<byte>)
    requires |s| < WORD
    ensures signature == Digest(s)
  {
    hide Digest, Md5.Counted;
    var md5 := new Md5();
    md5.Init();
    md5.Process(s);
    assert [] + s == s;
    signature := md5.Finish();
  }
}
