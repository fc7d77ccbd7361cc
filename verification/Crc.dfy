/**
  The CRC of the codec: a table of 256 remainders, against division by x^16 + x^12 + x^5 + 1.
 */
module Crc {
  import opened Bytes
  import opened Bits

  /** A polynomial of degree below 16: the top bit is the coefficient of x^15. */
  type crc16 = bv16

  function Xor(u: crc16, v: crc16): crc16 { u ^ v }

  function Doubled(r: crc16): crc16 { r << 1 }

  predicate Top(r: crc16) { r & 0x8000 != 0 }

  /** The generator x^16 + x^12 + x^5 + 1 without its leading term. */
  const GENERATOR: crc16 := 0x1021

  function Reduced(r: crc16, carry: bool): crc16 { if carry then Xor(r, GENERATOR) else r }

  /** Multiplication by x, modulo the generator. */
  function Times(r: crc16): crc16 { Reduced(Doubled(r), Top(r)) }

  function TimesN(r: crc16, n: nat): crc16 {
    if n == 0 then r else Times(TimesN(r, n - 1))
  }

  // ----- exclusive or and multiplication -----

  lemma DoubledXor(u: crc16, v: crc16)
    ensures Doubled(Xor(u, v)) == Xor(Doubled(u), Doubled(v))
  {
  }

  lemma TopXor(u: crc16, v: crc16)
    ensures Top(Xor(u, v)) == (Top(u) != Top(v))
  {
  }

  lemma XorCommutes(u: crc16, v: crc16)
    ensures Xor(u, v) == Xor(v, u)
  {
  }

  lemma XorAssociates(u: crc16, v: crc16, w: crc16)
    ensures Xor(Xor(u, v), w) == Xor(u, Xor(v, w))
  {
  }

  lemma XorUndone(u: crc16, v: crc16)
    ensures Xor(Xor(u, v), v) == u
  {
  }

  lemma XorCancels(u: crc16, v: crc16, g: crc16)
    ensures Xor(Xor(u, g), Xor(v, g)) == Xor(u, v)
  {
    hide Xor;
    XorCommutes(v, g);
    XorAssociates(Xor(u, g), g, v);
    XorUndone(u, g);
  }

  lemma XorZero(u: crc16)
    ensures Xor(u, 0) == u
  {
  }

  lemma ReducedXor(u: crc16, v: crc16, s: bool, t: bool)
    ensures Xor(Reduced(u, s), Reduced(v, t)) == Reduced(Xor(u, v), s != t)
  {
    hide Xor;
    XorCancels(u, v, GENERATOR);
    XorAssociates(u, v, GENERATOR);
    XorAssociates(u, GENERATOR, v);
    XorCommutes(v, GENERATOR);
  }

  lemma TimesLinear(u: crc16, v: crc16)
    ensures Times(Xor(u, v)) == Xor(Times(u), Times(v))
  {
    hide Xor, Doubled, Top, Reduced;
    DoubledXor(u, v);
    TopXor(u, v);
    ReducedXor(Doubled(u), Doubled(v), Top(u), Top(v));
  }

  lemma {:induction false} TimesNLinear(u: crc16, v: crc16, n: nat)
    ensures TimesN(Xor(u, v), n) == Xor(TimesN(u, n), TimesN(v, n))
  {
    hide Times, Xor;
    if n > 0 {
      TimesNLinear(u, v, n - 1);
      TimesLinear(TimesN(u, n - 1), TimesN(v, n - 1));
    }
  }

  lemma {:induction false} TimesNAdds(u: crc16, m: nat, n: nat)
    ensures TimesN(TimesN(u, m), n) == TimesN(u, m + n)
  {
    hide Times;
    if n > 0 { TimesNAdds(u, m, n - 1); }
  }

  // ----- multiplication can be undone -----

  predicate Odd(r: crc16) { r & 1 != 0 }

  function Halved(r: crc16, carry: bool): crc16 { if carry then (r >> 1) | 0x8000 else r >> 1 }

  function Untimes(r: crc16): crc16 { Halved(Reduced(r, Odd(r)), Odd(r)) }

  lemma DoubledEven(r: crc16)
    ensures !Odd(Doubled(r))
  {
  }

  lemma GeneratorOdd(r: crc16)
    requires !Odd(r)
    ensures Odd(Xor(r, GENERATOR))
  {
  }

  lemma HalvedDoubled(r: crc16)
    ensures Halved(Doubled(r), Top(r)) == r
  {
    if Top(r) { TopBack(r); } else { NoTopBack(r); }
  }

  lemma TopBack(r: crc16)
    requires r & 0x8000 != 0
    ensures ((r << 1) >> 1) | 0x8000 == r
  {
  }

  lemma NoTopBack(r: crc16)
    requires r & 0x8000 == 0
    ensures (r << 1) >> 1 == r
  {
  }

  lemma TimesUndone(r: crc16)
    ensures Untimes(Times(r)) == r
  {
    hide Xor, Doubled, Top, Odd, Halved;
    DoubledEven(r);
    GeneratorOdd(Doubled(r));
    HalvedDoubled(r);
    XorUndone(Doubled(r), GENERATOR);
  }

  lemma {:induction false} TimesNInjective(u: crc16, v: crc16, n: nat)
    requires TimesN(u, n) == TimesN(v, n)
    ensures u == v
  {
    hide Times, Untimes;
    if n > 0 {
      TimesUndone(TimesN(u, n - 1));
      TimesUndone(TimesN(v, n - 1));
      TimesNInjective(u, v, n - 1);
    }
  }

  // ----- numbers and polynomials -----

  function Coefficient(b: bool): crc16 { if b then 1 else 0 }

  /** The polynomial whose coefficients are the binary digits of a number. */
  function Poly(i: nat): crc16 {
    if i == 0 then 0 else Xor(Doubled(Poly(i / 2)), Coefficient(i % 2 == 1))
  }

  function Lower(x: crc16): crc16 { x >> 1 }

  /** The number whose digits are the lowest `n` coefficients. */
  function Number(x: crc16, n: nat): (i: nat)
    ensures i < Pow2(n)
  {
    if n == 0 then 0 else 2 * Number(Lower(x), n - 1) + (if Odd(x) then 1 else 0)
  }

  function Ones(n: nat): crc16 {
    if n == 0 then 0 else Xor(Doubled(Ones(n - 1)), 1)
  }

  /** No coefficient outside the places where `m` has ones. */
  predicate Within(x: crc16, m: crc16) { x | m == m }

  lemma WithinStep(x: crc16, m: crc16, b: bool)
    requires Within(x, m)
    ensures Within(Xor(Doubled(x), Coefficient(b)), Xor(Doubled(m), 1))
  {
    hide Xor, Doubled, Within;
    WithinOne(x, m);
    WithinZero(x, m);
  }

  lemma WithinOne(x: crc16, m: crc16)
    requires Within(x, m)
    ensures Within(Xor(Doubled(x), 1), Xor(Doubled(m), 1))
  {
  }

  lemma WithinZero(x: crc16, m: crc16)
    requires Within(x, m)
    ensures Within(Xor(Doubled(x), 0), Xor(Doubled(m), 1))
  {
  }

  lemma {:induction false} PolyWithin(i: nat, n: nat)
    requires i < Pow2(n)
    ensures Within(Poly(i), Ones(n))
  {
    hide Xor, Doubled, Coefficient;
    if n == 0 {
    } else {
      PolyWithin(i / 2, n - 1);
      WithinStep(Poly(i / 2), Ones(n - 1), i % 2 == 1);
      PolyStep(i);
    }
  }

  lemma PolyStep(i: nat)
    ensures Poly(i) == Xor(Doubled(Poly(i / 2)), Coefficient(i % 2 == 1))
  {
  }

  lemma LowerBack(x: crc16)
    ensures Xor(Doubled(Lower(x)), Coefficient(Odd(x))) == x
  {
    if Odd(x) { OddBack(x); } else { EvenBack(x); }
  }

  lemma OddBack(x: crc16)
    requires x & 1 != 0
    ensures ((x >> 1) << 1) ^ 1 == x
  {
  }

  lemma EvenBack(x: crc16)
    requires x & 1 == 0
    ensures ((x >> 1) << 1) ^ 0 == x
  {
  }

  lemma WithinLower(x: crc16, m: crc16)
    requires Within(x, Xor(Doubled(m), 1)) && !Top(m)
    ensures Within(Lower(x), m)
  {
  }

  lemma OnesTable()
    ensures Ones(1) == 0x1 && Ones(2) == 0x3 && Ones(3) == 0x7 && Ones(4) == 0xf
    ensures Ones(5) == 0x1f && Ones(6) == 0x3f && Ones(7) == 0x7f && Ones(8) == 0xff
  {
  }

  lemma OnesTop(n: nat)
    requires n <= 8
    ensures !Top(Ones(n))
  {
    OnesTable();
    assert n == 0 || n == 1 || n == 2 || n == 3 || n == 4 || n == 5 || n == 6 || n == 7 || n == 8;
  }

  /** A polynomial of eight coefficients is named by its number. */
  lemma {:induction false} PolyNumber(x: crc16, n: nat)
    requires n <= 8 && Within(x, Ones(n))
    ensures Poly(Number(x, n)) == x
    decreases n
  {
    hide Xor, Doubled, Coefficient, Top, Lower, Odd, Within;
    if n == 0 {
      WithinNone(x);
    } else {
      OnesTop(n - 1);
      WithinLower(x, Ones(n - 1));
      PolyNumber(Lower(x), n - 1);
      var i := Number(x, n);
      assert i / 2 == Number(Lower(x), n - 1) && (i % 2 == 1) == Odd(x);
      PolyStep(i);
      LowerBack(x);
    }
  }

  lemma WithinNone(x: crc16)
    requires Within(x, 0)
    ensures x == 0
  {
  }

  lemma PolyNoTop(i: nat)
    requires i < 256
    ensures !Top(Poly(i))
  {
    PowTable();
    PolyWithin(i, 8);
    OnesTable();
    WithinNoTop(Poly(i));
  }

  lemma WithinNoTop(x: crc16)
    requires Within(x, 0xff)
    ensures !Top(x)
  {
  }

  // ----- the table -----

  // The codec's table, in rows of 16.

  function Row0(i: int): crc16 {
    match i
    case 0 => 0x0000 case 1 => 0x1021 case 2 => 0x2042 case 3 => 0x3063 case 4 => 0x4084 case 5 => 0x50a5 case 6 => 0x60c6 case 7 => 0x70e7
    case 8 => 0x8108 case 9 => 0x9129 case 10 => 0xa14a case 11 => 0xb16b case 12 => 0xc18c case 13 => 0xd1ad case 14 => 0xe1ce case _ => 0xf1ef
  }

  function Row1(i: int): crc16 {
    match i
    case 16 => 0x1231 case 17 => 0x0210 case 18 => 0x3273 case 19 => 0x2252 case 20 => 0x52b5 case 21 => 0x4294 case 22 => 0x72f7 case 23 => 0x62d6
    case 24 => 0x9339 case 25 => 0x8318 case 26 => 0xb37b case 27 => 0xa35a case 28 => 0xd3bd case 29 => 0xc39c case 30 => 0xf3ff case _ => 0xe3de
  }

  function Row2(i: int): crc16 {
    match i
    case 32 => 0x2462 case 33 => 0x3443 case 34 => 0x0420 case 35 => 0x1401 case 36 => 0x64e6 case 37 => 0x74c7 case 38 => 0x44a4 case 39 => 0x5485
    case 40 => 0xa56a case 41 => 0xb54b case 42 => 0x8528 case 43 => 0x9509 case 44 => 0xe5ee case 45 => 0xf5cf case 46 => 0xc5ac case _ => 0xd58d
  }

  function Row3(i: int): crc16 {
    match i
    case 48 => 0x3653 case 49 => 0x2672 case 50 => 0x1611 case 51 => 0x0630 case 52 => 0x76d7 case 53 => 0x66f6 case 54 => 0x5695 case 55 => 0x46b4
    case 56 => 0xb75b case 57 => 0xa77a case 58 => 0x9719 case 59 => 0x8738 case 60 => 0xf7df case 61 => 0xe7fe case 62 => 0xd79d case _ => 0xc7bc
  }

  function Row4(i: int): crc16 {
    match i
    case 64 => 0x48c4 case 65 => 0x58e5 case 66 => 0x6886 case 67 => 0x78a7 case 68 => 0x0840 case 69 => 0x1861 case 70 => 0x2802 case 71 => 0x3823
    case 72 => 0xc9cc case 73 => 0xd9ed case 74 => 0xe98e case 75 => 0xf9af case 76 => 0x8948 case 77 => 0x9969 case 78 => 0xa90a case _ => 0xb92b
  }

  function Row5(i: int): crc16 {
    match i
    case 80 => 0x5af5 case 81 => 0x4ad4 case 82 => 0x7ab7 case 83 => 0x6a96 case 84 => 0x1a71 case 85 => 0x0a50 case 86 => 0x3a33 case 87 => 0x2a12
    case 88 => 0xdbfd case 89 => 0xcbdc case 90 => 0xfbbf case 91 => 0xeb9e case 92 => 0x9b79 case 93 => 0x8b58 case 94 => 0xbb3b case _ => 0xab1a
  }

  function Row6(i: int): crc16 {
    match i
    case 96 => 0x6ca6 case 97 => 0x7c87 case 98 => 0x4ce4 case 99 => 0x5cc5 case 100 => 0x2c22 case 101 => 0x3c03 case 102 => 0x0c60 case 103 => 0x1c41
    case 104 => 0xedae case 105 => 0xfd8f case 106 => 0xcdec case 107 => 0xddcd case 108 => 0xad2a case 109 => 0xbd0b case 110 => 0x8d68 case _ => 0x9d49
  }

  function Row7(i: int): crc16 {
    match i
    case 112 => 0x7e97 case 113 => 0x6eb6 case 114 => 0x5ed5 case 115 => 0x4ef4 case 116 => 0x3e13 case 117 => 0x2e32 case 118 => 0x1e51 case 119 => 0x0e70
    case 120 => 0xff9f case 121 => 0xefbe case 122 => 0xdfdd case 123 => 0xcffc case 124 => 0xbf1b case 125 => 0xaf3a case 126 => 0x9f59 case _ => 0x8f78
  }

  function Row8(i: int): crc16 {
    match i
    case 128 => 0x9188 case 129 => 0x81a9 case 130 => 0xb1ca case 131 => 0xa1eb case 132 => 0xd10c case 133 => 0xc12d case 134 => 0xf14e case 135 => 0xe16f
    case 136 => 0x1080 case 137 => 0x00a1 case 138 => 0x30c2 case 139 => 0x20e3 case 140 => 0x5004 case 141 => 0x4025 case 142 => 0x7046 case _ => 0x6067
  }

  function Row9(i: int): crc16 {
    match i
    case 144 => 0x83b9 case 145 => 0x9398 case 146 => 0xa3fb case 147 => 0xb3da case 148 => 0xc33d case 149 => 0xd31c case 150 => 0xe37f case 151 => 0xf35e
    case 152 => 0x02b1 case 153 => 0x1290 case 154 => 0x22f3 case 155 => 0x32d2 case 156 => 0x4235 case 157 => 0x5214 case 158 => 0x6277 case _ => 0x7256
  }

  function Row10(i: int): crc16 {
    match i
    case 160 => 0xb5ea case 161 => 0xa5cb case 162 => 0x95a8 case 163 => 0x8589 case 164 => 0xf56e case 165 => 0xe54f case 166 => 0xd52c case 167 => 0xc50d
    case 168 => 0x34e2 case 169 => 0x24c3 case 170 => 0x14a0 case 171 => 0x0481 case 172 => 0x7466 case 173 => 0x6447 case 174 => 0x5424 case _ => 0x4405
  }

  function Row11(i: int): crc16 {
    match i
    case 176 => 0xa7db case 177 => 0xb7fa case 178 => 0x8799 case 179 => 0x97b8 case 180 => 0xe75f case 181 => 0xf77e case 182 => 0xc71d case 183 => 0xd73c
    case 184 => 0x26d3 case 185 => 0x36f2 case 186 => 0x0691 case 187 => 0x16b0 case 188 => 0x6657 case 189 => 0x7676 case 190 => 0x4615 case _ => 0x5634
  }

  function Row12(i: int): crc16 {
    match i
    case 192 => 0xd94c case 193 => 0xc96d case 194 => 0xf90e case 195 => 0xe92f case 196 => 0x99c8 case 197 => 0x89e9 case 198 => 0xb98a case 199 => 0xa9ab
    case 200 => 0x5844 case 201 => 0x4865 case 202 => 0x7806 case 203 => 0x6827 case 204 => 0x18c0 case 205 => 0x08e1 case 206 => 0x3882 case _ => 0x28a3
  }

  function Row13(i: int): crc16 {
    match i
    case 208 => 0xcb7d case 209 => 0xdb5c case 210 => 0xeb3f case 211 => 0xfb1e case 212 => 0x8bf9 case 213 => 0x9bd8 case 214 => 0xabbb case 215 => 0xbb9a
    case 216 => 0x4a75 case 217 => 0x5a54 case 218 => 0x6a37 case 219 => 0x7a16 case 220 => 0x0af1 case 221 => 0x1ad0 case 222 => 0x2ab3 case _ => 0x3a92
  }

  function Row14(i: int): crc16 {
    match i
    case 224 => 0xfd2e case 225 => 0xed0f case 226 => 0xdd6c case 227 => 0xcd4d case 228 => 0xbdaa case 229 => 0xad8b case 230 => 0x9de8 case 231 => 0x8dc9
    case 232 => 0x7c26 case 233 => 0x6c07 case 234 => 0x5c64 case 235 => 0x4c45 case 236 => 0x3ca2 case 237 => 0x2c83 case 238 => 0x1ce0 case _ => 0x0cc1
  }

  function Row15(i: int): crc16 {
    match i
    case 240 => 0xef1f case 241 => 0xff3e case 242 => 0xcf5d case 243 => 0xdf7c case 244 => 0xaf9b case 245 => 0xbfba case 246 => 0x8fd9 case 247 => 0x9ff8
    case 248 => 0x6e17 case 249 => 0x7e36 case 250 => 0x4e55 case 251 => 0x5e74 case 252 => 0x2e93 case 253 => 0x3eb2 case 254 => 0x0ed1 case _ => 0x1ef0
  }

  /** The codec's table. */
  function Entry(i: int): crc16
    requires 0 <= i < 256
  {
    if i < 128 then (
      if i < 64 then (
        if i < 32 then (if i < 16 then Row0(i) else Row1(i))
        else (if i < 48 then Row2(i) else Row3(i)))
      else (
        if i < 96 then (if i < 80 then Row4(i) else Row5(i))
        else (if i < 112 then Row6(i) else Row7(i))))
    else (
      if i < 192 then (
        if i < 160 then (if i < 144 then Row8(i) else Row9(i))
        else (if i < 176 then Row10(i) else Row11(i)))
      else (
        if i < 224 then (if i < 208 then Row12(i) else Row13(i))
        else (if i < 240 then Row14(i) else Row15(i))))
  }

  ghost predicate StepOk(i: int)
    requires 0 <= i < 128
  {
    Entry(2 * i) == Times(Entry(i)) && Entry(2 * i + 1) == Xor(Entry(2 * i), GENERATOR)
  }

  lemma Steps0()
    ensures StepOk(0) && StepOk(1) && StepOk(2) && StepOk(3) && StepOk(4) && StepOk(5) && StepOk(6) && StepOk(7)
  {
  }

  lemma Steps8()
    ensures StepOk(8) && StepOk(9) && StepOk(10) && StepOk(11) && StepOk(12) && StepOk(13) && StepOk(14) && StepOk(15)
  {
  }

  lemma Steps16()
    ensures StepOk(16) && StepOk(17) && StepOk(18) && StepOk(19) && StepOk(20) && StepOk(21) && StepOk(22) && StepOk(23)
  {
  }

  lemma Steps24()
    ensures StepOk(24) && StepOk(25) && StepOk(26) && StepOk(27) && StepOk(28) && StepOk(29) && StepOk(30) && StepOk(31)
  {
  }

  lemma Steps32()
    ensures StepOk(32) && StepOk(33) && StepOk(34) && StepOk(35) && StepOk(36) && StepOk(37) && StepOk(38) && StepOk(39)
  {
  }

  lemma Steps40()
    ensures StepOk(40) && StepOk(41) && StepOk(42) && StepOk(43) && StepOk(44) && StepOk(45) && StepOk(46) && StepOk(47)
  {
  }

  lemma Steps48()
    ensures StepOk(48) && StepOk(49) && StepOk(50) && StepOk(51) && StepOk(52) && StepOk(53) && StepOk(54) && StepOk(55)
  {
  }

  lemma Steps56()
    ensures StepOk(56) && StepOk(57) && StepOk(58) && StepOk(59) && StepOk(60) && StepOk(61) && StepOk(62) && StepOk(63)
  {
  }

  lemma Steps64()
    ensures StepOk(64) && StepOk(65) && StepOk(66) && StepOk(67) && StepOk(68) && StepOk(69) && StepOk(70) && StepOk(71)
  {
  }

  lemma Steps72()
    ensures StepOk(72) && StepOk(73) && StepOk(74) && StepOk(75) && StepOk(76) && StepOk(77) && StepOk(78) && StepOk(79)
  {
  }

  lemma Steps80()
    ensures StepOk(80) && StepOk(81) && StepOk(82) && StepOk(83) && StepOk(84) && StepOk(85) && StepOk(86) && StepOk(87)
  {
  }

  lemma Steps88()
    ensures StepOk(88) && StepOk(89) && StepOk(90) && StepOk(91) && StepOk(92) && StepOk(93) && StepOk(94) && StepOk(95)
  {
  }

  lemma Steps96()
    ensures StepOk(96) && StepOk(97) && StepOk(98) && StepOk(99) && StepOk(100) && StepOk(101) && StepOk(102) && StepOk(103)
  {
  }

  lemma Steps104()
    ensures StepOk(104) && StepOk(105) && StepOk(106) && StepOk(107) && StepOk(108) && StepOk(109) && StepOk(110) && StepOk(111)
  {
  }

  lemma Steps112()
    ensures StepOk(112) && StepOk(113) && StepOk(114) && StepOk(115) && StepOk(116) && StepOk(117) && StepOk(118) && StepOk(119)
  {
  }

  lemma Steps120()
    ensures StepOk(120) && StepOk(121) && StepOk(122) && StepOk(123) && StepOk(124) && StepOk(125) && StepOk(126) && StepOk(127)
  {
  }

  lemma StepAt0(i: int)
    requires 0 <= i < 16
    ensures StepOk(i)
  {
    hide StepOk;
    if i < 8 { Steps0(); } else { Steps8(); }
  }

  lemma StepAt16(i: int)
    requires 16 <= i < 32
    ensures StepOk(i)
  {
    hide StepOk;
    if i < 24 { Steps16(); } else { Steps24(); }
  }

  lemma StepAt32(i: int)
    requires 32 <= i < 48
    ensures StepOk(i)
  {
    hide StepOk;
    if i < 40 { Steps32(); } else { Steps40(); }
  }

  lemma StepAt48(i: int)
    requires 48 <= i < 64
    ensures StepOk(i)
  {
    hide StepOk;
    if i < 56 { Steps48(); } else { Steps56(); }
  }

  lemma StepAt64(i: int)
    requires 64 <= i < 80
    ensures StepOk(i)
  {
    hide StepOk;
    if i < 72 { Steps64(); } else { Steps72(); }
  }

  lemma StepAt80(i: int)
    requires 80 <= i < 96
    ensures StepOk(i)
  {
    hide StepOk;
    if i < 88 { Steps80(); } else { Steps88(); }
  }

  lemma StepAt96(i: int)
    requires 96 <= i < 112
    ensures StepOk(i)
  {
    hide StepOk;
    if i < 104 { Steps96(); } else { Steps104(); }
  }

  lemma StepAt112(i: int)
    requires 112 <= i < 128
    ensures StepOk(i)
  {
    hide StepOk;
    if i < 120 { Steps112(); } else { Steps120(); }
  }

  lemma StepsAreRight(i: int)
    requires 0 <= i < 128
    ensures StepOk(i)
  {
    hide StepOk;
    if i < 64 {
      if i < 16 { StepAt0(i); } else if i < 32 { StepAt16(i); } else if i < 48 { StepAt32(i); } else { StepAt48(i); }
    } else {
      if i < 80 { StepAt64(i); } else if i < 96 { StepAt80(i); } else if i < 112 { StepAt96(i); } else { StepAt112(i); }
    }
  }

  /** Each entry is what division leaves of its index, sixteen places further up. */
  lemma {:induction false} TableIsRight(i: int)
    requires 0 <= i < 256
    ensures Entry(i) == TimesN(Poly(i), 16)
    decreases i
  {
    hide Xor, Doubled, Top, Reduced, Times, Entry, Coefficient;
    if i == 0 {
      TimesNZero(16);
      assert Entry(0) == 0 by { EntryZero(); }
    } else {
      TableIsRight(i / 2);
      StepsAreRight(i / 2);
      PolyStep(i);
      PolyNoTop(i / 2);
      TimesNoTop(Poly(i / 2));
      TimesNAdds(Poly(i / 2), 1, 16);
      TimesNAdds(Poly(i / 2), 16, 1);
      OneStep(Poly(i / 2));
      OneStep(TimesN(Poly(i / 2), 16));
      TimesNLinear(Doubled(Poly(i / 2)), Coefficient(i % 2 == 1), 16);
      TimesNOne();
      XorZero(TimesN(Doubled(Poly(i / 2)), 16));
      CoefficientValues();
    }
  }

  lemma OneStep(u: crc16)
    ensures TimesN(u, 1) == Times(u)
  {
  }

  lemma CoefficientValues()
    ensures Coefficient(true) == 1 && Coefficient(false) == 0
  {
  }

  lemma EntryZero()
    ensures Entry(0) == 0
  {
  }

  lemma {:induction false} TimesNZero(n: nat)
    ensures TimesN(0, n) == 0
  {
    if n > 0 { TimesNZero(n - 1); }
  }

  lemma TimesNOne()
    ensures TimesN(1, 16) == GENERATOR && TimesN(0, 16) == 0
  {
    TimesNZero(16);
    assert TimesN(1, 8) == 0x100;
    TimesNAdds(1, 8, 8);
  }

  lemma TimesNoTop(u: crc16)
    requires !Top(u)
    ensures Times(u) == Doubled(u)
  {
  }

  // ----- the codec's step -----

  function High(crc: crc16): crc16 { (crc >> 8) & 0xff }

  function Low(crc: crc16): crc16 { crc & 0xff }

  function Shifted(b: crc16): crc16 { b << 8 }

  /** The entry for the top half of the CRC and the next byte. */
  function Index(b: byte, crc: crc16): (i: int)
    ensures 0 <= i < 256
  {
    PowTable();
    Number(Xor(Poly(b), High(crc)), 8)
  }

  function UpdCrc(b: byte, crc: crc16): crc16 {
    Xor(Shifted(crc), Entry(Index(b, crc)))
  }

  /** The CRC of a byte string. */
  function CrcOf(s: seq<byte>): crc16 {
    if s == [] then 0 else UpdCrc(s[|s| - 1], CrcOf(s[..|s| - 1]))
  }

  lemma CrcOfSnoc(s: seq<byte>, b: byte)
    ensures CrcOf(s + [b]) == UpdCrc(b, CrcOf(s))
  {
    assert (s + [b])[..|s|] == s;
  }

  // ----- the two bytes of a CRC -----

  function CrcLow(crc: crc16): byte {
    PowTable();
    Number(Low(crc), 8)
  }

  function CrcHigh(crc: crc16): byte {
    PowTable();
    Number(High(crc), 8)
  }

  function CrcJoin(lo: byte, hi: byte): crc16 { Poly(lo) | Shifted(Poly(hi)) }

  lemma HalvesWithin(crc: crc16)
    ensures Within(Low(crc), 0xff) && Within(High(crc), 0xff)
  {
  }

  lemma HalvesJoin(crc: crc16)
    ensures Low(crc) | Shifted(High(crc)) == crc
  {
  }

  /** The two bytes of a CRC make it up again. */
  lemma CrcJoins(crc: crc16)
    ensures CrcJoin(CrcLow(crc), CrcHigh(crc)) == crc
  {
    hide Low, High, Shifted, Within;
    OnesTable();
    HalvesWithin(crc);
    PolyNumber(Low(crc), 8);
    PolyNumber(High(crc), 8);
    HalvesJoin(crc);
  }

  // ----- the step is division -----

  lemma DoubledWithin(x: crc16, m: crc16)
    requires Within(x, m)
    ensures Within(Doubled(x), Doubled(m))
  {
  }

  lemma TopWithin(x: crc16, m: crc16)
    requires Within(x, m) && !Top(m)
    ensures !Top(x)
  {
  }

  function DoubledN(x: crc16, n: nat): crc16 {
    if n == 0 then x else Doubled(DoubledN(x, n - 1))
  }

  lemma MaskTop(n: nat)
    requires n < 8
    ensures !Top(DoubledN(0xff, n))
  {
    assert DoubledN(0xff, 1) == 0x1fe && DoubledN(0xff, 2) == 0x3fc && DoubledN(0xff, 3) == 0x7f8;
    assert DoubledN(0xff, 4) == 0xff0 && DoubledN(0xff, 5) == 0x1fe0 && DoubledN(0xff, 6) == 0x3fc0 && DoubledN(0xff, 7) == 0x7f80;
    assert n == 0 || n == 1 || n == 2 || n == 3 || n == 4 || n == 5 || n == 6 || n == 7;
  }

  lemma {:induction false} NoneCarried(x: crc16, n: nat)
    requires Within(x, 0xff) && n <= 8
    ensures TimesN(x, n) == DoubledN(x, n) && Within(DoubledN(x, n), DoubledN(0xff, n))
  {
    hide Doubled, Top, Within, Times;
    if n > 0 {
      NoneCarried(x, n - 1);
      MaskTop(n - 1);
      TopWithin(DoubledN(x, n - 1), DoubledN(0xff, n - 1));
      TimesNoTop(DoubledN(x, n - 1));
      DoubledWithin(DoubledN(x, n - 1), DoubledN(0xff, n - 1));
    }
  }

  lemma Doubled8Shifts(x: crc16)
    ensures Doubled(Doubled(Doubled(Doubled(Doubled(Doubled(Doubled(Doubled(x)))))))) == Shifted(x)
  {
  }

  lemma DoubledShifts(x: crc16)
    ensures DoubledN(x, 8) == Shifted(x)
  {
    hide Doubled, Shifted;
    assert DoubledN(x, 8) == Doubled(Doubled(DoubledN(x, 6)));
    assert DoubledN(x, 6) == Doubled(Doubled(DoubledN(x, 4)));
    assert DoubledN(x, 4) == Doubled(Doubled(DoubledN(x, 2)));
    assert DoubledN(x, 2) == Doubled(Doubled(DoubledN(x, 0)));
    Doubled8Shifts(x);
  }

  /** Eight multiplications shift a polynomial of eight coefficients up. */
  lemma TimesShifts(x: crc16)
    requires Within(x, 0xff)
    ensures TimesN(x, 8) == Shifted(x)
  {
    hide Doubled, Top, Within, Times, Shifted;
    NoneCarried(x, 8);
    DoubledShifts(x);
  }

  lemma HalvesXor(crc: crc16)
    ensures Xor(Shifted(High(crc)), Low(crc)) == crc
    ensures Shifted(Low(crc)) == Shifted(crc)
  {
  }

  lemma XorWithin(x: crc16, y: crc16, m: crc16)
    requires Within(x, m) && Within(y, m)
    ensures Within(Xor(x, y), m)
  {
  }

  /** One step of the CRC multiplies by x^8 and adds x^16 times the byte, modulo the generator. */
  lemma UpdCrcDivides(b: byte, crc: crc16)
    ensures UpdCrc(b, crc) == Xor(TimesN(crc, 8), TimesN(Poly(b), 16))
  {
    hide Low, High, Shifted, Within, Xor, Times, Entry, Doubled, Top;
    var p := Xor(Poly(b), High(crc));
    PowTable();
    OnesTable();
    HalvesWithin(crc);
    PolyWithin(b, 8);
    XorWithin(Poly(b), High(crc), 0xff);
    PolyNumber(p, 8);
    TableIsRight(Index(b, crc));
    TimesNLinear(Poly(b), High(crc), 16);
    TimesShifts(High(crc));
    TimesShifts(Low(crc));
    HalvesXor(crc);
    TimesNLinear(Shifted(High(crc)), Low(crc), 8);
    TimesNAdds(High(crc), 8, 8);
    var l, h, q := TimesN(Low(crc), 8), TimesN(High(crc), 16), TimesN(Poly(b), 16);
    XorAssociates(l, q, h);
    XorCommutes(q, h);
    XorAssociates(l, h, q);
    XorCommutes(l, h);
  }

  // ----- long division -----

  /** One step of long division: the remainder with the next coefficient of the dividend brought down. */
  function BringDown(r: crc16, bit: bool): crc16 { Xor(Times(r), Coefficient(bit)) }

  /** The remainder of a dividend, given by its coefficients, on division by the generator. */
  function Remainder(bits: seq<bool>): crc16 {
    if bits == [] then 0 else BringDown(Remainder(bits[..|bits| - 1]), bits[|bits| - 1])
  }

  function Zeros(n: nat): (z: seq<bool>)
    ensures |z| == n && forall i :: 0 <= i < n ==> !z[i]
  {
    seq(n, _ => false)
  }

  lemma {:induction false} RemainderZeros(bits: seq<bool>, n: nat)
    ensures Remainder(bits + Zeros(n)) == TimesN(Remainder(bits), n)
  {
    hide Xor, Times;
    if n == 0 {
      assert bits + Zeros(0) == bits;
    } else {
      RemainderZeros(bits, n - 1);
      var all := bits + Zeros(n);
      assert all[..|all| - 1] == bits + Zeros(n - 1);
      XorZero(TimesN(Remainder(bits), n));
    }
  }

  /** `k` halvings. */
  function HalvedN(w: nat, k: nat): (r: nat)
    ensures r <= w
  {
    if k == 0 then w else HalvedN(w / 2, k - 1)
  }

  lemma {:induction false} HalvedLast(w: nat, k: nat)
    ensures HalvedN(w, k + 1) == HalvedN(w, k) / 2
  {
    if k > 0 { HalvedLast(w / 2, k - 1); }
  }

  lemma {:induction false} LowBitIsDigit(w: nat, k: nat)
    ensures LowBit(w, k) == (HalvedN(w, k) % 2 == 1)
  {
    if k > 0 { LowBitIsDigit(w / 2, k - 1); }
  }

  lemma {:induction false} HalvedSmall(w: nat, k: nat)
    requires w < Pow2(k)
    ensures HalvedN(w, k) == 0
  {
    if k > 0 { HalvedSmall(w / 2, k - 1); }
  }

  /** Bringing down the first `n` bits of a byte. */
  lemma {:induction false} RemainderByte(bits: seq<bool>, b: byte, n: nat)
    requires n <= 8
    ensures Remainder(bits + ByteBits(b)[..n]) == Xor(TimesN(Remainder(bits), n), Poly(HalvedN(b, 8 - n)))
  {
    hide Xor, Times, Doubled, Top, Coefficient;
    if n == 0 {
      assert bits + ByteBits(b)[..0] == bits;
      PowTable();
      HalvedSmall(b, 8);
      XorZero(Remainder(bits));
    } else {
      RemainderByte(bits, b, n - 1);
      var v := HalvedN(b, 8 - n);
      NextDigit(bits, b, n);
      HalvedLast(b, 8 - n);
      RemainderStep(TimesN(Remainder(bits), n - 1), v);
    }
  }

  /** Bit `n` of a byte, from the top, is brought down. */
  lemma NextDigit(bits: seq<bool>, b: byte, n: nat)
    requires 0 < n <= 8
    ensures Remainder(bits + ByteBits(b)[..n]) == BringDown(Remainder(bits + ByteBits(b)[..n - 1]), HalvedN(b, 8 - n) % 2 == 1)
  {
    hide Xor, Times, BringDown;
    var all := bits + ByteBits(b)[..n];
    assert all[..|all| - 1] == bits + ByteBits(b)[..n - 1];
    LowBitIsDigit(b, 8 - n);
    assert ByteBits(b)[n - 1] == ByteBit(b, n - 1);
  }

  lemma RemainderStep(r: crc16, v: nat)
    requires v < 256
    ensures BringDown(Xor(r, Poly(v / 2)), v % 2 == 1) == Xor(Times(r), Poly(v))
  {
    hide Xor, Times, Doubled, Top, Coefficient;
    PolyStep(v);
    PolyNoTop(v / 2);
    TimesNoTop(Poly(v / 2));
    TimesLinear(r, Poly(v / 2));
    XorAssociates(Times(r), Doubled(Poly(v / 2)), Coefficient(v % 2 == 1));
  }

  /** The CRC of a byte string is what division by the generator leaves of it, followed by sixteen zeros. */
  lemma {:induction false} CrcIsRemainder(s: seq<byte>)
    ensures CrcOf(s) == Remainder(BytesBits(s) + Zeros(16))
  {
    hide Xor, Times, UpdCrc;
    RemainderZeros(BytesBits(s), 16);
    if s == [] {
      TimesNZero(16);
    } else {
      var t, b := s[..|s| - 1], s[|s| - 1];
      CrcIsRemainder(t);
      RemainderZeros(BytesBits(t), 16);
      var r := Remainder(BytesBits(t));
      assert ByteBits(b)[..8] == ByteBits(b);
      RemainderByte(BytesBits(t), b, 8);
      UpdCrcDivides(b, CrcOf(t));
      TimesNLinear(TimesN(r, 8), Poly(b), 16);
      TimesNAdds(r, 8, 16);
      TimesNAdds(r, 16, 8);
    }
  }

  // ----- what the CRC detects -----

  lemma XorInjective(u: crc16, v: crc16, w: crc16)
    requires Xor(u, w) == Xor(v, w)
    ensures u == v
  {
    hide Xor;
    XorUndone(u, w);
    XorUndone(v, w);
  }

  /** Different states stay different under the same bytes. */
  lemma {:induction false} CrcInjective(s: seq<byte>, t: seq<byte>, tail: seq<byte>)
    requires CrcOf(s) != CrcOf(t)
    ensures CrcOf(s + tail) != CrcOf(t + tail)
    decreases |tail|
  {
    hide Xor, Times, UpdCrc;
    if tail == [] {
      assert s + tail == s && t + tail == t;
    } else {
      var r, b := tail[..|tail| - 1], tail[|tail| - 1];
      CrcInjective(s, t, r);
      assert s + tail == (s + r) + [b] && t + tail == (t + r) + [b];
      CrcOfSnoc(s + r, b);
      CrcOfSnoc(t + r, b);
      UpdCrcDivides(b, CrcOf(s + r));
      UpdCrcDivides(b, CrcOf(t + r));
      var p := TimesN(Poly(b), 16);
      if Xor(TimesN(CrcOf(s + r), 8), p) == Xor(TimesN(CrcOf(t + r), 8), p) {
        XorInjective(TimesN(CrcOf(s + r), 8), TimesN(CrcOf(t + r), 8), p);
        TimesNInjective(CrcOf(s + r), CrcOf(t + r), 8);
      }
    }
  }

  lemma TwoSteps(r: crc16, b: byte, c: byte)
    ensures UpdCrc(c, UpdCrc(b, r)) == Xor(TimesN(r, 16), Xor(TimesN(Poly(b), 24), TimesN(Poly(c), 16)))
  {
    hide Xor, Times, UpdCrc, Doubled, Coefficient;
    var p, q := TimesN(Poly(b), 16), TimesN(Poly(c), 16);
    UpdCrcDivides(b, r);
    UpdCrcDivides(c, UpdCrc(b, r));
    TimesNLinear(TimesN(r, 8), p, 8);
    TimesNAdds(r, 8, 8);
    TimesNAdds(Poly(b), 16, 8);
    XorAssociates(TimesN(r, 16), TimesN(Poly(b), 24), q);
  }

  lemma BothBytesTimes(b: byte, c: byte)
    ensures Xor(TimesN(Poly(b), 24), TimesN(Poly(c), 16)) == TimesN(Xor(Shifted(Poly(b)), Poly(c)), 16)
  {
    hide Xor, Times, Shifted, Within, Doubled, Coefficient;
    TimesNAdds(Poly(b), 8, 16);
    PowTable();
    OnesTable();
    PolyWithin(b, 8);
    TimesShifts(Poly(b));
    TimesNLinear(Shifted(Poly(b)), Poly(c), 16);
  }

  lemma CrcOfTwo(head: seq<byte>, b: byte, c: byte)
    ensures CrcOf(head + [b, c]) == Xor(TimesN(CrcOf(head), 16), TimesN(Xor(Shifted(Poly(b)), Poly(c)), 16))
  {
    hide Xor, Times, UpdCrc, Shifted;
    assert head + [b, c] == (head + [b]) + [c];
    CrcOfSnoc(head + [b], c);
    CrcOfSnoc(head, b);
    TwoSteps(CrcOf(head), b, c);
    BothBytesTimes(b, c);
  }

  lemma TwoBytesDiffer(b: byte, c: byte, b': byte, c': byte)
    requires Xor(Shifted(Poly(b)), Poly(c)) == Xor(Shifted(Poly(b')), Poly(c'))
    ensures b == b' && c == c'
  {
    hide Xor, Shifted, Within, Poly, Number, Ones;
    PowTable();
    OnesTable();
    PolyWithin(b, 8);
    PolyWithin(b', 8);
    PolyWithin(c, 8);
    PolyWithin(c', 8);
    HalvesOf(Poly(b), Poly(c));
    HalvesOf(Poly(b'), Poly(c'));
    NumberPoly(b, 8);
    NumberPoly(b', 8);
    NumberPoly(c, 8);
    NumberPoly(c', 8);
  }

  lemma HalvesOf(h: crc16, l: crc16)
    requires Within(h, 0xff) && Within(l, 0xff)
    ensures High(Xor(Shifted(h), l)) == h && Low(Xor(Shifted(h), l)) == l
  {
  }

  lemma LowerOf(x: crc16, b: bool)
    requires !Top(x)
    ensures Lower(Xor(Doubled(x), Coefficient(b))) == x && Odd(Xor(Doubled(x), Coefficient(b))) == b
  {
    hide Xor, Doubled, Top, Lower, Odd;
    LowerOfOdd(x);
    LowerOfEven(x);
  }

  lemma LowerOfOdd(x: crc16)
    requires !Top(x)
    ensures Lower(Xor(Doubled(x), 1)) == x && Odd(Xor(Doubled(x), 1))
  {
  }

  lemma LowerOfEven(x: crc16)
    requires !Top(x)
    ensures Lower(Xor(Doubled(x), 0)) == x && !Odd(Xor(Doubled(x), 0))
  {
  }

  lemma {:induction false} NumberPoly(i: nat, n: nat)
    requires n <= 8 && i < Pow2(n)
    ensures Number(Poly(i), n) == i
  {
    hide Xor, Doubled, Coefficient, Top, Lower, Odd, Within;
    if n > 0 {
      PolyStep(i);
      PolyWithin(i / 2, n - 1);
      OnesTop(n - 1);
      TopWithin(Poly(i / 2), Ones(n - 1));
      LowerOf(Poly(i / 2), i % 2 == 1);
      NumberPoly(i / 2, n - 1);
    }
  }

  /** Two strings of one length that differ only within two adjacent bytes never share a CRC. */
  lemma BurstDetected(head: seq<byte>, b: byte, c: byte, b': byte, c': byte, tail: seq<byte>)
    requires b != b' || c != c'
    ensures CrcOf(head + [b, c] + tail) != CrcOf(head + [b', c'] + tail)
  {
    hide Xor, Times, Shifted;
    CrcOfTwo(head, b, c);
    CrcOfTwo(head, b', c');
    var r := TimesN(CrcOf(head), 16);
    var p, q := Xor(Shifted(Poly(b)), Poly(c)), Xor(Shifted(Poly(b')), Poly(c'));
    if CrcOf(head + [b, c]) == CrcOf(head + [b', c']) {
      XorCommutes(r, TimesN(p, 16));
      XorCommutes(r, TimesN(q, 16));
      XorInjective(TimesN(p, 16), TimesN(q, 16), r);
      TimesNInjective(p, q, 16);
      TwoBytesDiffer(b, c, b', c');
    }
    CrcInjective(head + [b, c], head + [b', c'], tail);
  }

  lemma JoinIsXor(p: crc16, q: crc16)
    requires Within(p, 0xff)
    ensures p | Shifted(q) == Xor(Shifted(q), p)
  {
  }

  lemma JoinIs(lo: byte, hi: byte)
    ensures CrcJoin(lo, hi) == Xor(Shifted(Poly(hi)), Poly(lo))
  {
    hide Xor, Shifted, Within, Poly, Ones;
    PowTable();
    OnesTable();
    PolyWithin(lo, 8);
    JoinIsXor(Poly(lo), Poly(hi));
  }

  /** Different bytes of a CRC make up different CRCs. */
  lemma JoinInjective(lo: byte, hi: byte, lo': byte, hi': byte)
    requires CrcJoin(lo, hi) == CrcJoin(lo', hi')
    ensures lo == lo' && hi == hi'
  {
    hide Xor, Shifted, CrcJoin, Poly;
    JoinIs(lo, hi);
    JoinIs(lo', hi');
    TwoBytesDiffer(hi, lo, hi', lo');
  }
}
