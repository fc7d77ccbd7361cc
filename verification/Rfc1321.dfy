/**
  The MD5 message digest as sections 3.1 to 3.5 of RFC 1321 define it, on a whole message.
 */
module Rfc1321 {
  import opened Bytes

  datatype State = State(a: bv32, b: bv32, c: bv32, d: bv32)

  // ----- section 3.4: the auxiliary functions and one step -----

  function F(x: bv32, y: bv32, z: bv32): bv32 { (x & y) | (!x & z) }
  function G(x: bv32, y: bv32, z: bv32): bv32 { (x & z) | (y & !z) }
  function H(x: bv32, y: bv32, z: bv32): bv32 { x ^ y ^ z }
  function I(x: bv32, y: bv32, z: bv32): bv32 { y ^ (x | !z) }

  function Mix(i: int, x: bv32, y: bv32, z: bv32): bv32 {
    if i < 16 then F(x, y, z) else if i < 32 then G(x, y, z) else if i < 48 then H(x, y, z) else I(x, y, z)
  }

  /** The word of the block that step `i` takes. */
  function K(i: int): (k: int)
    ensures 0 <= k < 16
  {
    if i < 16 then i % 16 else if i < 32 then (5 * i + 1) % 16 else if i < 48 then (3 * i + 5) % 16 else 7 * i % 16
  }

  /** How far step `i` rotates. */
  function S(i: int): (s: nat)
    ensures 4 <= s < 24
  {
    if i < 16 then (if i % 4 == 0 then 7 else if i % 4 == 1 then 12 else if i % 4 == 2 then 17 else 22)
    else if i < 32 then (if i % 4 == 0 then 5 else if i % 4 == 1 then 9 else if i % 4 == 2 then 14 else 20)
    else if i < 48 then (if i % 4 == 0 then 4 else if i % 4 == 1 then 11 else if i % 4 == 2 then 16 else 23)
    else (if i % 4 == 0 then 6 else if i % 4 == 1 then 10 else if i % 4 == 2 then 15 else 21)
  }

  function T1(i: int): bv32 {
    match i
    case 0 => 0xd76aa478 case 1 => 0xe8c7b756 case 2 => 0x242070db case 3 => 0xc1bdceee
    case 4 => 0xf57c0faf case 5 => 0x4787c62a case 6 => 0xa8304613 case 7 => 0xfd469501
    case 8 => 0x698098d8 case 9 => 0x8b44f7af case 10 => 0xffff5bb1 case 11 => 0x895cd7be
    case 12 => 0x6b901122 case 13 => 0xfd987193 case 14 => 0xa679438e case _ => 0x49b40821
  }

  function T2(i: int): bv32 {
    match i
    case 16 => 0xf61e2562 case 17 => 0xc040b340 case 18 => 0x265e5a51 case 19 => 0xe9b6c7aa
    case 20 => 0xd62f105d case 21 => 0x02441453 case 22 => 0xd8a1e681 case 23 => 0xe7d3fbc8
    case 24 => 0x21e1cde6 case 25 => 0xc33707d6 case 26 => 0xf4d50d87 case 27 => 0x455a14ed
    case 28 => 0xa9e3e905 case 29 => 0xfcefa3f8 case 30 => 0x676f02d9 case _ => 0x8d2a4c8a
  }

  function T3(i: int): bv32 {
    match i
    case 32 => 0xfffa3942 case 33 => 0x8771f681 case 34 => 0x6d9d6122 case 35 => 0xfde5380c
    case 36 => 0xa4beea44 case 37 => 0x4bdecfa9 case 38 => 0xf6bb4b60 case 39 => 0xbebfbc70
    case 40 => 0x289b7ec6 case 41 => 0xeaa127fa case 42 => 0xd4ef3085 case 43 => 0x04881d05
    case 44 => 0xd9d4d039 case 45 => 0xe6db99e5 case 46 => 0x1fa27cf8 case _ => 0xc4ac5665
  }

  function T4(i: int): bv32 {
    match i
    case 48 => 0xf4292244 case 49 => 0x432aff97 case 50 => 0xab9423a7 case 51 => 0xfc93a039
    case 52 => 0x655b59c3 case 53 => 0x8f0ccc92 case 54 => 0xffeff47d case 55 => 0x85845dd1
    case 56 => 0x6fa87e4f case 57 => 0xfe2ce6e0 case 58 => 0xa3014314 case 59 => 0x4e0811a1
    case 60 => 0xf7537e82 case 61 => 0xbd3af235 case 62 => 0x2ad7d2bb case _ => 0xeb86d391
  }

  /** The integer part of 4294967296 times abs(sin(i + 1)). */
  function T(i: int): bv32 {
    if i < 16 then T1(i) else if i < 32 then T2(i) else if i < 48 then T3(i) else T4(i)
  }

  function Rotl(w: bv32, s: nat): bv32
    requires s <= 32
  {
    w.RotateLeft(s)
  }

  function Sum(u: bv32, v: bv32): bv32 { u + v }

  /** a = b + ((a + f(b, c, d) + X[k] + T[i]) <<< s), and the roles of the four words move on by one. */
  function Step(i: int, st: State, x: seq<bv32>): State
    requires |x| == 16
  {
    State(st.d, Sum(Rotl(Sum(st.a, Sum(Sum(Mix(i, st.b, st.c, st.d), x[K(i)]), T(i))), S(i)), st.b), st.b, st.c)
  }

  function Steps(st: State, x: seq<bv32>, n: nat): State
    requires |x| == 16
  {
    if n == 0 then st else Step(n - 1, Steps(st, x, n - 1), x)
  }

  function Added(s: State, t: State): State {
    State(Sum(s.a, t.a), Sum(s.b, t.b), Sum(s.c, t.c), Sum(s.d, t.d))
  }

  // ----- words in bytes, the low-order byte first -----

  function WordOf(b: seq<byte>): bv32
    requires |b| == 4
  {
    (b[0] as int + 0x100 * b[1] as int + 0x10000 * b[2] as int + 0x100_0000 * b[3] as int) as bv32
  }

  function Words(block: seq<byte>): (x: seq<bv32>)
    requires |block| == 64
    ensures |x| == 16
  {
    seq(16, i requires 0 <= i < 16 => WordOf(block[4 * i..4 * i + 4]))
  }

  function WordBytes(n: word): (b: seq<byte>)
    ensures |b| == 4
  {
    [n % 0x100, n / 0x100 % 0x100, n / 0x10000 % 0x100, n / 0x100_0000]
  }

  function Number(w: bv32): word { w as int }

  // ----- sections 3.1 to 3.5 -----

  function Block(st: State, block: seq<byte>): State
    requires |block| == 64
  {
    Added(Steps(st, Words(block), 64), st)
  }

  /** The state after whole blocks. */
  function Blocks(st: State, s: seq<byte>): State
    requires |s| % 64 == 0
  {
    if s == [] then st else Block(Blocks(st, s[..|s| - 64]), s[|s| - 64..])
  }

  const INIT := State(0x67452301, 0xefcdab89, 0x98badcfe, 0x10325476)

  /** How many zero bytes follow the byte 0x80, so that 8 bytes complete a block. */
  function Zeros(n: nat): (k: nat)
    ensures k < 64 && (n + 1 + k) % 64 == 56
  {
    (55 - n) % 64
  }

  /** The length in bits, modulo 2^64, in two words, the low-order word first. */
  function LengthBytes(n: nat): (b: seq<byte>)
    ensures |b| == 8
  {
    var bits := 8 * n % 0x1_0000_0000_0000_0000;
    WordBytes(bits % 0x1_0000_0000) + WordBytes(bits / 0x1_0000_0000)
  }

  lemma WholeBlocks(m: nat)
    requires m % 64 == 56
    ensures (m + 8) % 64 == 0
  {
  }

  function Padding(n: nat): (p: seq<byte>)
    ensures |p| == Zeros(n) + 9 && (n + |p|) % 64 == 0
  {
    WholeBlocks(n + 1 + Zeros(n));
    [0x80] + seq(Zeros(n), _ => 0) + LengthBytes(n)
  }

  function Output(st: State): seq<byte> {
    WordBytes(Number(st.a)) + WordBytes(Number(st.b)) + WordBytes(Number(st.c)) + WordBytes(Number(st.d))
  }

  /** The digest of a message. */
  function Digest(message: seq<byte>): seq<byte> {
    Output(Blocks(INIT, message + Padding(|message|)))
  }
}
