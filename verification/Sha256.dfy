/**
 SHA-256 as sections 4, 5 and 6.2 of FIPS 180-4 define it: constants, padding,
 message schedule, compression, and the hash of a whole message.
 */
module Sha256 {
  import opened Wrappers

  /** A 32-bit Word; every operation on it is one of the functions below. */
  datatype Word = Word(bits: bv32)

  // ---- Section 4.1.2: functions ----

  function RotateRight(x: bv32, n: bv6): bv32
    requires 0 < n < 32
  {
    (x >> n) | (x << (32 - n))
  }

  /** Addition modulo 2^32. */
  function Plus(x: Word, y: Word): Word {
    Word(x.bits + y.bits)
  }

  function Ch(x: Word, y: Word, z: Word): Word {
    Word((x.bits & y.bits) ^ (!x.bits & z.bits))
  }

  function Maj(x: Word, y: Word, z: Word): Word {
    Word((x.bits & y.bits) ^ (x.bits & z.bits) ^ (y.bits & z.bits))
  }

  function BigSigma0(x: Word): Word {
    Word(RotateRight(x.bits, 2) ^ RotateRight(x.bits, 13) ^ RotateRight(x.bits, 22))
  }

  function BigSigma1(x: Word): Word {
    Word(RotateRight(x.bits, 6) ^ RotateRight(x.bits, 11) ^ RotateRight(x.bits, 25))
  }

  function SmallSigma0(x: Word): Word {
    Word(RotateRight(x.bits, 7) ^ RotateRight(x.bits, 18) ^ (x.bits >> 3))
  }

  function SmallSigma1(x: Word): Word {
    Word(RotateRight(x.bits, 17) ^ RotateRight(x.bits, 19) ^ (x.bits >> 10))
  }

  // ---- Sections 4.2.2 and 5.3.3: constants ----

  /** The first sixty-four primes. */
  function Prime(t: nat): nat
    requires t < 64
  {
    match t
    case 0 => 2 case 1 => 3 case 2 => 5 case 3 => 7
    case 4 => 11 case 5 => 13 case 6 => 17 case 7 => 19
    case 8 => 23 case 9 => 29 case 10 => 31 case 11 => 37
    case 12 => 41 case 13 => 43 case 14 => 47 case 15 => 53
    case 16 => 59 case 17 => 61 case 18 => 67 case 19 => 71
    case 20 => 73 case 21 => 79 case 22 => 83 case 23 => 89
    case 24 => 97 case 25 => 101 case 26 => 103 case 27 => 107
    case 28 => 109 case 29 => 113 case 30 => 127 case 31 => 131
    case 32 => 137 case 33 => 139 case 34 => 149 case 35 => 151
    case 36 => 157 case 37 => 163 case 38 => 167 case 39 => 173
    case 40 => 179 case 41 => 181 case 42 => 191 case 43 => 193
    case 44 => 197 case 45 => 199 case 46 => 211 case 47 => 223
    case 48 => 227 case 49 => 229 case 50 => 233 case 51 => 239
    case 52 => 241 case 53 => 251 case 54 => 257 case 55 => 263
    case 56 => 269 case 57 => 271 case 58 => 277 case 59 => 281
    case 60 => 283 case 61 => 293 case 62 => 307 case _ => 311
  }

  function RoundConstant(t: nat): (k: nat)
    requires t < 64
    ensures k < 0x1_0000_0000
  {
    match t
    case 0 => 0x428a_2f98 case 1 => 0x7137_4491 case 2 => 0xb5c0_fbcf case 3 => 0xe9b5_dba5
    case 4 => 0x3956_c25b case 5 => 0x59f1_11f1 case 6 => 0x923f_82a4 case 7 => 0xab1c_5ed5
    case 8 => 0xd807_aa98 case 9 => 0x1283_5b01 case 10 => 0x2431_85be case 11 => 0x550c_7dc3
    case 12 => 0x72be_5d74 case 13 => 0x80de_b1fe case 14 => 0x9bdc_06a7 case 15 => 0xc19b_f174
    case 16 => 0xe49b_69c1 case 17 => 0xefbe_4786 case 18 => 0x0fc1_9dc6 case 19 => 0x240c_a1cc
    case 20 => 0x2de9_2c6f case 21 => 0x4a74_84aa case 22 => 0x5cb0_a9dc case 23 => 0x76f9_88da
    case 24 => 0x983e_5152 case 25 => 0xa831_c66d case 26 => 0xb003_27c8 case 27 => 0xbf59_7fc7
    case 28 => 0xc6e0_0bf3 case 29 => 0xd5a7_9147 case 30 => 0x06ca_6351 case 31 => 0x1429_2967
    case 32 => 0x27b7_0a85 case 33 => 0x2e1b_2138 case 34 => 0x4d2c_6dfc case 35 => 0x5338_0d13
    case 36 => 0x650a_7354 case 37 => 0x766a_0abb case 38 => 0x81c2_c92e case 39 => 0x9272_2c85
    case 40 => 0xa2bf_e8a1 case 41 => 0xa81a_664b case 42 => 0xc24b_8b70 case 43 => 0xc76c_51a3
    case 44 => 0xd192_e819 case 45 => 0xd699_0624 case 46 => 0xf40e_3585 case 47 => 0x106a_a070
    case 48 => 0x19a4_c116 case 49 => 0x1e37_6c08 case 50 => 0x2748_774c case 51 => 0x34b0_bcb5
    case 52 => 0x391c_0cb3 case 53 => 0x4ed8_aa4a case 54 => 0x5b9c_ca4f case 55 => 0x682e_6ff3
    case 56 => 0x748f_82ee case 57 => 0x78a5_636f case 58 => 0x84c8_7814 case 59 => 0x8cc7_0208
    case 60 => 0x90be_fffa case 61 => 0xa450_6ceb case 62 => 0xbef9_a3f7 case _ => 0xc671_78f2
  }

  function InitialValue(t: nat): (h: nat)
    requires t < 8
    ensures h < 0x1_0000_0000
  {
    match t
    case 0 => 0x6a09_e667 case 1 => 0xbb67_ae85 case 2 => 0x3c6e_f372 case 3 => 0xa54f_f53a
    case 4 => 0x510e_527f case 5 => 0x9b05_688c case 6 => 0x1f83_d9ab case _ => 0x5be0_cd19
  }

  /** The integer part of the cube root of a small number. */
  function CubeFloor(p: nat): nat {
    if p < 8 then 1 else if p < 27 then 2 else if p < 64 then 3 else if p < 125 then 4 else if p < 216 then 5 else 6
  }

  function SquareFloor(p: nat): nat {
    if p < 4 then 1 else if p < 9 then 2 else if p < 16 then 3 else 4
  }

  /** k is the first thirty-two bits of the fractional part of the cube root of p. */
  ghost predicate CubeRootBits(p: nat, k: nat) {
    var r := CubeFloor(p) * 0x1_0000_0000 + k;
    k < 0x1_0000_0000 && r * r * r <= p * 0x1_0000_0000_0000_0000_0000_0000 < (r + 1) * (r + 1) * (r + 1)
  }

  ghost predicate SquareRootBits(p: nat, h: nat) {
    var r := SquareFloor(p) * 0x1_0000_0000 + h;
    h < 0x1_0000_0000 && r * r <= p * 0x1_0000_0000_0000_0000 < (r + 1) * (r + 1)
  }

  /** The table of the code is the one the standard describes. */
  lemma RoundConstantsAreCubeRoots(t: nat)
    requires t < 64
    ensures CubeRootBits(Prime(t), RoundConstant(t))
  {
    var p, k := Prime(t), RoundConstant(t);
  }

  lemma InitialValuesAreSquareRoots(t: nat)
    requires t < 8
    ensures SquareRootBits(Prime(t), InitialValue(t))
  {
    var p, h := Prime(t), InitialValue(t);
  }

  function K(t: nat): Word
    requires t < 64
  {
    Word(RoundConstant(t) as bv32)
  }

  function H0(t: nat): Word
    requires t < 8
  {
    Word(InitialValue(t) as bv32)
  }

  // ---- Section 5.1.1: padding ----

  /** How many zero bytes follow the 0x80 byte. */
  function ZeroBytes(length: nat): nat {
    var r := length % 64;
    if r < 56 then 55 - r else 119 - r
  }

  /** It is the smallest number that leaves room for exactly the length field in the last block. */
  lemma ZeroBytesLeast(length: nat, k: nat)
    ensures (length + 1 + ZeroBytes(length)) % 64 == 56
    ensures (length + 1 + k) % 64 == 56 ==> ZeroBytes(length) <= k
  {
  }

  function Zeros(n: nat): Bytes {
    seq(n, _ => 0)
  }

  /** n shifted right by k bytes. */
  function ShiftBytes(n: nat, k: nat): nat {
    if k == 0 then n else ShiftBytes(n, k - 1) / 256
  }

  function LengthByte(bits: nat, i: nat): byte
    requires i < 8
  {
    (ShiftBytes(bits, 7 - i) % 256) as byte
  }

  /** The length in bits as eight bytes, most significant first. */
  function LengthField(bits: nat): (f: Bytes)
    ensures |f| == 8
  {
    seq(8, i requires 0 <= i < 8 => LengthByte(bits, i))
  }

  function Pad(m: Bytes): (p: Bytes)
    ensures |p| % 64 == 0
  {
    m + [0x80] + Zeros(ZeroBytes(|m|)) + LengthField(8 * |m|)
  }

  // ---- Section 6.2.2: the hash computation ----

  function BigEndian(a: byte, b: byte, c: byte, d: byte): Word {
    Word(((BitsOf(a) as bv32) << 24) | ((BitsOf(b) as bv32) << 16) | ((BitsOf(c) as bv32) << 8) | (BitsOf(d) as bv32))
  }

  /** The message schedule; addition modulo 2^32 does not depend on the order of its four terms. */
  function Schedule(b: Bytes, t: nat): Word
    requires |b| == 64 && t < 64
    decreases t
  {
    if t < 16 then BigEndian(b[4 * t], b[4 * t + 1], b[4 * t + 2], b[4 * t + 3])
    else
      Plus(Plus(Plus(Schedule(b, t - 16), SmallSigma0(Schedule(b, t - 15))), Schedule(b, t - 7)), SmallSigma1(Schedule(b, t - 2)))
  }

  datatype Vars = Vars(a: Word, b: Word, c: Word, d: Word, e: Word, f: Word, g: Word, h: Word)

  function Round(v: Vars, k: Word, w: Word): Vars {
    var t1 := Plus(Plus(Plus(Plus(v.h, BigSigma1(v.e)), Ch(v.e, v.f, v.g)), k), w);
    var t2 := Plus(BigSigma0(v.a), Maj(v.a, v.b, v.c));
    Vars(Plus(t1, t2), v.a, v.b, v.c, Plus(v.d, t1), v.e, v.f, v.g)
  }

  function Rounds(v: Vars, b: Bytes, t: nat): Vars
    requires |b| == 64 && t <= 64
  {
    if t == 0 then v else Round(Rounds(v, b, t - 1), K(t - 1), Schedule(b, t - 1))
  }

  function Add(v: Vars, w: Vars): Vars {
    Vars(Plus(v.a, w.a), Plus(v.b, w.b), Plus(v.c, w.c), Plus(v.d, w.d),
         Plus(v.e, w.e), Plus(v.f, w.f), Plus(v.g, w.g), Plus(v.h, w.h))
  }

  function Compress(v: Vars, b: Bytes): Vars
    requires |b| == 64
  {
    Add(v, Rounds(v, b, 64))
  }

  function Initial(): Vars {
    Vars(H0(0), H0(1), H0(2), H0(3), H0(4), H0(5), H0(6), H0(7))
  }

  /** The hash value after all blocks of m. */
  function HashBlocks(m: Bytes): Vars
    requires |m| % 64 == 0
  {
    if m == [] then Initial()
    else
      assert |m| >= 64;
      Compress(HashBlocks(m[..|m| - 64]), m[|m| - 64..])
  }

  function WordBytes(x: Word): Bytes {
    [ByteOf((x.bits >> 24) as bv8), ByteOf(((x.bits >> 16) & 0xff) as bv8),
     ByteOf(((x.bits >> 8) & 0xff) as bv8), ByteOf((x.bits & 0xff) as bv8)]
  }

  function DigestBytes(v: Vars): (d: Bytes) {
    WordBytes(v.a) + WordBytes(v.b) + WordBytes(v.c) + WordBytes(v.d)
    + WordBytes(v.e) + WordBytes(v.f) + WordBytes(v.g) + WordBytes(v.h)
  }

  /** SHA-256 of a whole message. */
  function Hash(m: Bytes): Bytes {
    DigestBytes(HashBlocks(Pad(m)))
  }

  lemma HashNothing()
    ensures HashBlocks([]) == Initial()
  {
    hide Compress, H0;
  }

  lemma HashOneMoreBlock(m: Bytes, b: Bytes)
    requires |m| % 64 == 0 && |b| == 64
    ensures HashBlocks(m + b) == Compress(HashBlocks(m), b)
  {
    hide Compress;
    assert (m + b)[..|m + b| - 64] == m && (m + b)[|m + b| - 64..] == b;
  }

  /** The length field says the length: read as a big-endian number it is the length modulo 2^64. */
  lemma LengthFieldValue(bits: nat)
    ensures FieldValue(LengthField(bits), 8) == bits % 0x1_0000_0000_0000_0000
  {
    hide LengthByte, ShiftBytes;
    var f := LengthField(bits);
    forall i | 0 <= i < 8
      ensures ShiftBytes(bits, 7 - i) == 256 * ShiftBytes(bits, 8 - i) + f[i] as nat
    {
      LengthByteValue(bits, i);
    }
    Horner(f);
    ShiftNone(bits);
    var top := ShiftBytes(bits, 8);
    assert bits == 0x1_0000_0000_0000_0000 * top + FieldValue(f, 8);
    Remainder64(bits, top, FieldValue(f, 8));
  }

  lemma ShiftNone(n: nat)
    ensures ShiftBytes(n, 0) == n
  {
  }

  lemma Remainder64(n: nat, q: nat, r: nat)
    requires n == 0x1_0000_0000_0000_0000 * q + r && r < 0x1_0000_0000_0000_0000
    ensures n % 0x1_0000_0000_0000_0000 == r
  {
  }

  lemma LengthByteValue(bits: nat, i: nat)
    requires i < 8
    ensures ShiftBytes(bits, 7 - i) == 256 * ShiftBytes(bits, 8 - i) + LengthByte(bits, i) as nat
  {
    hide BitsOf, ByteOf;
  }

  function FieldValue(f: Bytes, n: nat): nat
    requires n <= |f|
  {
    if n == 0 then 0 else 256 * FieldValue(f, n - 1) + f[n - 1] as nat
  }

  lemma Horner(f: Bytes)
    requires |f| == 8
    ensures FieldValue(f, 8) < 0x1_0000_0000_0000_0000
    ensures FieldValue(f, 8) == (f[7] as nat) + 0x100 * (f[6] as nat) + 0x1_0000 * (f[5] as nat)
              + 0x100_0000 * (f[4] as nat) + 0x1_0000_0000 * (f[3] as nat)
              + 0x100_0000_0000 * (f[2] as nat) + 0x1_0000_0000_0000 * (f[1] as nat)
              + 0x100_0000_0000_0000 * (f[0] as nat)
  {
    assert FieldValue(f, 1) == (f[0] as nat);
    assert FieldValue(f, 2) == 256 * FieldValue(f, 1) + (f[1] as nat);
    assert FieldValue(f, 3) == 256 * FieldValue(f, 2) + (f[2] as nat);
    assert FieldValue(f, 4) == 256 * FieldValue(f, 3) + (f[3] as nat);
    assert FieldValue(f, 5) == 256 * FieldValue(f, 4) + (f[4] as nat);
    assert FieldValue(f, 6) == 256 * FieldValue(f, 5) + (f[5] as nat);
    assert FieldValue(f, 7) == 256 * FieldValue(f, 6) + (f[6] as nat);
  }
}
