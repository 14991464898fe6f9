/** What the other modules share: an optional result, and the two views of a byte. */
module Wrappers {

  newtype byte = x: int | 0 <= x < 256

  type Bytes = seq<byte>

  datatype Option<+T> = None | Some(value: T) {
    function GetOr(default: T): T {
      match this
      case Some(v) => v
      case None => default
    }
  }

  /** The C string at the front of some bytes. */
  function UpToNul(s: Bytes): Bytes {
    if s == [] || s[0] == 0 then [] else [s[0]] + UpToNul(s[1..])
  }

  /** The exclusive or of two numbers, bit by bit. */
  function Xor(a: nat, b: nat): nat {
    if a == 0 && b == 0 then 0 else (a + b) % 2 + 2 * Xor(a / 2, b / 2)
  }

  // ---- A byte as eight bits ----

  function Pack(b0: bool, b1: bool, b2: bool, b3: bool, b4: bool, b5: bool, b6: bool, b7: bool): bv8 {
    (if b0 then 1 else 0) | (if b1 then 2 else 0) | (if b2 then 4 else 0) | (if b3 then 8 else 0)
    | (if b4 then 16 else 0) | (if b5 then 32 else 0) | (if b6 then 64 else 0) | (if b7 then 128 else 0)
  }

  function Digit(b: bool): nat {
    if b then 1 else 0
  }

  function Weigh(b0: bool, b1: bool, b2: bool, b3: bool, b4: bool, b5: bool, b6: bool, b7: bool): (n: nat)
    ensures n < 256
  {
    Digit(b0) + 2 * (Digit(b1) + 2 * (Digit(b2) + 2 * (Digit(b3)
    + 2 * (Digit(b4) + 2 * (Digit(b5) + 2 * (Digit(b6) + 2 * Digit(b7)))))))
  }

  function Odd(n: nat): bool {
    n % 2 == 1
  }

  function Half(n: nat): nat {
    n / 2
  }

  /** The bits of a byte. */
  function BitsOf(x: byte): bv8 {
    var n0 := x as nat;
    var n1 := Half(n0);
    var n2 := Half(n1);
    var n3 := Half(n2);
    var n4 := Half(n3);
    var n5 := Half(n4);
    var n6 := Half(n5);
    var n7 := Half(n6);
    Pack(Odd(n0), Odd(n1), Odd(n2), Odd(n3), Odd(n4), Odd(n5), Odd(n6), Odd(n7))
  }

  /** The byte with these bits. */
  function ByteOf(v: bv8): byte {
    Weigh(v & 1 != 0, v & 2 != 0, v & 4 != 0, v & 8 != 0, v & 16 != 0, v & 32 != 0, v & 64 != 0, v & 128 != 0) as byte
  }

  lemma PackBits(b0: bool, b1: bool, b2: bool, b3: bool, b4: bool, b5: bool, b6: bool, b7: bool)
    ensures var v := Pack(b0, b1, b2, b3, b4, b5, b6, b7);
            && (v & 1 != 0) == b0 && (v & 2 != 0) == b1 && (v & 4 != 0) == b2 && (v & 8 != 0) == b3
            && (v & 16 != 0) == b4 && (v & 32 != 0) == b5 && (v & 64 != 0) == b6 && (v & 128 != 0) == b7
  {
  }

  lemma UnpackBits(v: bv8)
    ensures Pack(v & 1 != 0, v & 2 != 0, v & 4 != 0, v & 8 != 0, v & 16 != 0, v & 32 != 0, v & 64 != 0, v & 128 != 0) == v
  {
  }

  lemma ByteOfPack(b0: bool, b1: bool, b2: bool, b3: bool, b4: bool, b5: bool, b6: bool, b7: bool)
    ensures ByteOf(Pack(b0, b1, b2, b3, b4, b5, b6, b7)) as nat == Weigh(b0, b1, b2, b3, b4, b5, b6, b7)
  {
    hide Pack, Weigh;
    PackBits(b0, b1, b2, b3, b4, b5, b6, b7);
  }

  lemma Halves(n: nat)
    ensures n == Digit(Odd(n)) + 2 * Half(n)
  {
  }

  lemma ByteOfBitsOf(x: byte)
    ensures ByteOf(BitsOf(x)) == x
  {
    hide Pack, ByteOf, Odd, Half;
    var n0 := x as nat;
    var n1 := Half(n0);
    var n2 := Half(n1);
    var n3 := Half(n2);
    var n4 := Half(n3);
    var n5 := Half(n4);
    var n6 := Half(n5);
    var n7 := Half(n6);
    Halves(n0);
    Halves(n1);
    Halves(n2);
    Halves(n3);
    Halves(n4);
    Halves(n5);
    Halves(n6);
    Halves(n7);
    ByteOfPack(Odd(n0), Odd(n1), Odd(n2), Odd(n3), Odd(n4), Odd(n5), Odd(n6), Odd(n7));
  }

  lemma HalveDigit(b: bool, n: nat)
    ensures Odd(Digit(b) + 2 * n) == b && Half(Digit(b) + 2 * n) == n
  {
  }

  lemma WeighDigits(b0: bool, b1: bool, b2: bool, b3: bool, b4: bool, b5: bool, b6: bool, b7: bool)
    ensures BitsOf(Weigh(b0, b1, b2, b3, b4, b5, b6, b7) as byte) == Pack(b0, b1, b2, b3, b4, b5, b6, b7)
  {
    hide Pack, Odd, Half, Digit;
    var n7 := Digit(b7);
    var n6 := Digit(b6) + 2 * n7;
    var n5 := Digit(b5) + 2 * n6;
    var n4 := Digit(b4) + 2 * n5;
    var n3 := Digit(b3) + 2 * n4;
    var n2 := Digit(b2) + 2 * n3;
    var n1 := Digit(b1) + 2 * n2;
    HalveDigit(b7, 0);
    HalveDigit(b6, n7);
    HalveDigit(b5, n6);
    HalveDigit(b4, n5);
    HalveDigit(b3, n4);
    HalveDigit(b2, n3);
    HalveDigit(b1, n2);
    HalveDigit(b0, n1);
  }

  lemma BitsOfByteOf(v: bv8)
    ensures BitsOf(ByteOf(v)) == v
  {
    hide Pack, Weigh, BitsOf;
    UnpackBits(v);
    WeighDigits(v & 1 != 0, v & 2 != 0, v & 4 != 0, v & 8 != 0, v & 16 != 0, v & 32 != 0, v & 64 != 0, v & 128 != 0);
  }
}
