/**
 The CRC-32 of the shared-value store (android_callbacks.c) and why it sees
 every change of one payload byte: each register step is a bijection.
 */
module StoreCrc {
  import opened Wrappers

  const POLYNOMIAL: bv32 := 0xedb8_8320

  /** One turn of the bit loop: the low bit selects whether the polynomial is mixed in. */
  function Shift(crc: bv32): bv32 {
    (crc >> 1) ^ (POLYNOMIAL & (0 - (crc & 1)))
  }

  function Shifts(crc: bv32, n: nat): bv32 {
    if n == 0 then crc else Shift(Shifts(crc, n - 1))
  }

  function Mix(crc: bv32, b: byte): bv32 {
    Widen(crc, BitsOf(b))
  }

  function Widen(crc: bv32, b: bv8): bv32 {
    crc ^ (b as bv32)
  }

  function Complement(crc: bv32): bv32 {
    !crc
  }

  /** The register after one more data byte. */
  function Absorb(crc: bv32, b: byte): bv32 {
    Shifts(Mix(crc, b), 8)
  }

  /** The register after all of data, before the final complement. */
  function Register(data: Bytes): bv32 {
    if data == [] then 0xffff_ffff else Absorb(Register(data[..|data| - 1]), data[|data| - 1])
  }

  function Crc(data: Bytes): bv32 {
    Complement(Register(data))
  }

  lemma RegisterNext(data: Bytes, b: byte)
    ensures Register(data + [b]) == Absorb(Register(data), b)
  {
    assert (data + [b])[..|data|] == data;
  }

  /** The two nested loops of shared_crc32, over a buffer. */
  method SharedCrc32(data: Bytes) returns (r: bv32)
    ensures r == Crc(data)
  {
    hide Shift, Mix, Complement;
    var crc: bv32 := 0xffff_ffff;
    for index := 0 to |data|
      invariant crc == Register(data[..index])
    {
      crc := Mix(crc, data[index]);
      ghost var mixed := crc;
      for bit := 0 to 8
        invariant crc == Shifts(mixed, bit)
      {
        crc := Shift(crc);
      }
      RegisterNext(data[..index], data[index]);
      assert data[..index + 1] == data[..index] + [data[index]];
    }
    assert data[..|data|] == data;
    r := Complement(crc);
  }

  // ---- Every step can be undone ----

  /** The inverse of Shift: bit 31 tells whether the polynomial was mixed in. */
  function Unshift(crc: bv32): bv32 {
    if crc & 0x8000_0000 != 0 then ((crc ^ POLYNOMIAL) << 1) | 1 else crc << 1
  }

  lemma ShiftInverse(crc: bv32)
    ensures Unshift(Shift(crc)) == crc
  {
  }

  lemma {:induction false} ShiftsInjective(a: bv32, b: bv32, n: nat)
    requires Shifts(a, n) == Shifts(b, n)
    ensures a == b
  {
    hide Shift, Unshift;
    if n == 0 {
    } else {
      ShiftInverse(Shifts(a, n - 1));
      ShiftInverse(Shifts(b, n - 1));
      ShiftsInjective(a, b, n - 1);
    }
  }

  lemma MixInjective(a: bv32, b: bv32, x: byte, y: byte)
    requires Mix(a, x) == Mix(b, y)
    ensures x == y ==> a == b
    ensures a == b ==> x == y
  {
    hide Widen, BitsOf, ByteOf;
    WidenInjective(a, b, BitsOf(x), BitsOf(y));
    ByteOfBitsOf(x);
    ByteOfBitsOf(y);
  }

  lemma WidenInjective(a: bv32, b: bv32, x: bv8, y: bv8)
    requires Widen(a, x) == Widen(b, y)
    ensures x == y ==> a == b
    ensures a == b ==> x == y
  {
  }

  lemma ComplementInjective(a: bv32, b: bv32)
    requires Complement(a) == Complement(b)
    ensures a == b
  {
  }

  /** For a fixed byte the register step is injective, and for a fixed register so is the byte. */
  lemma AbsorbInjective(a: bv32, b: bv32, x: byte, y: byte)
    requires Absorb(a, x) == Absorb(b, y)
    ensures x == y ==> a == b
    ensures a == b ==> x == y
  {
    hide Shift, Mix, Shifts;
    ShiftsInjective(Mix(a, x), Mix(b, y), 8);
    MixInjective(a, b, x, y);
  }

  /** Registers that agree after a common suffix already agreed before it. */
  lemma {:induction false} CommonSuffix(a: Bytes, b: Bytes, suffix: Bytes)
    requires Register(a + suffix) == Register(b + suffix)
    ensures Register(a) == Register(b)
  {
    hide Absorb;
    if suffix == [] {
      assert a + suffix == a && b + suffix == b;
    } else {
      var rest, last := suffix[..|suffix| - 1], suffix[|suffix| - 1];
      assert a + suffix == (a + rest) + [last] && b + suffix == (b + rest) + [last];
      RegisterNext(a + rest, last);
      RegisterNext(b + rest, last);
      AbsorbInjective(Register(a + rest), Register(b + rest), last, last);
      CommonSuffix(a, b, rest);
    }
  }

  lemma ByteSeen(left: Bytes, x: byte, y: byte, right: Bytes)
    requires x != y
    ensures Register(left + [x] + right) != Register(left + [y] + right)
  {
    hide Absorb;
    if Register(left + [x] + right) == Register(left + [y] + right) {
      CommonSuffix(left + [x], left + [y], right);
      RegisterNext(left, x);
      RegisterNext(left, y);
      AbsorbInjective(Register(left), Register(left), x, y);
    }
  }

  /** Changing any single byte of any data changes its checksum. */
  lemma SingleByteChange(data: Bytes, i: nat, b: byte)
    requires i < |data| && b != data[i]
    ensures Crc(data[i := b]) != Crc(data)
  {
    hide Absorb, Complement, Register;
    ByteSeen(data[..i], data[i], b, data[i + 1..]);
    assert data == data[..i] + [data[i]] + data[i + 1..];
    assert data[i := b] == data[..i] + [b] + data[i + 1..];
    if Crc(data[i := b]) == Crc(data) {
      ComplementInjective(Register(data[i := b]), Register(data));
    }
  }

  // ---- The polynomial is the published one ----

  lemma AbsorbBits(crc: bv32, b: byte)
    ensures Absorb(crc, b) == Shift(Shift(Shift(Shift(Shift(Shift(Shift(Shift(Mix(crc, b)))))))))
  {
    hide Shift, Mix;
    var c := Mix(crc, b);
    assert Shifts(c, 1) == Shift(c);
    assert Shifts(c, 2) == Shift(Shift(c));
    assert Shifts(c, 3) == Shift(Shifts(c, 2));
    assert Shifts(c, 4) == Shift(Shifts(c, 3));
    assert Shifts(c, 5) == Shift(Shifts(c, 4));
    assert Shifts(c, 6) == Shift(Shifts(c, 5));
    assert Shifts(c, 7) == Shift(Shifts(c, 6));
  }

  lemma RegisterStep(data: Bytes, b: byte, bits: bv8, before: bv32, after: bv32)
    requires Register(data) == before && BitsOf(b) == bits
    requires Shift(Shift(Shift(Shift(Shift(Shift(Shift(Shift(Widen(before, bits))))))))) == after
    ensures Register(data + [b]) == after
  {
    hide Shift, Widen, Absorb, BitsOf;
    RegisterNext(data, b);
    AbsorbBits(before, b);
  }

  /** The published check value of CRC-32: the checksum of the ASCII digits 1 to 9. */
  lemma CheckValue()
    ensures Crc([0x31, 0x32, 0x33, 0x34, 0x35, 0x36, 0x37, 0x38, 0x39]) == 0xcbf4_3926
  {
    hide Register;
    AfterDigits(9);
    assert CheckDigits(9) == [0x31, 0x32, 0x33, 0x34, 0x35, 0x36, 0x37, 0x38, 0x39];
  }

  function CheckDigits(n: nat): Bytes
    requires n <= 9
  {
    [0x31, 0x32, 0x33, 0x34, 0x35, 0x36, 0x37, 0x38, 0x39][..n]
  }

  function CheckRegister(n: nat): bv32
    requires n <= 9
  {
    [0xffff_ffff, 0x7c23_1048, 0xb0ac_bb32, 0x77b7_9c2d, 0x641c_1f5c, 0x340a_c5e3, 0xf68d_2c9e, 0xaffc_9660, 0x651f_2550, 0x340b_c6d9][n]
  }

  function CheckBits(n: nat): bv8
    requires n < 9
  {
    [0x31, 0x32, 0x33, 0x34, 0x35, 0x36, 0x37, 0x38, 0x39][n]
  }

  lemma CheckBitsOf(n: nat)
    requires n < 9
    ensures BitsOf(CheckDigits(n + 1)[n]) == CheckBits(n)
  {
    hide Pack, BitsOf;
    PackDigits();
    match n {
      case 0 => WeighDigits(true, false, false, false, true, true, false, false);
      case 1 => WeighDigits(false, true, false, false, true, true, false, false);
      case 2 => WeighDigits(true, true, false, false, true, true, false, false);
      case 3 => WeighDigits(false, false, true, false, true, true, false, false);
      case 4 => WeighDigits(true, false, true, false, true, true, false, false);
      case 5 => WeighDigits(false, true, true, false, true, true, false, false);
      case 6 => WeighDigits(true, true, true, false, true, true, false, false);
      case 7 => WeighDigits(false, false, false, true, true, true, false, false);
      case 8 => WeighDigits(true, false, false, true, true, true, false, false);
    }
  }

  lemma PackDigits()
    ensures Pack(true, false, false, false, true, true, false, false) == 0x31
    ensures Pack(false, true, false, false, true, true, false, false) == 0x32
    ensures Pack(true, true, false, false, true, true, false, false) == 0x33
    ensures Pack(false, false, true, false, true, true, false, false) == 0x34
    ensures Pack(true, false, true, false, true, true, false, false) == 0x35
    ensures Pack(false, true, true, false, true, true, false, false) == 0x36
    ensures Pack(true, true, true, false, true, true, false, false) == 0x37
    ensures Pack(false, false, false, true, true, true, false, false) == 0x38
    ensures Pack(true, false, false, true, true, true, false, false) == 0x39
  {
  }

  lemma CheckShift(n: nat)
    requires n < 9
    ensures Shift(Shift(Shift(Shift(Shift(Shift(Shift(Shift(Widen(CheckRegister(n), CheckBits(n)))))))))) == CheckRegister(n + 1)
  {
  }

  lemma {:induction false} AfterDigits(n: nat)
    requires n <= 9
    ensures Register(CheckDigits(n)) == CheckRegister(n)
  {
    if n == 0 {
    } else {
      AfterDigits(n - 1);
      AfterDigit(n - 1);
    }
  }

  lemma AfterDigit(n: nat)
    requires n < 9
    requires Register(CheckDigits(n)) == CheckRegister(n)
    ensures Register(CheckDigits(n + 1)) == CheckRegister(n + 1)
  {
    hide Register, BitsOf, Shift, Widen, CheckRegister, CheckBits;
    var digits := CheckDigits(n + 1);
    assert digits == CheckDigits(n) + [digits[n]];
    CheckBitsOf(n);
    CheckShift(n);
    RegisterStep(CheckDigits(n), digits[n], CheckBits(n), CheckRegister(n), CheckRegister(n + 1));
  }
}
