/**
 The two text converters of jni_bridge.c.  Masks and shifts of the code appear as
 the arithmetic they perform: b & 0x3f is b % 64, and (a << 6) | b is 64 * a + b
 because the low part is below 64.
 */
module TextCodec {
  import opened Wrappers

  newtype unit16 = x: int | 0 <= x < 0x1_0000

  type Units = seq<unit16>

  // ---- UTF-8 to code points ----

  /** (b & 0xc0) == 0x80. */
  predicate Continues(b: byte) {
    0x80 <= b < 0xc0
  }

  datatype Step = Step(codepoint: nat, length: nat)

  /** asm2_utf8_codepoint on text that ends where the terminator is; the terminator is no continuation byte. */
  function Codepoint(s: Bytes): (r: Step)
    requires s != []
    ensures 1 <= r.length <= |s| && r.length <= 4 && r.codepoint < 0x20_0000
    ensures r.codepoint >= 0x1_0000 ==> r.length == 4
  {
    var b0 := s[0] as nat;
    if b0 < 0x80 then Step(b0, 1)
    else if 0xc0 <= b0 < 0xe0 && |s| > 1 && Continues(s[1]) then
      Step(64 * (b0 % 32) + s[1] as nat % 64, 2)
    else if 0xe0 <= b0 < 0xf0 && |s| > 2 && Continues(s[1]) && Continues(s[2]) then
      Step(4096 * (b0 % 16) + 64 * (s[1] as nat % 64) + s[2] as nat % 64, 3)
    else if 0xf0 <= b0 < 0xf8 && |s| > 3 && Continues(s[1]) && Continues(s[2]) && Continues(s[3]) then
      Step(262144 * (b0 % 8) + 4096 * (s[1] as nat % 64) + 64 * (s[2] as nat % 64) + s[3] as nat % 64, 4)
    else Step(0xfffd, 1)
  }

  /** One unit, or a surrogate pair. */
  function UnitsOf(codepoint: nat): (u: Units)
    requires codepoint < 0x20_0000
    ensures 1 <= |u| <= 2
  {
    if codepoint <= 0xffff then [codepoint as unit16]
    else
      var c := codepoint - 0x1_0000;
      [(0xd800 + c / 1024) as unit16, (0xdc00 + c % 1024) as unit16]
  }

  /** What asm2_fill_utf16 makes of a text. */
  function Decode(s: Bytes): Units {
    if s == [] then []
    else UnitsOf(Codepoint(s).codepoint) + Decode(s[Codepoint(s).length..])
  }

  // ---- UTF-16 to UTF-8 ----

  predicate High(u: unit16) {
    0xd800 <= u <= 0xdbff
  }

  predicate Low(u: unit16) {
    0xdc00 <= u <= 0xdfff
  }

  predicate Paired(u: Units) {
    |u| > 1 && High(u[0]) && Low(u[1])
  }

  function Pair(high: unit16, low: unit16): (c: nat)
    requires High(high) && Low(low)
    ensures 0x1_0000 <= c < 0x11_0000
  {
    0x1_0000 + (high as nat - 0xd800) * 1024 + (low as nat - 0xdc00)
  }

  function BytesOf(codepoint: nat): (b: Bytes)
    requires codepoint < 0x11_0000
    ensures 1 <= |b| <= 4
  {
    if codepoint < 0x80 then [codepoint as byte]
    else if codepoint < 0x800 then [(0xc0 + codepoint / 64) as byte, (0x80 + codepoint % 64) as byte]
    else if codepoint < 0x1_0000 then
      [(0xe0 + codepoint / 4096) as byte, (0x80 + codepoint / 64 % 64) as byte, (0x80 + codepoint % 64) as byte]
    else
      [(0xf0 + codepoint / 262144) as byte, (0x80 + codepoint / 4096 % 64) as byte,
       (0x80 + codepoint / 64 % 64) as byte, (0x80 + codepoint % 64) as byte]
  }

  /** The code point at the front of some units, and how many of them it takes. */
  function Front(u: Units): (r: Step)
    requires u != []
    ensures 1 <= r.length <= |u| && r.length <= 2 && r.codepoint < 0x11_0000
  {
    if Paired(u) then Step(Pair(u[0], u[1]), 2) else Step(u[0] as nat, 1)
  }

  /** What asm2_utf16_to_utf8 makes of some units. */
  function Encode(u: Units): Bytes {
    if u == [] then [] else BytesOf(Front(u).codepoint) + Encode(u[Front(u).length..])
  }

  // ---- Round trips ----

  lemma CodepointOfBytes(c: nat, x: Bytes)
    requires c < 0x11_0000
    ensures Codepoint(BytesOf(c) + x) == Step(c, |BytesOf(c)|)
  {
    if c < 0x80 {
    } else if c < 0x800 {
      OfTwoBytes(c, x);
    } else if c < 0x1_0000 {
      OfThreeBytes(c, x);
    } else {
      OfFourBytes(c, x);
    }
  }

  lemma OfTwoBytes(c: nat, x: Bytes)
    requires 0x80 <= c < 0x800
    ensures Codepoint(BytesOf(c) + x) == Step(c, |BytesOf(c)|)
  {
    TwoDigits(c);
    var s := BytesOf(c) + x;
    assert s[0] as nat == 0xc0 + c / 64 && s[1] as nat == 0x80 + c % 64;
  }

  lemma OfThreeBytes(c: nat, x: Bytes)
    requires 0x800 <= c < 0x1_0000
    ensures Codepoint(BytesOf(c) + x) == Step(c, |BytesOf(c)|)
  {
    ThreeDigits(c);
    var s := BytesOf(c) + x;
    assert s[0] as nat == 0xe0 + c / 4096;
    assert s[1] as nat == 0x80 + c / 64 % 64 && s[2] as nat == 0x80 + c % 64;
    LowPart(0xe0, c / 4096);
    LowSix(c / 64 % 64);
    LowSix(c % 64);
  }

  lemma OfFourBytes(c: nat, x: Bytes)
    requires 0x1_0000 <= c < 0x11_0000
    ensures Codepoint(BytesOf(c) + x) == Step(c, |BytesOf(c)|)
  {
    FourDigits(c);
    var s := BytesOf(c) + x;
    assert s[0] as nat == 0xf0 + c / 262144 && s[1] as nat == 0x80 + c / 4096 % 64;
    assert s[2] as nat == 0x80 + c / 64 % 64 && s[3] as nat == 0x80 + c % 64;
    LowSix(c / 4096 % 64);
    LowSix(c / 64 % 64);
    LowSix(c % 64);
  }

  lemma LowSix(d: nat)
    requires d < 64
    ensures (0x80 + d) % 64 == d
  {
  }

  lemma LowPart(mark: nat, d: nat)
    requires mark % 16 == 0 && d < 16
    ensures (mark + d) % 16 == d
  {
  }

  lemma TwoDigits(c: nat)
    requires c < 0x800
    ensures c == 64 * (c / 64) + c % 64 && c / 64 < 32
  {
  }

  lemma ThreeDigits(c: nat)
    requires c < 0x1_0000
    ensures c == 4096 * (c / 4096) + 64 * (c / 64 % 64) + c % 64 && c / 4096 < 16
  {
  }

  lemma FourDigits(c: nat)
    requires c < 0x11_0000
    ensures c == 262144 * (c / 262144) + 4096 * (c / 4096 % 64) + 64 * (c / 64 % 64) + c % 64
    ensures c / 262144 < 8
    ensures c < 0x1_0000 ==> c / 262144 == 0 && c / 4096 < 16 && c / 4096 % 64 == c / 4096
  {
    DigitsAbove(c);
    DigitsAbove(c / 64);
    DigitsAbove(c / 4096);
  }

  /** Dividing by 64 twice is dividing by 4096, and so on. */
  lemma DigitsAbove(c: nat)
    ensures c == 64 * (c / 64) + c % 64 && c / 64 / 64 == c / 4096 && c / 4096 / 64 == c / 262144
  {
    var q := c / 64;
    var r := q / 64;
    assert c == 4096 * r + (64 * (q % 64) + c % 64);
  }

  lemma UnitsOfFront(u: Units)
    requires u != []
    ensures UnitsOf(Front(u).codepoint) == u[..Front(u).length]
  {
  }

  /** Converting units to UTF-8 and back is the identity, unpaired surrogates included. */
  lemma {:induction false} DecodeEncode(u: Units)
    ensures Decode(Encode(u)) == u
  {
    hide BytesOf, Codepoint, UnitsOf, Front;
    if u != [] {
      var front := Front(u);
      var rest := u[front.length..];
      CodepointOfBytes(front.codepoint, Encode(rest));
      assert (BytesOf(front.codepoint) + Encode(rest))[|BytesOf(front.codepoint)|..] == Encode(rest);
      DecodeEncode(rest);
      UnitsOfFront(u);
      assert u == u[..front.length] + rest;
    }
  }

  /** What is left of some units once they are taken as a terminated string. */
  function UnitsUpToNul(u: Units): Units {
    if u == [] || u[0] == 0 then [] else [u[0]] + UnitsUpToNul(u[1..])
  }

  /** The converted string ends at the first zero unit, so NewString keeps exactly the units before it. */
  lemma {:induction false} StringRoundTrip(u: Units)
    ensures Decode(UpToNul(Encode(u))) == UnitsUpToNul(u)
  {
    hide Codepoint, UnitsOf, Front, BytesOf, UnitsUpToNul;
    if u == [] {
      UntilZero(u);
    } else if u[0] == 0 {
      UntilZero(u);
      StartsWithZero(u);
    } else {
      var front := Front(u);
      var rest := u[front.length..];
      var b := BytesOf(front.codepoint);
      FrontBeforeZero(u);
      StringRoundTrip(rest);
      NoNulInside(b, Encode(rest), front.codepoint);
      CodepointOfBytes(front.codepoint, UpToNul(Encode(rest)));
      assert (b + UpToNul(Encode(rest)))[|b|..] == UpToNul(Encode(rest));
      UnitsOfFront(u);
    }
  }

  lemma UntilZero(u: Units)
    requires u == [] || u[0] == 0
    ensures UnitsUpToNul(u) == []
  {
  }

  lemma StartsWithZero(u: Units)
    requires u != [] && u[0] == 0
    ensures UpToNul(Encode(u)) == []
  {
    assert BytesOf(Front(u).codepoint) == [0];
  }

  lemma FrontBeforeZero(u: Units)
    requires u != [] && u[0] != 0
    ensures Front(u).codepoint > 0
    ensures UnitsUpToNul(u) == u[..Front(u).length] + UnitsUpToNul(u[Front(u).length..])
  {
    if Paired(u) {
      assert u[1..][1..] == u[2..];
    }
  }

  lemma NoNulInside(b: Bytes, x: Bytes, c: nat)
    requires 0 < c < 0x11_0000 && b == BytesOf(c)
    ensures UpToNul(b + x) == b + UpToNul(x)
  {
    PrefixKept(b, x);
  }

  lemma {:induction false} PrefixKept(b: Bytes, x: Bytes)
    requires 0 !in b
    ensures UpToNul(b + x) == b + UpToNul(x)
  {
    if b == [] {
      assert b + x == x;
    } else {
      assert (b + x)[1..] == b[1..] + x;
      PrefixKept(b[1..], x);
    }
  }

  /** NewString gives back every unit if and only if none of them is zero. */
  lemma {:induction false} StringRoundTripExact(u: Units)
    ensures Decode(UpToNul(Encode(u))) == u <==> 0 !in u
  {
    StringRoundTrip(u);
    KeepsAll(u);
  }

  lemma {:induction false} KeepsAll(u: Units)
    ensures UnitsUpToNul(u) == u <==> 0 !in u
    ensures |UnitsUpToNul(u)| <= |u|
  {
    if u != [] {
      KeepsAll(u[1..]);
      assert u == [u[0]] + u[1..];
    }
  }

  // ---- Well-formed UTF-8, section 4 of RFC 3629 ----

  predicate In(b: byte, low: byte, high: byte) {
    low <= b <= high
  }

  /** The length of the well-formed sequence at the front, or zero. */
  function WellFormedLength(s: Bytes): (n: nat)
    ensures n <= |s|
  {
    if |s| >= 1 && s[0] <= 0x7f then 1
    else if |s| >= 2 && In(s[0], 0xc2, 0xdf) && Continues(s[1]) then 2
    else if |s| >= 3 && Continues(s[2])
      && ((s[0] == 0xe0 && In(s[1], 0xa0, 0xbf)) || (In(s[0], 0xe1, 0xec) && Continues(s[1]))
          || (s[0] == 0xed && In(s[1], 0x80, 0x9f)) || (In(s[0], 0xee, 0xef) && Continues(s[1]))) then 3
    else if |s| >= 4 && Continues(s[2]) && Continues(s[3])
      && ((s[0] == 0xf0 && In(s[1], 0x90, 0xbf)) || (In(s[0], 0xf1, 0xf3) && Continues(s[1]))
          || (s[0] == 0xf4 && In(s[1], 0x80, 0x8f))) then 4
    else 0
  }

  predicate WellFormed(s: Bytes) {
    s == [] || (WellFormedLength(s) > 0 && WellFormed(s[WellFormedLength(s)..]))
  }

  /** A well-formed sequence is read in one step, is the shortest form of its code point, and is no surrogate. */
  lemma WellFormedFront(s: Bytes)
    requires s != [] && WellFormedLength(s) > 0
    ensures var step := Codepoint(s);
            && step.length == WellFormedLength(s)
            && step.codepoint < 0x11_0000 && !(0xd800 <= step.codepoint <= 0xdfff)
            && BytesOf(step.codepoint) == s[..step.length]
  {
    var n := WellFormedLength(s);
    if n == 2 {
      WellFormedTwo(s);
    } else if n == 3 {
      WellFormedThree(s);
    } else if n == 4 {
      WellFormedFour(s);
    }
  }

  lemma WellFormedTwo(s: Bytes)
    requires WellFormedLength(s) == 2
    ensures Codepoint(s).length == 2 && 0x80 <= Codepoint(s).codepoint < 0x800
    ensures BytesOf(Codepoint(s).codepoint) == s[..2]
  {
    var d0, d1 := s[0] as nat - 0xc0, s[1] as nat - 0x80;
    LowSix(d1);
    Digits(0, 0, d0, d1);
    assert Codepoint(s).codepoint == 64 * d0 + d1;
  }

  lemma WellFormedThree(s: Bytes)
    requires WellFormedLength(s) == 3
    ensures Codepoint(s).length == 3
    ensures 0x800 <= Codepoint(s).codepoint < 0x1_0000 && !(0xd800 <= Codepoint(s).codepoint <= 0xdfff)
    ensures BytesOf(Codepoint(s).codepoint) == s[..3]
  {
    var d0, d1, d2 := s[0] as nat - 0xe0, s[1] as nat - 0x80, s[2] as nat - 0x80;
    LowPart(0xe0, d0);
    LowSix(d1);
    LowSix(d2);
    Digits(0, d0, d1, d2);
    assert Codepoint(s).codepoint == 4096 * d0 + 64 * d1 + d2;
  }

  lemma WellFormedFour(s: Bytes)
    requires WellFormedLength(s) == 4
    ensures Codepoint(s).length == 4 && 0x1_0000 <= Codepoint(s).codepoint < 0x11_0000
    ensures BytesOf(Codepoint(s).codepoint) == s[..4]
  {
    hide Codepoint;
    FourValue(s);
    Digits(s[0] as nat - 0xf0, s[1] as nat - 0x80, s[2] as nat - 0x80, s[3] as nat - 0x80);
  }

  lemma FourValue(s: Bytes)
    requires WellFormedLength(s) == 4
    ensures Codepoint(s).length == 4 && 0x1_0000 <= Codepoint(s).codepoint < 0x11_0000
    ensures s[0] >= 0xf0 && s[1] >= 0x80 && s[2] >= 0x80 && s[3] >= 0x80
    ensures Codepoint(s).codepoint
         == 262144 * (s[0] as nat - 0xf0) + 4096 * (s[1] as nat - 0x80) + 64 * (s[2] as nat - 0x80) + (s[3] as nat - 0x80)
  {
    LowSix(s[1] as nat - 0x80);
    LowSix(s[2] as nat - 0x80);
    LowSix(s[3] as nat - 0x80);
  }

  lemma Digits(a: nat, b: nat, c: nat, d: nat)
    requires b < 64 && c < 64 && d < 64
    ensures var n := 262144 * a + 4096 * b + 64 * c + d;
            n % 64 == d && n / 64 % 64 == c && n / 4096 % 64 == b && n / 262144 == a
            && n / 64 == 4096 * a + 64 * b + c && n / 4096 == 64 * a + b
  {
  }

  /** The units of a code point that is no surrogate are read back as that code point, whatever follows. */
  lemma FrontOfUnits(c: nat, x: Units)
    requires c < 0x11_0000 && !(0xd800 <= c <= 0xdfff)
    ensures Front(UnitsOf(c) + x) == Step(c, |UnitsOf(c)|)
  {
  }

  /** Converting well-formed UTF-8 to units and back is the identity. */
  lemma {:induction false} EncodeDecode(s: Bytes)
    requires WellFormed(s)
    ensures Encode(Decode(s)) == s
  {
    hide BytesOf, Codepoint, UnitsOf, Front, WellFormedLength;
    if s != [] {
      var step := Codepoint(s);
      WellFormedFront(s);
      var rest := s[step.length..];
      FrontOfUnits(step.codepoint, Decode(rest));
      var u := UnitsOf(step.codepoint);
      assert (u + Decode(rest))[|u|..] == Decode(rest);
      EncodeDecode(rest);
      assert s == s[..step.length] + rest;
    }
  }
}
