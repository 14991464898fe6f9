/** 32-bit numbers as four bytes, least significant first. */
module LittleEndian {
  import opened Wrappers

  function Low(n: nat): (b: byte)
    ensures b as nat == n % 256
  {
    (n % 256) as byte
  }

  /** Shifting right by eight. */
  function Rest(n: nat): nat {
    n / 256
  }

  function PutU32(n: nat): (b: Bytes)
    ensures |b| == 4
  {
    [Low(n), Low(Rest(n)), Low(Rest(Rest(n))), Low(Rest(Rest(Rest(n))))]
  }

  function GetU32(b: Bytes, at: nat): nat
    requires at + 4 <= |b|
  {
    Join(b[at], Join(b[at + 1], Join(b[at + 2], Join(b[at + 3], 0))))
  }

  function Join(low: byte, rest: nat): nat {
    low as nat + 256 * rest
  }

  lemma Split(n: nat)
    ensures n == Join(Low(n), Rest(n))
    ensures n < 0x1_0000_0000 ==> Rest(n) < 0x100_0000
    ensures n < 0x100_0000 ==> Rest(n) < 0x1_0000
    ensures n < 0x1_0000 ==> Rest(n) < 0x100
    ensures n < 0x100 ==> Rest(n) == 0
  {
  }

  lemma SplitJoin(low: byte, rest: nat)
    ensures Low(Join(low, rest)) == low && Rest(Join(low, rest)) == rest
  {
  }

  lemma GetPut(n: nat, b: Bytes, at: nat)
    requires n < 0x1_0000_0000
    requires at + 4 <= |b| && b[at..at + 4] == PutU32(n)
    ensures GetU32(b, at) == n
  {
    hide Low, Rest;
    var p := b[at..at + 4];
    assert p[0] == b[at] && p[1] == b[at + 1] && p[2] == b[at + 2] && p[3] == b[at + 3];
    Split(n);
    Split(Rest(n));
    Split(Rest(Rest(n)));
    Split(Rest(Rest(Rest(n))));
  }

  lemma PutGet(b: Bytes, at: nat)
    requires at + 4 <= |b|
    ensures PutU32(GetU32(b, at)) == b[at..at + 4]
    ensures GetU32(b, at) < 0x1_0000_0000
  {
    hide Low, Rest;
    var n3 := Join(b[at + 3], 0);
    var n2 := Join(b[at + 2], n3);
    var n1 := Join(b[at + 1], n2);
    SplitJoin(b[at + 3], 0);
    SplitJoin(b[at + 2], n3);
    SplitJoin(b[at + 1], n2);
    SplitJoin(b[at], n1);
  }
}
