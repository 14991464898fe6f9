/**
 The streaming context of capture_x86.c: a running hash value, a partly filled
 block and a bit counter, updated in place.  However a message is split into
 updates, the digest is the hash of the whole.
 */
module Sha256Stream {
  import opened Wrappers
  import opened Sha256

  function VarsOf(s: seq<Word>): Vars
    requires |s| == 8
  {
    Vars(s[0], s[1], s[2], s[3], s[4], s[5], s[6], s[7])
  }

  const COUNTER_LIMIT: nat := 0x1_0000_0000_0000_0000

  /** Copies data into a, as memcpy does. */
  method Copy(a: array<byte>, at: nat, data: Bytes)
    requires at + |data| <= a.Length
    modifies a
    ensures a[..] == old(a[..at]) + data + old(a[at + |data|..])
  {
    forall i | 0 <= i < |data| {
      a[at + i] := data[i];
    }
  }

  method InitialState() returns (s: array<Word>)
    ensures fresh(s) && s.Length == 8 && VarsOf(s[..]) == Initial()
  {
    hide H0;
    s := new Word[8];
    s[0], s[1], s[2], s[3] := H0(0), H0(1), H0(2), H0(3);
    s[4], s[5], s[6], s[7] := H0(4), H0(5), H0(6), H0(7);
  }

  /** The 64-bit bit counter after so many bytes. */
  function BitLength(n: nat): nat {
    8 * n % COUNTER_LIMIT
  }

  function CounterAfter(count: nat, size: nat): nat {
    (count + size * 8) % COUNTER_LIMIT
  }

  class Context {
    const state: array<Word>
    const block: array<byte>
    var blockSize: nat
    var bitCount: nat
    /** Everything absorbed so far. */
    ghost var message: Bytes

    ghost predicate Sizes() {
      state.Length == 8 && block.Length == 64
    }

    /** The hash value covers all full blocks, and the rest of the message waits in the block. */
    ghost predicate Buffered()
      reads `blockSize, `message, state, block
    {
      && Sizes() && blockSize < 64
      && blockSize <= |message| && (|message| - blockSize) % 64 == 0
      && VarsOf(state[..]) == HashBlocks(message[..|message| - blockSize])
      && block[..blockSize] == message[|message| - blockSize..]
    }

    /** The hash value covers these whole blocks. */
    ghost predicate Covers(m: Bytes)
      reads state
    {
      state.Length == 8 && |m| % 64 == 0 && VarsOf(state[..]) == HashBlocks(m)
    }

    ghost predicate Valid()
      reads this, state, block
    {
      Buffered() && bitCount == BitLength(|message|)
    }

    /** asm2_sha256_init. */
    constructor ()
      ensures Valid() && message == [] && fresh(state) && fresh(block)
    {
      hide Initial, HashBlocks, Compress, BitLength, VarsOf;
      var s := InitialState();
      state := s;
      block := new byte[64](_ => 0);
      blockSize, bitCount, message := 0, 0, [];
      HashNothing();
      NoBits();
    }

    /** The first half of asm2_sha256_transform: sixteen words from the block, the others from earlier words. */
    method Words() returns (words: array<Word>)
      requires Sizes()
      ensures fresh(words) && words.Length == 64
      ensures forall t :: 0 <= t < 64 ==> words[t] == Schedule(block[..], t)
    {
      hide Schedule, BigEndian, SmallSigma0, SmallSigma1, Plus;
      words := new Word[64];
      for index := 0 to 16
        invariant forall t :: 0 <= t < index ==> words[t] == Schedule(block[..], t)
      {
        var offset := index * 4;
        ScheduleFirst(block[..], index);
        words[index] := BigEndian(block[offset], block[offset + 1], block[offset + 2], block[offset + 3]);
      }
      for index := 16 to 64
        invariant forall t :: 0 <= t < index ==> words[t] == Schedule(block[..], t)
      {
        var sigma0, sigma1 := SmallSigma0(words[index - 15]), SmallSigma1(words[index - 2]);
        ScheduleNext(block[..], index);
        words[index] := Plus(Plus(Plus(words[index - 16], sigma0), words[index - 7]), sigma1);
      }
    }

    /** asm2_sha256_transform. */
    method Transform()
      requires Sizes()
      modifies state
      ensures VarsOf(state[..]) == Compress(old(VarsOf(state[..])), block[..])
    {
      hide Round, Schedule, K, Add;
      var words := Words();
      ghost var start, b := VarsOf(state[..]), block[..];
      var v := Vars(state[0], state[1], state[2], state[3], state[4], state[5], state[6], state[7]);
      assert v == start;
      for index := 0 to 64
        invariant v == Rounds(start, b, index)
        invariant forall t :: 0 <= t < 64 ==> words[t] == Schedule(b, t)
        invariant VarsOf(state[..]) == start
      {
        v := RoundStep(v, index, words[index]);
        assert Rounds(start, b, index + 1) == Round(Rounds(start, b, index), K(index), Schedule(b, index));
      }
      Accumulate(v);
    }

    /** One pass of the round loop, with the temporaries and the shuffle as the code has them. */
    static method RoundStep(v: Vars, index: nat, w: Word) returns (r: Vars)
      requires index < 64
      ensures r == Round(v, K(index), w)
    {
      hide BigSigma0, BigSigma1, Ch, Maj, K, Plus;
      var a, b, c, d, e, f, g, h := v.a, v.b, v.c, v.d, v.e, v.f, v.g, v.h;
      var sum1, choice := BigSigma1(e), Ch(e, f, g);
      var temporary1 := Plus(Plus(Plus(Plus(h, sum1), choice), K(index)), w);
      var sum0, majority := BigSigma0(a), Maj(a, b, c);
      var temporary2 := Plus(sum0, majority);
      h := g;
      g := f;
      f := e;
      e := Plus(d, temporary1);
      d := c;
      c := b;
      b := a;
      a := Plus(temporary1, temporary2);
      r := Vars(a, b, c, d, e, f, g, h);
    }

    /** asm2_sha256_update: memcpy into the block, and a transform whenever it is full. */
    method Update(data: Bytes)
      requires Valid()
      modifies this, state, block
      ensures Valid() && message == old(message) + data
    {
      hide Context.Buffered, BitLength, CounterAfter;
      bitCount := CounterAfter(bitCount, |data|);
      CounterStep(|message|, |data|);
      ghost var before, total := message, bitCount;
      var input := 0;
      while input < |data|
        invariant 0 <= input <= |data| && bitCount == total
        invariant Buffered() && message == before + data[..input]
      {
        HasRoom();
        var size := |data| - input;
        var available := 64 - blockSize;
        var amount := if size < available then size else available;
        var piece := data[input..input + amount];
        Absorb(piece);
        input := input + amount;
        assert data[..input] == data[..input - amount] + piece;
      }
      assert data[..input] == data;
    }

    lemma HasRoom()
      requires Buffered()
      ensures blockSize < 64
    {
    }

    /** One pass of the update loop. */
    method Absorb(piece: Bytes)
      requires Buffered() && blockSize + |piece| <= 64
      modifies this`blockSize, this`message, state, block
      ensures Buffered() && message == old(message) + piece
    {
      hide HashBlocks, Compress;
      ghost var full := |message| - blockSize;
      ghost var m := message;
      Copy(block, blockSize, piece);
      blockSize := blockSize + |piece|;
      message := message + piece;
      assert block[..blockSize] == m[full..] + piece == message[full..];
      assert message[..full] == m[..full];
      if blockSize == 64 {
        HashOneMoreBlock(message[..full], block[..]);
        assert message[..full] + block[..] == message == message[..|message|];
        Transform();
        blockSize := 0;
      }
    }

    /** asm2_sha256_final: padding, the length field, and the digest bytes. */
    method Final() returns (digest: Bytes)
      requires Valid()
      modifies state, block
      ensures digest == Hash(old(message))
    {
      hide HashBlocks, Compress, LengthField, DigestBytes, BitLength;
      ghost var m, full, rest := message, |message| - blockSize, message[|message| - blockSize..];
      var position := blockSize;
      block[position] := 0x80;
      position := position + 1;
      ghost var done, start := m[..full], rest + [0x80];
      assert block[..position] == start;
      hide Pad, VarsOf;
      LengthModulo(m);
      PaddedBlocks(m, full, rest);
      if position > 56 {
        Spill(position, done, start);
        done := done + (start + Zeros(64 - position));
        position, start := 0, [];
        assert [] + Zeros(56) == Zeros(56);
      }
      Seal(position, done, start);
      digest := DigestBytes(VarsOf(state[..]));
    }

    /** The rest of the block is cleared, and the block hashed. */
    method Spill(position: nat, ghost done: Bytes, ghost start: Bytes)
      requires Sizes() && Covers(done) && |start| == position <= 64 && block[..position] == start
      modifies state, block
      ensures Covers(done + (start + Zeros(64 - position)))
    {
      hide HashBlocks, Compress, VarsOf;
      Clear(block, position, 64);
      assert block[..] == start + Zeros(64 - position);
      HashOneMoreBlock(done, block[..]);
      Transform();
    }

    /** The block is cleared up to the length field, which is written, and the block hashed. */
    method Seal(position: nat, ghost done: Bytes, ghost start: Bytes)
      requires Sizes() && Covers(done) && |start| == position <= 56 && block[..position] == start
      modifies state, block
      ensures Covers(done + (start + Zeros(56 - position) + LengthField(bitCount)))
    {
      hide HashBlocks, Compress, VarsOf, LengthField;
      Clear(block, position, 56);
      assert block[..56] == start + Zeros(56 - position);
      PutLength(block, bitCount);
      HashOneMoreBlock(done, block[..]);
      Transform();
    }

    method Accumulate(v: Vars)
      requires state.Length == 8
      modifies state
      ensures VarsOf(state[..]) == Add(old(VarsOf(state[..])), v)
    {
      hide Plus;
      state[0] := Plus(state[0], v.a);
      state[1] := Plus(state[1], v.b);
      state[2] := Plus(state[2], v.c);
      state[3] := Plus(state[3], v.d);
      state[4] := Plus(state[4], v.e);
      state[5] := Plus(state[5], v.f);
      state[6] := Plus(state[6], v.g);
      state[7] := Plus(state[7], v.h);
    }
  }

  /** memset to zero from one position up to another. */
  method Clear(a: array<byte>, from: nat, to: nat)
    requires from <= to <= a.Length
    modifies a
    ensures a[..] == old(a[..from]) + Zeros(to - from) + old(a[to..])
  {
    forall i | from <= i < to {
      a[i] := 0;
    }
  }

  method PutLength(a: array<byte>, bits: nat)
    requires a.Length == 64
    modifies a
    ensures a[..] == old(a[..56]) + LengthField(bits)
  {
    hide LengthByte;
    for index := 0 to 8
      invariant a[..56] == old(a[..56])
      invariant forall i :: 0 <= i < index ==> a[56 + i] == LengthByte(bits, i)
    {
      a[56 + index] := LengthByte(bits, index);
    }
  }

  lemma ScheduleFirst(b: Bytes, t: nat)
    requires |b| == 64 && t < 16
    ensures Schedule(b, t) == BigEndian(b[4 * t], b[4 * t + 1], b[4 * t + 2], b[4 * t + 3])
  {
    hide BigEndian;
  }

  lemma ScheduleNext(b: Bytes, t: nat)
    requires |b| == 64 && 16 <= t < 64
    ensures Schedule(b, t) == Plus(Plus(Plus(Schedule(b, t - 16), SmallSigma0(Schedule(b, t - 15))),
                                        Schedule(b, t - 7)), SmallSigma1(Schedule(b, t - 2)))
  {
    hide BigEndian, Plus, SmallSigma0, SmallSigma1;
  }

  lemma NoBits()
    ensures BitLength(0) == 0
  {
  }

  lemma CounterStep(before: nat, more: nat)
    ensures CounterAfter(BitLength(before), more) == BitLength(before + more)
  {
  }

  /** The counter wraps at 2^64, and so does the length field. */
  lemma LengthModulo(m: Bytes)
    ensures LengthField(BitLength(|m|)) == LengthField(8 * |m|)
  {
    hide ShiftBytes;
    var q, r := 8 * |m| / COUNTER_LIMIT, 8 * |m| % COUNTER_LIMIT;
    forall i | 0 <= i < 8
      ensures LengthByte(r, i) == LengthByte(8 * |m|, i)
    {
      ShiftedLow(q, r, 7 - i);
    }
  }

  function Scaled(q: nat, j: nat): nat {
    if j == 0 then q else 256 * Scaled(q, j - 1)
  }

  lemma {:induction false} ShiftSplit(q: nat, r: nat, k: nat)
    requires k <= 8
    ensures ShiftBytes(Scaled(q, 8) + r, k) == Scaled(q, 8 - k) + ShiftBytes(r, k)
  {
    if k > 0 {
      ShiftSplit(q, r, k - 1);
      assert Scaled(q, 9 - k) == 256 * Scaled(q, 8 - k);
    }
  }

  lemma ScaledEight(q: nat)
    ensures Scaled(q, 8) == COUNTER_LIMIT * q
  {
    assert Scaled(q, 1) == 256 * q;
    assert Scaled(q, 2) == 0x1_0000 * q;
    assert Scaled(q, 4) == 0x1_0000 * Scaled(q, 2);
    assert Scaled(q, 6) == 0x1_0000 * Scaled(q, 4);
  }

  lemma ShiftedLow(q: nat, r: nat, k: nat)
    requires k <= 7
    ensures ShiftBytes(COUNTER_LIMIT * q + r, k) % 256 == ShiftBytes(r, k) % 256
  {
    hide ShiftBytes;
    ScaledEight(q);
    ShiftSplit(q, r, k);
    assert Scaled(q, 8 - k) == 256 * Scaled(q, 7 - k);
  }

  /** The padded message is the full blocks followed by one or two blocks made from the rest. */
  lemma PaddedBlocks(m: Bytes, full: nat, rest: Bytes)
    requires full % 64 == 0 && |rest| < 64 && full + |rest| == |m| && rest == m[full..]
    ensures |rest| <= 55 ==>
              Pad(m) == m[..full] + (rest + [0x80] + Zeros(55 - |rest|) + LengthField(8 * |m|))
    ensures |rest| > 55 ==>
              Pad(m) == m[..full] + (rest + [0x80] + Zeros(63 - |rest|)) + (Zeros(56) + LengthField(8 * |m|))
  {
    hide LengthField;
  }

  function Flatten(parts: seq<Bytes>): Bytes {
    if parts == [] then [] else Flatten(parts[..|parts| - 1]) + parts[|parts| - 1]
  }

  /** Any split of a message into updates gives the one-shot hash of the whole message. */
  method DigestOfParts(parts: seq<Bytes>) returns (digest: Bytes)
    ensures digest == Hash(Flatten(parts))
  {
    hide Hash;
    var sha := new Context();
    for i := 0 to |parts|
      invariant sha.Valid() && fresh(sha) && fresh(sha.state) && fresh(sha.block)
      invariant sha.message == Flatten(parts[..i])
    {
      sha.Update(parts[i]);
      assert parts[..i + 1][..i] == parts[..i];
    }
    assert parts[..|parts|] == parts;
    digest := sha.Final();
  }
}
