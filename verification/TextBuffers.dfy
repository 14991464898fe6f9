/** The converters of jni_bridge.c as they run: a moving cursor, and an output buffer of fixed size. */
module TextBuffers {
  import opened Wrappers
  import opened TextCodec

  /**
   The array of a C string ends at its first NUL, so an index that is inside the
   array is a read that does not pass the terminator.
   */
  ghost predicate Terminated(text: array<byte>)
    reads text
  {
    && text.Length > 0
    && text[text.Length - 1] == 0
    && forall i :: 0 <= i < text.Length - 1 ==> text[i] != 0
  }

  ghost function Content(text: array<byte>): Bytes
    requires text.Length > 0
    reads text
  {
    text[..text.Length - 1]
  }

  method StringLength(text: array<byte>) returns (n: nat)
    requires Terminated(text)
    ensures n == text.Length - 1
  {
    n := 0;
    while text[n] != 0
      invariant n < text.Length
      decreases text.Length - n
    {
      n := n + 1;
    }
  }

  method ReadCodepoint(text: array<byte>, cursor: nat) returns (codepoint: nat, next: nat)
    requires Terminated(text) && cursor < text.Length - 1
    ensures var step := Codepoint(Content(text)[cursor..]);
            codepoint == step.codepoint && next == cursor + step.length
    ensures cursor < next < text.Length && codepoint < 0x20_0000
    ensures codepoint > 0xffff ==> next >= cursor + 4
  {
    ghost var s := Content(text)[cursor..];
    var b0 := text[cursor] as nat;
    if b0 < 0x80 {
      codepoint, next := b0, cursor + 1;
    } else if 0xc0 <= b0 < 0xe0 && Continues(text[cursor + 1]) {
      codepoint, next := 64 * (b0 % 32) + text[cursor + 1] as nat % 64, cursor + 2;
    } else if 0xe0 <= b0 < 0xf0 && Continues(text[cursor + 1]) && Continues(text[cursor + 2]) {
      codepoint := 4096 * (b0 % 16) + 64 * (text[cursor + 1] as nat % 64) + text[cursor + 2] as nat % 64;
      next := cursor + 3;
    } else if 0xf0 <= b0 < 0xf8
           && Continues(text[cursor + 1]) && Continues(text[cursor + 2]) && Continues(text[cursor + 3]) {
      codepoint := 262144 * (b0 % 8) + 4096 * (text[cursor + 1] as nat % 64)
      + 64 * (text[cursor + 2] as nat % 64) + text[cursor + 3] as nat % 64;
      next := cursor + 4;
    } else {
      codepoint, next := 0xfffd, cursor + 1;
    }
  }

  lemma DecodeStep(s: Bytes, cursor: nat, done: Units)
    requires cursor < |s| && done + Decode(s[cursor..]) == Decode(s)
    ensures var step := Codepoint(s[cursor..]);
            done + UnitsOf(step.codepoint) + Decode(s[cursor + step.length..]) == Decode(s)
  {
    hide *;
    var step := Codepoint(s[cursor..]);
    assert s[cursor..][step.length..] == s[cursor + step.length..];
    DecodeUnfolds(s[cursor..]);
    Regroup(done, UnitsOf(step.codepoint), Decode(s[cursor + step.length..]));
  }

  lemma DecodeUnfolds(s: Bytes)
    requires s != []
    ensures Decode(s) == UnitsOf(Codepoint(s).codepoint) + Decode(s[Codepoint(s).length..])
  {
    hide UnitsOf, Codepoint;
  }

  lemma Regroup<T>(a: seq<T>, b: seq<T>, c: seq<T>)
    ensures a + (b + c) == a + b + c
  {
  }

  /** One unit or a surrogate pair; the rest of the zeroed buffer stays zero. */
  method PutUnits(output: array<unit16>, count: nat, codepoint: nat) returns (end: nat)
    requires codepoint < 0x20_0000 && count + |UnitsOf(codepoint)| <= output.Length
    requires forall i :: count <= i < output.Length ==> output[i] == 0
    modifies output
    ensures end == count + |UnitsOf(codepoint)|
    ensures output[..end] == old(output[..count]) + UnitsOf(codepoint)
    ensures forall i :: end <= i < output.Length ==> output[i] == 0
  {
    if codepoint <= 0xffff {
      output[count] := codepoint as unit16;
      end := count + 1;
    } else {
      var c := codepoint - 0x1_0000;
      output[count] := (0xd800 + c / 1024) as unit16;
      output[count + 1] := (0xdc00 + c % 1024) as unit16;
      end := count + 2;
    }
  }

  /** asm2_fill_utf16: the zeroed buffer has 2n + 1 units for a text of n bytes. */
  method FillUtf16(text: array<byte>) returns (output: array<unit16>, count: nat)
    requires Terminated(text)
    ensures fresh(output) && output.Length == 2 * (text.Length - 1) + 1
    ensures count < output.Length
    ensures output[..count] == Decode(Content(text))
    ensures forall i :: count <= i < output.Length ==> output[i] == 0
  {
    hide Decode, Codepoint, UnitsOf, Continues;
    var length := StringLength(text);
    output := new unit16[2 * length + 1](_ => 0);
    count := 0;
    var cursor := 0;
    ghost var s := Content(text);
    assert output[..0] + Decode(s[0..]) == Decode(s) by {
      assert s[0..] == s;
    }
    while text[cursor] != 0
      invariant cursor < text.Length && count <= 2 * cursor
      invariant fresh(output) && output.Length == 2 * (text.Length - 1) + 1
      invariant Terminated(text) && s == Content(text)
      invariant output[..count] + Decode(s[cursor..]) == Decode(s)
      invariant forall i :: count <= i < output.Length ==> output[i] == 0
      decreases text.Length - cursor
    {
      var codepoint, next := ReadCodepoint(text, cursor);
      DecodeStep(s, cursor, output[..count]);
      count := PutUnits(output, count, codepoint);
      cursor := next;
    }
    assert cursor == |s|;
    DecodeNothing(output[..count], s[cursor..]);
  }

  lemma DecodeNothing(done: Units, rest: Bytes)
    requires rest == []
    ensures done + Decode(rest) == done
  {
  }

  /** The loop of asm2_utf16_to_utf8; the buffer has 4n + 1 bytes for n units, and gets a terminator. */
  method Utf16ToUtf8(unicode: array<unit16>) returns (output: array<byte>)
    ensures fresh(output) && output.Length == 4 * unicode.Length + 1
    ensures |Encode(unicode[..])| < output.Length
    ensures output[..|Encode(unicode[..])|] == Encode(unicode[..])
    ensures output[|Encode(unicode[..])|] == 0
  {
    hide Encode, BytesOf, High, Low, Front;
    output := new byte[4 * unicode.Length + 1];
    var offset, index := 0, 0;
    ghost var u := unicode[..];
    assert output[..0] + Encode(u[0..]) == Encode(u) by {
      assert u[0..] == u;
    }
    while index < unicode.Length
      invariant index <= unicode.Length && offset <= 4 * index
      invariant fresh(output) && output.Length == 4 * unicode.Length + 1
      invariant u == unicode[..]
      invariant output[..offset] + Encode(u[index..]) == Encode(u)
    {
      EncodeStep(u, index, output[..offset]);
      var codepoint := unicode[index] as nat;
      if High(unicode[index]) && index + 1 < unicode.Length && Low(unicode[index + 1]) {
        codepoint := Combined(unicode[index], unicode[index + 1]);
        index := index + 1;
      }
      index := index + 1;
      offset := Append(output, offset, codepoint);
    }
    EncodeNothing(output[..offset], u[index..]);
    output[offset] := 0;
  }

  method Combined(high: unit16, low: unit16) returns (codepoint: nat)
    requires High(high) && Low(low)
    ensures codepoint == Pair(high, low)
  {
    codepoint := 0x1_0000 + (high as nat - 0xd800) * 1024 + (low as nat - 0xdc00);
  }

  ghost predicate PairAt(u: Units, index: nat)
    requires index < |u|
  {
    High(u[index]) && index + 1 < |u| && Low(u[index + 1])
  }

  lemma FrontAt(u: Units, index: nat)
    requires index < |u|
    ensures Front(u[index..])
         == if PairAt(u, index) then Step(Pair(u[index], u[index + 1]), 2) else Step(u[index] as nat, 1)
  {
    hide High, Low, Pair;
  }

  lemma EncodeStep(u: Units, index: nat, done: Bytes)
    requires index < |u| && done + Encode(u[index..]) == Encode(u)
    ensures var codepoint := if PairAt(u, index) then Pair(u[index], u[index + 1]) else u[index] as nat;
            done + BytesOf(codepoint) + Encode(u[if PairAt(u, index) then index + 2 else index + 1..]) == Encode(u)
  {
    hide *;
    FrontAt(u, index);
    var rest, front := u[index..], Front(u[index..]);
    assert rest[front.length..] == u[index + front.length..];
    EncodeUnfolds(rest);
    Regroup(done, BytesOf(front.codepoint), Encode(rest[front.length..]));
  }

  lemma EncodeUnfolds(u: Units)
    requires u != []
    ensures Encode(u) == BytesOf(Front(u).codepoint) + Encode(u[Front(u).length..])
  {
    hide BytesOf, Front;
  }

  lemma EncodeNothing(done: Bytes, rest: Units)
    requires rest == []
    ensures done + Encode(rest) == done
  {
  }

  /** The four branches that write one code point. */
  method Append(output: array<byte>, offset: nat, codepoint: nat) returns (end: nat)
    requires offset + 4 <= output.Length && codepoint < 0x11_0000
    modifies output
    ensures offset < end <= offset + 4
    ensures output[..end] == old(output[..offset]) + BytesOf(codepoint)
  {
    if codepoint < 0x80 {
      output[offset] := codepoint as byte;
      end := offset + 1;
    } else if codepoint < 0x800 {
      output[offset] := (0xc0 + codepoint / 64) as byte;
      output[offset + 1] := (0x80 + codepoint % 64) as byte;
      end := offset + 2;
    } else if codepoint < 0x1_0000 {
      output[offset] := (0xe0 + codepoint / 4096) as byte;
      output[offset + 1] := (0x80 + codepoint / 64 % 64) as byte;
      output[offset + 2] := (0x80 + codepoint % 64) as byte;
      end := offset + 3;
    } else {
      output[offset] := (0xf0 + codepoint / 262144) as byte;
      output[offset + 1] := (0x80 + codepoint / 4096 % 64) as byte;
      output[offset + 2] := (0x80 + codepoint / 64 % 64) as byte;
      output[offset + 3] := (0x80 + codepoint % 64) as byte;
      end := offset + 4;
    }
  }
}
