/**
 The file format of the shared-value store: a 24-byte header (magic, version,
 entry count, payload size, CRC-32) followed by length-prefixed records.
 */
module StoreCodec {
  import opened Wrappers
  import opened LittleEndian
  import opened StoreCrc

  datatype Entry = Entry(key: Bytes, value: Bytes)

  const MAX_ENTRIES := 128
  const MAX_KEY_SIZE := 1024
  const MAX_VALUE_SIZE := 256 * 1024
  const HEADER_SIZE := 24
  const MAX_PAYLOAD_SIZE := MAX_ENTRIES * (8 + MAX_KEY_SIZE + MAX_VALUE_SIZE)
  /** The characters ASM2DS01. */
  const MAGIC: Bytes := [0x41, 0x53, 0x4d, 0x32, 0x44, 0x53, 0x30, 0x31]

  predicate ValidKey(key: Bytes) {
    0 < |key| <= MAX_KEY_SIZE && 0 !in key
  }

  predicate ValidValue(value: Bytes) {
    |value| <= MAX_VALUE_SIZE && 0 !in value
  }

  ghost predicate DistinctKeys(s: seq<Entry>) {
    forall i, j :: 0 <= i < j < |s| ==> s[i].key != s[j].key
  }

  /** What the store may hold: at most 128 entries under distinct keys, all sizes in bounds. */
  ghost predicate ValidStore(s: seq<Entry>) {
    && |s| <= MAX_ENTRIES
    && (forall i :: 0 <= i < |s| ==> ValidKey(s[i].key) && ValidValue(s[i].value))
    && DistinctKeys(s)
  }

  // ---- The checksum field ----

  /** The checksum field, least significant byte first. */
  function PutCrc(crc: bv32): (b: Bytes)
    ensures |b| == 4
  {
    [Octet(crc, 0), Octet(crc, 8), Octet(crc, 16), Octet(crc, 24)]
  }

  function Octet(crc: bv32, shift: bv6): byte
    requires shift <= 24
  {
    ByteOf(((crc >> shift) & 0xff) as bv8)
  }

  function JoinBits(a: bv8, b: bv8, c: bv8, d: bv8): bv32 {
    (a as bv32) | ((b as bv32) << 8) | ((c as bv32) << 16) | ((d as bv32) << 24)
  }

  function GetCrc(b: Bytes, at: nat): bv32
    requires at + 4 <= |b|
  {
    JoinBits(BitsOf(b[at]), BitsOf(b[at + 1]), BitsOf(b[at + 2]), BitsOf(b[at + 3]))
  }

  lemma BitsJoin(crc: bv32)
    ensures JoinBits(((crc >> 0) & 0xff) as bv8, ((crc >> 8) & 0xff) as bv8, ((crc >> 16) & 0xff) as bv8, ((crc >> 24) & 0xff) as bv8) == crc
  {
  }

  lemma BitsSplit(a: bv8, b: bv8, c: bv8, d: bv8)
    ensures var n := JoinBits(a, b, c, d);
            ((n >> 0) & 0xff) as bv8 == a && ((n >> 8) & 0xff) as bv8 == b
            && ((n >> 16) & 0xff) as bv8 == c && ((n >> 24) & 0xff) as bv8 == d
  {
  }

  lemma OctetBits(crc: bv32, shift: bv6)
    requires shift <= 24
    ensures BitsOf(Octet(crc, shift)) == ((crc >> shift) & 0xff) as bv8
  {
    hide BitsOf, ByteOf;
    BitsOfByteOf(((crc >> shift) & 0xff) as bv8);
  }

  lemma JoinPutCrc(crc: bv32)
    ensures JoinBits(BitsOf(Octet(crc, 0)), BitsOf(Octet(crc, 8)), BitsOf(Octet(crc, 16)), BitsOf(Octet(crc, 24))) == crc
  {
    hide Octet, JoinBits, BitsOf;
    OctetBits(crc, 0);
    OctetBits(crc, 8);
    OctetBits(crc, 16);
    OctetBits(crc, 24);
    BitsJoin(crc);
  }

  lemma PutJoinCrc(a: byte, b: byte, c: byte, d: byte)
    ensures PutCrc(JoinBits(BitsOf(a), BitsOf(b), BitsOf(c), BitsOf(d))) == [a, b, c, d]
  {
    hide JoinBits, BitsOf, ByteOf;
    BitsSplit(BitsOf(a), BitsOf(b), BitsOf(c), BitsOf(d));
    ByteOfBitsOf(a);
    ByteOfBitsOf(b);
    ByteOfBitsOf(c);
    ByteOfBitsOf(d);
  }

  lemma GetPutCrc(crc: bv32, b: Bytes, at: nat)
    requires at + 4 <= |b| && b[at..at + 4] == PutCrc(crc)
    ensures GetCrc(b, at) == crc
  {
    hide JoinBits, Octet, BitsOf;
    var p := b[at..at + 4];
    assert p[0] == b[at] && p[1] == b[at + 1] && p[2] == b[at + 2] && p[3] == b[at + 3];
    JoinPutCrc(crc);
  }

  lemma PutGetCrc(b: Bytes, at: nat)
    requires at + 4 <= |b|
    ensures PutCrc(GetCrc(b, at)) == b[at..at + 4]
  {
    hide JoinBits, PutCrc, BitsOf;
    PutJoinCrc(b[at], b[at + 1], b[at + 2], b[at + 3]);
  }

  // ---- Encoding ----

  function Record(e: Entry): (b: Bytes)
    ensures |b| == 8 + |e.key| + |e.value|
  {
    PutU32(|e.key|) + PutU32(|e.value|) + e.key + e.value
  }

  function Records(s: seq<Entry>): Bytes {
    if s == [] then [] else Records(s[..|s| - 1]) + Record(s[|s| - 1])
  }

  function Header(count: nat, payload: Bytes): (b: Bytes)
    ensures |b| == HEADER_SIZE
  {
    MAGIC + PutU32(1) + PutU32(count) + PutU32(|payload|) + PutCrc(Crc(payload))
  }

  function Encode(s: seq<Entry>): (b: Bytes)
    ensures |b| >= HEADER_SIZE
  {
    Header(|s|, Records(s)) + Records(s)
  }

  lemma RecordsNext(s: seq<Entry>, e: Entry)
    ensures Records(s + [e]) == Records(s) + Record(e)
  {
    hide Record;
    assert (s + [e])[..|s|] == s;
  }

  lemma {:induction false} RecordsConcat(s: seq<Entry>, t: seq<Entry>)
    ensures Records(s + t) == Records(s) + Records(t)
  {
    hide Record;
    if t == [] {
      assert s + t == s;
    } else {
      var rest, last := t[..|t| - 1], t[|t| - 1];
      assert s + t == (s + rest) + [last];
      RecordsNext(s + rest, last);
      RecordsConcat(s, rest);
    }
  }

  /** A valid store never outgrows the payload limit, and every entry costs at least nine bytes. */
  lemma {:induction false} RecordsSize(s: seq<Entry>)
    requires forall i :: 0 <= i < |s| ==> ValidKey(s[i].key) && ValidValue(s[i].value)
    ensures 9 * |s| <= |Records(s)| <= |s| * 263176
    ensures |s| <= MAX_ENTRIES ==> |Records(s)| <= MAX_PAYLOAD_SIZE
  {
    if s == [] {
    } else {
      RecordsSize(s[..|s| - 1]);
      assert ValidKey(s[|s| - 1].key) && ValidValue(s[|s| - 1].value);
    }
  }

  // ---- Unique decoding ----

  /** Records form a prefix code: the first record of a byte string is determined by it. */
  lemma RecordPrefix(e: Entry, x: Bytes, f: Entry, y: Bytes)
    requires ValidKey(e.key) && ValidValue(e.value) && ValidKey(f.key) && ValidValue(f.value)
    requires Record(e) + x == Record(f) + y
    ensures e == f && x == y
  {
    hide PutU32, GetU32, ValidKey, ValidValue;
    SizesBounded(e);
    SizesBounded(f);
    FieldsAt(Record(e) + x, 0, e, x);
    FieldsAt(Record(e) + x, 0, f, y);
  }

  lemma SizesBounded(e: Entry)
    requires ValidKey(e.key) && ValidValue(e.value)
    ensures 0 < |e.key| <= MAX_KEY_SIZE && |e.value| <= MAX_VALUE_SIZE
  {
  }

  /** What the loader reads where a record starts. */
  lemma FieldsAt(b: Bytes, at: nat, e: Entry, more: Bytes)
    requires at <= |b| && b[at..] == Record(e) + more
    requires |e.key| <= MAX_KEY_SIZE && |e.value| <= MAX_VALUE_SIZE
    ensures at + 8 + |e.key| + |e.value| <= |b|
    ensures GetU32(b, at) == |e.key| && GetU32(b, at + 4) == |e.value|
    ensures b[at + 8..at + 8 + |e.key|] == e.key
    ensures b[at + 8 + |e.key|..at + 8 + |e.key| + |e.value|] == e.value
    ensures b[at + 8 + |e.key| + |e.value|..] == more
  {
    hide PutU32, GetU32;
    var r := Record(e);
    assert |b| == at + |r| + |more|;
    assert forall i :: 0 <= i < |r| ==> b[at + i] == b[at..][i] == r[i];
    assert b[at..at + 4] == PutU32(|e.key|);
    GetPut(|e.key|, b, at);
    assert b[at + 4..at + 8] == PutU32(|e.value|);
    GetPut(|e.value|, b, at + 4);
    var k := at + 8 + |e.key|;
    assert b[at + 8..k] == r[8..8 + |e.key|] == e.key;
    assert b[k..k + |e.value|] == r[8 + |e.key|..] == e.value;
    assert b[k + |e.value|..] == b[at..][|r|..] == more;
  }

  /** Entries already read are the first entries of whatever the bytes encode. */
  lemma {:induction false} PrefixEntries(s: seq<Entry>, rest: Bytes, t: seq<Entry>)
    requires forall i :: 0 <= i < |s| ==> ValidKey(s[i].key) && ValidValue(s[i].value)
    requires forall i :: 0 <= i < |t| ==> ValidKey(t[i].key) && ValidValue(t[i].value)
    requires |s| <= |t| && Records(s) + rest == Records(t)
    ensures s == t[..|s|] && rest == Records(t[|s|..])
  {
    hide Record, Records, ValidKey, ValidValue;
    if s == [] {
      NoRecords(s);
      assert Records(s) + rest == rest && t[0..] == t;
    } else {
      var s1, t1 := s[1..], t[1..];
      FirstRecord(s);
      FirstRecord(t);
      assert Record(s[0]) + (Records(s1) + rest) == Records(s) + rest;
      RecordPrefix(s[0], Records(s1) + rest, t[0], Records(t1));
      PrefixEntries(s1, rest, t1);
      Reassemble(s, t);
    }
  }

  lemma NoRecords(s: seq<Entry>)
    requires s == []
    ensures Records(s) == []
  {
  }

  lemma Reassemble(s: seq<Entry>, t: seq<Entry>)
    requires 0 < |s| <= |t| && s[0] == t[0] && s[1..] == t[1..][..|s| - 1]
    ensures s == t[..|s|] && t[|s|..] == t[1..][|s| - 1..]
  {
    assert s == [s[0]] + s[1..];
  }

  lemma FirstRecord(s: seq<Entry>)
    requires s != []
    ensures Records(s) == Record(s[0]) + Records(s[1..])
  {
    hide Record;
    assert s == [s[0]] + s[1..];
    RecordsConcat([s[0]], s[1..]);
    RecordsNext([], s[0]);
    assert Records([]) + Record(s[0]) == Record(s[0]);
    assert [] + [s[0]] == [s[0]];
  }

  lemma RecordsInjective(s: seq<Entry>, t: seq<Entry>)
    requires forall i :: 0 <= i < |s| ==> ValidKey(s[i].key) && ValidValue(s[i].value)
    requires forall i :: 0 <= i < |t| ==> ValidKey(t[i].key) && ValidValue(t[i].value)
    requires Records(s) == Records(t)
    ensures s == t
  {
    hide ValidKey, ValidValue;
    assert Records(s) + [] == Records(t) && Records(t) + [] == Records(s);
    if |s| <= |t| {
      RecordsSize(t[|s|..]);
      PrefixEntries(s, [], t);
    } else {
      RecordsSize(s[|t|..]);
      PrefixEntries(t, [], s);
    }
  }

  // ---- The header ----

  lemma HeaderSlices(b: Bytes, count: nat, payload: Bytes)
    requires b == Header(count, payload) + payload
    ensures b[..8] == MAGIC && b[8..12] == PutU32(1) && b[12..16] == PutU32(count)
    ensures b[16..20] == PutU32(|payload|) && b[20..24] == PutCrc(Crc(payload))
    ensures b[HEADER_SIZE..] == payload
  {
    hide PutU32, PutCrc, Crc;
  }

  /** Everything the loader checks in the header holds of an encoded store, and says where the payload is. */
  lemma HeaderFields(b: Bytes, s: seq<Entry>)
    requires ValidStore(s) && b == Encode(s)
    ensures HEADER_SIZE <= |b| <= HEADER_SIZE + MAX_PAYLOAD_SIZE
    ensures b[..8] == MAGIC && GetU32(b, 8) == 1 && GetU32(b, 12) == |s|
    ensures GetU32(b, 16) == |b| - HEADER_SIZE && b[HEADER_SIZE..] == Records(s)
    ensures GetCrc(b, 20) == Crc(b[HEADER_SIZE..])
  {
    hide PutU32, GetU32, PutCrc, GetCrc, Crc, Records, Header;
    var payload := Records(s);
    RecordsSize(s);
    HeaderSlices(b, |s|, payload);
    GetPut(1, b, 8);
    GetPut(|s|, b, 12);
    GetPut(|payload|, b, 16);
    GetPutCrc(Crc(payload), b, 20);
  }

  lemma PayloadOf(b: Bytes, s: seq<Entry>)
    requires b == Encode(s)
    ensures HEADER_SIZE <= |b| && b[HEADER_SIZE..] == Records(s)
  {
    hide Records, Header;
  }

  /** Conversely, bytes that pass those checks and hold the records of s are the encoding of s. */
  lemma HeaderComplete(b: Bytes, s: seq<Entry>)
    requires HEADER_SIZE <= |b|
    requires b[..8] == MAGIC && GetU32(b, 8) == 1 && GetU32(b, 12) == |s|
    requires GetU32(b, 16) == |b| - HEADER_SIZE && b[HEADER_SIZE..] == Records(s)
    requires GetCrc(b, 20) == Crc(b[HEADER_SIZE..])
    ensures b == Encode(s)
  {
    hide PutU32, GetU32, PutCrc, GetCrc, Crc, Records;
    PutGet(b, 8);
    PutGet(b, 12);
    PutGet(b, 16);
    PutGetCrc(b, 20);
    assert b == b[..8] + b[8..12] + b[12..16] + b[16..20] + b[20..24] + b[24..];
  }

  lemma EncodeInjective(s: seq<Entry>, t: seq<Entry>)
    requires ValidStore(s) && ValidStore(t) && Encode(s) == Encode(t)
    ensures s == t
  {
    hide PutU32, GetU32, PutCrc, GetCrc, Crc, Records, Encode;
    HeaderFields(Encode(s), s);
    HeaderFields(Encode(s), t);
    RecordsInjective(s, t);
  }

  /** The bytes encode some valid store. */
  ghost predicate Encodes(b: Bytes) {
    exists s :: ValidStore(s) && Encode(s) == b
  }

  // ---- Corruption ----

  /**
   Changing any one byte of a validly encoded file leaves bytes that encode no
   store at all: payload bytes through the checksum, header bytes through the
   field they belong to, and the count because every record has at least nine bytes.
   */
  lemma SingleByteCorruption(s: seq<Entry>, i: nat, v: byte)
    requires ValidStore(s) && i < |Encode(s)| && v != Encode(s)[i]
    ensures !Encodes(Encode(s)[i := v])
  {
    hide Encode, ValidStore;
    if Encodes(Encode(s)[i := v]) {
      var t :| ValidStore(t) && Encode(t) == Encode(s)[i := v];
      if i < HEADER_SIZE {
        assert Encode(t)[HEADER_SIZE..] == Encode(s)[HEADER_SIZE..];
        HeaderByteFixed(s, t, i);
      } else {
        PayloadByteSeen(s, t, i, v);
      }
    }
  }

  lemma HeaderByteFixed(s: seq<Entry>, t: seq<Entry>, i: nat)
    requires ValidStore(s) && ValidStore(t)
    requires i < HEADER_SIZE && |Encode(s)| == |Encode(t)| && Encode(s)[HEADER_SIZE..] == Encode(t)[HEADER_SIZE..]
    ensures Encode(s) == Encode(t)
  {
    hide Encode, GetU32, GetCrc, Crc, Records;
    HeaderFields(Encode(s), s);
    HeaderFields(Encode(t), t);
    RecordsInjective(s, t);
  }

  lemma PayloadByteSeen(s: seq<Entry>, t: seq<Entry>, i: nat, v: byte)
    requires ValidStore(s) && ValidStore(t)
    requires HEADER_SIZE <= i < |Encode(s)| && v != Encode(s)[i]
    ensures Encode(t) != Encode(s)[i := v]
  {
    hide Encode, GetU32, GetCrc, Crc, Records, ValidStore;
    var b, c := Encode(s), Encode(t);
    if c == b[i := v] {
      HeaderFields(b, s);
      HeaderFields(c, t);
      assert b[20..24] == c[20..24];
      SameCrcField(b, c, 20);
      assert c[HEADER_SIZE..] == b[HEADER_SIZE..][i - HEADER_SIZE := v];
      SingleByteChange(b[HEADER_SIZE..], i - HEADER_SIZE, v);
    }
  }

  lemma SameCrcField(b: Bytes, c: Bytes, at: nat)
    requires at + 4 <= |b| && at + 4 <= |c| && b[at..at + 4] == c[at..at + 4]
    ensures GetCrc(b, at) == GetCrc(c, at)
  {
    hide JoinBits, BitsOf;
    var p, q := b[at..at + 4], c[at..at + 4];
    assert p[0] == b[at] && p[1] == b[at + 1] && p[2] == b[at + 2] && p[3] == b[at + 3];
    assert q[0] == c[at] && q[1] == c[at + 1] && q[2] == c[at + 2] && q[3] == c[at + 3];
  }

  // ---- The loader ----

  /** What opening, examining and reading the store file can show. */
  datatype FileView =
    | NoFile
    | OpenFails
    | NotRegular
    | ReadFails
    | Contents(bytes: Bytes)

  datatype LoadStatus =
    | Loaded(entries: seq<Entry>)
    | Missing
    | Corrupt
    | IoError

  /** The entry the loader must find next, whatever valid store the bytes encode. */
  lemma NextEntry(b: Bytes, loaded: seq<Entry>, offset: nat, t: seq<Entry>)
    requires ValidStore(t) && Encode(t) == b
    requires forall i :: 0 <= i < |loaded| ==> ValidKey(loaded[i].key) && ValidValue(loaded[i].value)
    requires |loaded| <= |t| && HEADER_SIZE + offset <= |b| && b[HEADER_SIZE..HEADER_SIZE + offset] == Records(loaded)
    ensures loaded == t[..|loaded|] && b[HEADER_SIZE + offset..] == Records(t[|loaded|..])
    ensures |loaded| < |t| ==> b[HEADER_SIZE + offset..] == Record(t[|loaded|]) + Records(t[|loaded| + 1..])
  {
    hide Encode, Records, Record, ValidKey, ValidValue, Header, DistinctKeys;
    PayloadOf(b, t);
    var rest := b[HEADER_SIZE + offset..];
    assert Records(loaded) + rest == b[HEADER_SIZE..];
    PrefixEntries(loaded, rest, t);
    if |loaded| < |t| {
      FirstRecord(t[|loaded|..]);
    }
  }

  /** The loader stops at an entry that cannot be the next one of any valid store. */
  ghost predicate EntryFits(b: Bytes, at: nat, loaded: seq<Entry>)
    requires at <= |b|
  {
    && at + 8 <= |b|
    && var k, v := GetU32(b, at), GetU32(b, at + 4);
    && 0 < k <= MAX_KEY_SIZE && v <= MAX_VALUE_SIZE
    && at + 8 + k + v <= |b|
    && 0 !in b[at + 8..at + 8 + k] && 0 !in b[at + 8 + k..at + 8 + k + v]
    && forall i :: 0 <= i < |loaded| ==> loaded[i].key != b[at + 8..at + 8 + k]
  }

  lemma FieldsFit(b: Bytes, at: nat, loaded: seq<Entry>, e: Entry, more: Bytes)
    requires at <= |b| && b[at..] == Record(e) + more
    requires ValidKey(e.key) && ValidValue(e.value)
    requires forall i :: 0 <= i < |loaded| ==> loaded[i].key != e.key
    ensures EntryFits(b, at, loaded)
  {
    hide Record, GetU32;
    FieldsAt(b, at, e, more);
  }

  lemma MisfitIsCorrupt(b: Bytes, loaded: seq<Entry>, offset: nat, t: seq<Entry>)
    requires ValidStore(t) && Encode(t) == b
    requires forall i :: 0 <= i < |loaded| ==> ValidKey(loaded[i].key) && ValidValue(loaded[i].value)
    requires |loaded| < |t| && HEADER_SIZE + offset <= |b| && b[HEADER_SIZE..HEADER_SIZE + offset] == Records(loaded)
    ensures EntryFits(b, HEADER_SIZE + offset, loaded)
  {
    hide Encode, Records, Record, GetU32, Header, ValidKey, ValidValue, EntryFits;
    NextEntry(b, loaded, offset, t);
    FieldsFit(b, HEADER_SIZE + offset, loaded, t[|loaded|], Records(t[|loaded| + 1..]));
  }

  /** The record loop, once the header has passed. */
  method LoadRecords(b: Bytes, count: nat) returns (status: LoadStatus)
    requires HEADER_SIZE <= |b|
    requires b[..8] == MAGIC && GetU32(b, 8) == 1 && GetU32(b, 12) == count <= MAX_ENTRIES
    requires GetU32(b, 16) == |b| - HEADER_SIZE && GetCrc(b, 20) == Crc(b[HEADER_SIZE..])
    ensures status.Loaded? || status.Corrupt?
    ensures status.Loaded? ==> ValidStore(status.entries) && b == Encode(status.entries)
    ensures status.Corrupt? <==> !Encodes(b)
  {
    hide Encode, Records, Record, GetU32, GetCrc, Crc, Header;
    var loaded: seq<Entry>, at := [], HEADER_SIZE;
    RecordsOfNone();
    for entry := 0 to count
      invariant |loaded| == entry && ValidStore(loaded)
      invariant HEADER_SIZE <= at <= |b| && b[HEADER_SIZE..at] == Records(loaded)
    {
      forall t | ValidStore(t) && Encode(t) == b
        ensures EntryFits(b, at, loaded)
      {
        HeaderFields(b, t);
        MisfitIsCorrupt(b, loaded, at - HEADER_SIZE, t);
      }
      if |b| - at < 8 {
        return Corrupt;
      }
      var keySize, valueSize := GetU32(b, at), GetU32(b, at + 4);
      if keySize == 0 || keySize > MAX_KEY_SIZE || valueSize > MAX_VALUE_SIZE
        || keySize > |b| - at - 8 || valueSize > |b| - at - 8 - keySize {
        return Corrupt;
      }
      var key := b[at + 8..at + 8 + keySize];
      var value := b[at + 8 + keySize..at + 8 + keySize + valueSize];
      if 0 in key || 0 in value {
        return Corrupt;
      }
      for previous := 0 to |loaded|
        invariant forall i :: 0 <= i < previous ==> loaded[i].key != key
      {
        if loaded[previous].key == key {
          return Corrupt;
        }
      }
      RecordRead(b, at, Entry(key, value));
      RecordsNext(loaded, Entry(key, value));
      var next := at + 8 + keySize + valueSize;
      assert b[HEADER_SIZE..next] == b[HEADER_SIZE..at] + b[at..next];
      loaded, at := loaded + [Entry(key, value)], next;
    }
    forall t | ValidStore(t) && Encode(t) == b
      ensures at == |b|
    {
      HeaderFields(b, t);
      NextEntry(b, loaded, at - HEADER_SIZE, t);
      assert t[|loaded|..] == [];
      RecordsOfNone();
    }
    if at != |b| {
      return Corrupt;
    }
    assert b[HEADER_SIZE..at] == b[HEADER_SIZE..];
    HeaderComplete(b, loaded);
    return Loaded(loaded);
  }

  lemma RecordsOfNone()
    ensures Records([]) == []
  {
  }

  /** The bytes of the record just read are the record of the entry it became. */
  lemma RecordRead(b: Bytes, at: nat, e: Entry)
    requires at + 8 + |e.key| + |e.value| <= |b|
    requires GetU32(b, at) == |e.key| && GetU32(b, at + 4) == |e.value|
    requires b[at + 8..at + 8 + |e.key|] == e.key
    requires b[at + 8 + |e.key|..at + 8 + |e.key| + |e.value|] == e.value
    ensures b[at..at + 8 + |e.key| + |e.value|] == Record(e)
  {
    hide PutU32, GetU32;
    PutGet(b, at);
    PutGet(b, at + 4);
    var k := at + 8 + |e.key|;
    assert b[at..k + |e.value|] == b[at..at + 4] + b[at + 4..at + 8] + b[at + 8..k] + b[k..k + |e.value|];
  }

  /** shared_values_load_file: it accepts exactly the encodings of valid stores. */
  method LoadFile(file: FileView) returns (status: LoadStatus)
    ensures status.Missing? <==> file.NoFile?
    ensures status.IoError? <==> file.OpenFails? || file.ReadFails?
    ensures status.Loaded? ==> file.Contents? && ValidStore(status.entries) && file.bytes == Encode(status.entries)
    ensures status.Corrupt? <==> file.NotRegular? || (file.Contents? && !Encodes(file.bytes))
  {
    match file
    case NoFile => return Missing;
    case OpenFails => return IoError;
    case NotRegular => return Corrupt;
    case ReadFails => return IoError;
    case Contents(b) =>
      hide Encode, Records, Record, GetU32, GetCrc, Crc, Header;
      forall t | ValidStore(t) && Encode(t) == b
        ensures HEADER_SIZE <= |b| <= HEADER_SIZE + MAX_PAYLOAD_SIZE
        ensures b[..8] == MAGIC && GetU32(b, 8) == 1 && GetU32(b, 12) <= MAX_ENTRIES
        ensures GetU32(b, 16) == |b| - HEADER_SIZE && GetCrc(b, 20) == Crc(b[HEADER_SIZE..])
      {
        HeaderFields(b, t);
      }
      if |b| < HEADER_SIZE || |b| > HEADER_SIZE + MAX_PAYLOAD_SIZE {
        return Corrupt;
      }
      var count, payloadSize := GetU32(b, 12), GetU32(b, 16);
      var crc := SharedCrc32(b[HEADER_SIZE..]);
      if b[..8] != MAGIC || GetU32(b, 8) != 1 || count > MAX_ENTRIES
        || payloadSize != |b| - HEADER_SIZE || payloadSize > MAX_PAYLOAD_SIZE || crc != GetCrc(b, 20) {
        return Corrupt;
      }
      status := LoadRecords(b, count);
  }
}
