/** The handle and intern hash chains of jni_bridge.c. */
module Intern {
  import opened Wrappers
  import opened TextCodec
  import opened TextBuffers

  const BUCKETS := 1024

  newtype address32 = x: int | 0 <= x < 0x1_0000_0000

  datatype Kind = KindClass | KindObject | KindString | KindMethod | KindField

  /** What two requests must share to get the same handle. */
  datatype Key =
    | ClassKey(className: Bytes)
    | ObjectKey(className: Bytes)
    | StringKey(text: Bytes)
    | IdKey(field: bool, isStatic: bool, className: Bytes, name: Bytes, signature: Bytes)

  function KindOf(key: Key): Kind {
    match key
    case ClassKey(_) => KindClass
    case ObjectKey(_) => KindObject
    case StringKey(_) => KindString
    case IdKey(field, _, _, _, _) => if field then KindField else KindMethod
  }

  function KindNumber(kind: Kind): nat {
    match kind
    case KindClass => 0
    case KindObject => 1
    case KindString => 2
    case KindMethod => 3
    case KindField => 4
  }

  // ---- The two bucket functions ----

  const WORDS := 0x1_0000_0000

  /** One step of the FNV-1a hash. */
  function Absorb(hash: nat, word: nat): nat {
    Xor(hash, word) * 16777619 % WORDS
  }

  function HashText(hash: nat, text: Bytes): nat
    decreases |text|
  {
    if text == [] then Absorb(hash, 0xff) else HashText(Absorb(hash, text[0] as nat), text[1..])
  }

  /** asm2_intern_bucket; a field the kind does not use is hashed as the empty text. */
  function InternBucket(key: Key): (b: nat)
    ensures b < BUCKETS
  {
    var h0 := Absorb(0x811c9dc5, KindNumber(KindOf(key)));
    var h1 := Absorb(h0, if key.IdKey? && key.isStatic then 1 else 0);
    var h2 := HashText(h1, if key.StringKey? then [] else key.className);
    var h3 := HashText(h2, if key.IdKey? then key.name else []);
    var h4 := HashText(h3, if key.IdKey? then key.signature else []);
    var h5 := HashText(h4, if key.StringKey? then key.text else []);
    Xor(h5, h5 / 0x1_0000) % BUCKETS
  }

  function Mix(value: nat): nat {
    Xor(value / 0x1_0000, value) * 0x45d9f3b % WORDS
  }

  /** asm2_handle_bucket. */
  function HandleBucket(address: address32): (b: nat)
    ensures b < BUCKETS
  {
    var v := Mix(Mix(address as nat / 16));
    Xor(v, v / 0x1_0000) % BUCKETS
  }

  // ---- Handles on the heap ----

  class Handle {
    const address: address32
    const kind: Kind
    const className: Bytes
    var name: Bytes
    var signature: Bytes
    var text: Bytes
    var utf16: Units
    var isStatic: bool
    var hashNext: Handle?
    var internNext: Handle?

    constructor (address: address32, kind: Kind, className: Bytes)
      ensures this.address == address && this.kind == kind && this.className == className
      ensures name == [] && signature == [] && text == [] && utf16 == [] && !isStatic
      ensures hashNext == null && internNext == null
    {
      this.address, this.kind, this.className := address, kind, className;
      name, signature, text, utf16, isStatic, hashNext, internNext := [], [], [], [], false, null, null;
    }

    function Key(): Key
      reads `name, `signature, `text, `isStatic
    {
      match kind
      case KindClass => ClassKey(className)
      case KindObject => ObjectKey(className)
      case KindString => StringKey(text)
      case KindMethod => IdKey(false, isStatic, className, name, signature)
      case KindField => IdKey(true, isStatic, className, name, signature)
    }

    /** The comparison inside each asm2_intern_ loop. */
    predicate Matches(key: Key)
      reads `name, `signature, `text, `isStatic
      ensures Matches(key) <==> Key() == key
    {
      match key
      case ClassKey(c) => kind == KindClass && className == c
      case ObjectKey(c) => kind == KindObject && className == c
      case StringKey(t) => kind == KindString && text == t
      case IdKey(f, st, c, n, g) =>
        kind == KindOf(key) && isStatic == st && className == c && name == n && signature == g
    }
  }

  function Head(chain: seq<Handle>): Handle? {
    if chain == [] then null else chain[0]
  }

  function At(chain: seq<Handle>, i: nat): Handle? {
    if i < |chain| then chain[i] else null
  }

  ghost predicate HashLinked(chain: seq<Handle>)
    reads chain
  {
    forall i :: 0 <= i < |chain| ==> chain[i].hashNext == At(chain, i + 1)
  }

  ghost predicate InternLinked(chain: seq<Handle>)
    reads chain
  {
    forall i :: 0 <= i < |chain| ==> chain[i].internNext == At(chain, i + 1)
  }

  lemma PushHash(item: Handle, chain: seq<Handle>)
    requires HashLinked(chain) && item.hashNext == Head(chain)
    ensures HashLinked([item] + chain)
  {
    var longer := [item] + chain;
    forall i | 0 <= i < |longer| ensures longer[i].hashNext == At(longer, i + 1) {
      if i > 0 {
        assert longer[i] == chain[i - 1];
      }
    }
  }

  lemma PushIntern(item: Handle, chain: seq<Handle>)
    requires InternLinked(chain) && item.internNext == Head(chain)
    ensures InternLinked([item] + chain)
  {
    var longer := [item] + chain;
    forall i | 0 <= i < |longer| ensures longer[i].internNext == At(longer, i + 1) {
      if i > 0 {
        assert longer[i] == chain[i - 1];
      }
    }
  }

  twostate lemma HashLinkedKept(chain: seq<Handle>)
    requires old(HashLinked(chain))
    requires forall h :: h in chain ==> h.hashNext == old(h.hashNext)
    ensures HashLinked(chain)
  {
    forall i | 0 <= i < |chain| ensures chain[i].hashNext == At(chain, i + 1) {
      assert chain[i] in chain;
    }
  }

  twostate lemma InternLinkedKept(chain: seq<Handle>)
    requires old(InternLinked(chain))
    requires forall h :: h in chain ==> h.internNext == old(h.internNext)
    ensures InternLinked(chain)
  {
    forall i | 0 <= i < |chain| ensures chain[i].internNext == At(chain, i + 1) {
      assert chain[i] in chain;
    }
  }

  // ---- The two tables ----

  class Tables {
    const handleBuckets: array<Handle?>
    const internBuckets: array<Handle?>
    ghost var handleChains: seq<seq<Handle>>
    ghost var internChains: seq<seq<Handle>>
    /** Every handle, every handle by its address, and the interned ones by what they stand for. */
    ghost var handles: set<Handle>
    ghost var registered: map<address32, Handle>
    ghost var interned: map<Key, Handle>

    ghost predicate Shape()
      reads `handleChains, `internChains
    {
      && handleBuckets.Length == internBuckets.Length == BUCKETS
      && handleBuckets != internBuckets
      && |handleChains| == |internChains| == BUCKETS
    }

    /** A chain holds exactly the registered handles of its bucket. */
    ghost predicate HandlesAgree()
      requires Shape()
      reads this, handleBuckets, handles
    {
      && (forall a :: a in registered ==>
            registered[a] in handles && registered[a].address == a && registered[a] in handleChains[HandleBucket(a)])
      && (forall b :: 0 <= b < BUCKETS ==>
            && handleBuckets[b] == Head(handleChains[b])
            && (forall h :: h in handleChains[b] ==>
                  h in handles && HandleBucket(h.address) == b && h.address in registered && registered[h.address] == h)
            && HashLinked(handleChains[b]))
    }

    /** A chain holds exactly the interned handles of its bucket, and strings carry their units. */
    ghost predicate InternsAgree()
      requires Shape()
      reads this, internBuckets, handles
    {
      && (forall k :: k in interned ==>
            interned[k] in handles && interned[k].Key() == k && interned[k] in internChains[InternBucket(k)])
      && (forall b :: 0 <= b < BUCKETS ==>
            && internBuckets[b] == Head(internChains[b])
            && (forall h :: h in internChains[b] ==>
                  h in handles && InternBucket(h.Key()) == b && h.Key() in interned && interned[h.Key()] == h)
            && InternLinked(internChains[b]))
      && (forall k :: k in interned && k.StringKey? ==> interned[k] in handles && interned[k].utf16 == Decode(k.text))
    }

    ghost predicate Valid()
      reads this, handleBuckets, internBuckets, handles
    {
      && Shape() && HandlesAgree() && InternsAgree()
      && (forall h :: h in handles ==> h.address in registered && registered[h.address] == h)
    }

    constructor ()
      ensures Valid() && fresh(handleBuckets) && fresh(internBuckets)
      ensures handles == {} && registered == map[] && interned == map[]
    {
      handleBuckets := new Handle?[BUCKETS](_ => null);
      internBuckets := new Handle?[BUCKETS](_ => null);
      handleChains := seq(BUCKETS, _ => []);
      internChains := seq(BUCKETS, _ => []);
      handles, registered, interned := {}, map[], map[];
    }

    /** asm2_find_handle_locked. */
    method FindHandle(pointer: address32) returns (item: Handle?)
      requires Valid()
      ensures item == if pointer in registered then registered[pointer] else null
    {
      hide InternBucket, HandleBucket, InternLinked, Handle.Key, Decode, Tables.InternsAgree;
      var b := HandleBucket(pointer);
      item := handleBuckets[b];
      ghost var chain, i := handleChains[b], 0;
      while item != null
        invariant 0 <= i <= |chain| && item == At(chain, i)
        invariant pointer in registered ==> registered[pointer] !in chain[..i]
        decreases |chain| - i
      {
        if item.address == pointer {
          return;
        }
        i := i + 1;
        item := item.hashNext;
      }
    }

    /** The loop shared by the asm2_intern_ functions. */
    method FindInterned(key: Key) returns (item: Handle?)
      requires Valid()
      ensures item == if key in interned then interned[key] else null
    {
      hide InternBucket, HandleBucket, HashLinked, Handle.Key, Handle.Matches, Decode, Tables.HandlesAgree;
      var b := InternBucket(key);
      item := internBuckets[b];
      ghost var chain, i := internChains[b], 0;
      while item != null
        invariant 0 <= i <= |chain| && item == At(chain, i)
        invariant key in interned ==> interned[key] !in chain[..i]
        decreases |chain| - i
      {
        if item.Matches(key) {
          return;
        }
        i := i + 1;
        item := item.internNext;
      }
    }

    twostate lemma InternsKept()
      requires old(Shape()) && Shape() && old(InternsAgree())
      requires internChains == old(internChains) && interned == old(interned) && old(handles) <= handles
      requires forall b :: 0 <= b < BUCKETS ==> internBuckets[b] == old(internBuckets[b])
      requires forall k :: k in old(interned) ==> unchanged(interned[k])
      ensures InternsAgree()
    {
      hide InternBucket, Decode, HandleBucket, InternLinked;
      forall b | 0 <= b < BUCKETS
        ensures internBuckets[b] == Head(internChains[b]) && InternLinked(internChains[b])
      {
        InternLinkedKept(internChains[b]);
      }
    }

    twostate lemma HandlesPushed(new item: Handle)
      requires old(Shape()) && Shape() && old(HandlesAgree())
      requires item.address !in old(registered) && registered == old(registered)[item.address := item]
      requires item !in old(handles) && handles == old(handles) + {item}
      requires var b := HandleBucket(item.address);
               && item.hashNext == Head(old(handleChains)[b])
               && handleChains == old(handleChains)[b := [item] + old(handleChains)[b]]
               && handleBuckets[b] == item
               && forall c :: 0 <= c < BUCKETS && c != b ==> handleBuckets[c] == old(handleBuckets[c])
      requires forall h :: h in old(handles) ==> unchanged(h)
      ensures HandlesAgree()
    {
      hide HandleBucket, HashLinked;
      var b := HandleBucket(item.address);
      var before := old(handleChains);
      forall c | 0 <= c < BUCKETS
        ensures handleBuckets[c] == Head(handleChains[c]) && HashLinked(handleChains[c])
      {
        HashLinkedKept(before[c]);
        if c == b {
          PushHash(item, before[b]);
        }
      }
    }

    twostate lemma HandlesKept()
      requires old(Shape()) && Shape() && old(HandlesAgree())
      requires handleChains == old(handleChains) && registered == old(registered) && handles == old(handles)
      requires forall b :: 0 <= b < BUCKETS ==> handleBuckets[b] == old(handleBuckets[b])
      requires forall h :: h in old(handles) ==> h.hashNext == old(h.hashNext)
      ensures HandlesAgree()
    {
      hide HandleBucket, HashLinked;
      forall b | 0 <= b < BUCKETS
        ensures handleBuckets[b] == Head(handleChains[b]) && HashLinked(handleChains[b])
      {
        HashLinkedKept(handleChains[b]);
      }
    }

    twostate lemma InternsPushed(new item: Handle, new key: Key, new b: nat)
      requires old(Shape()) && Shape() && old(InternsAgree())
      requires item in old(handles) && handles == old(handles)
      requires item.Key() == key && key !in old(interned) && interned == old(interned)[key := item]
      requires key.StringKey? ==> item.utf16 == Decode(key.text)
      requires b == InternBucket(key)
      requires item.internNext == Head(old(internChains)[b])
      requires internChains == old(internChains)[b := [item] + old(internChains)[b]]
      requires internBuckets[b] == item
      requires forall c :: 0 <= c < BUCKETS && c != b ==> internBuckets[c] == old(internBuckets[c])
      requires forall k :: k in old(interned) ==> unchanged(interned[k])
      ensures InternsAgree()
    {
      hide InternBucket, InternLinked, Handle.Key, Decode;
      var before := old(internChains);
      forall c | 0 <= c < BUCKETS
        ensures internBuckets[c] == Head(internChains[c]) && InternLinked(internChains[c])
      {
        InternLinkedKept(before[c]);
        if c == b {
          PushIntern(item, before[b]);
        }
      }
    }

    /** asm2_allocate_handle_locked; the allocator hands out an address that no handle has. */
    method Allocate(address: address32, kind: Kind, className: Bytes) returns (item: Handle)
      requires Valid() && address !in registered
      modifies `handles, `handleChains, `registered, handleBuckets
      ensures Valid() && fresh(item)
      ensures item.address == address && item.kind == kind && item.className == className
      ensures item.name == [] && item.signature == [] && item.text == [] && item.utf16 == [] && !item.isStatic
      ensures handles == old(handles) + {item} && registered == old(registered)[address := item]
    {
      hide HandleBucket, Tables.HandlesAgree, Tables.InternsAgree;
      item := new Handle(address, kind, className);
      var b := HandleBucket(address);
      HeadOfHandles(b);
      item.hashNext := handleBuckets[b];
      handleBuckets[b] := item;
      handles := handles + {item};
      registered := registered[address := item];
      handleChains := handleChains[b := [item] + handleChains[b]];
      HandlesPushed(item);
      InternedAreHandles();
      InternsKept();
    }

    lemma HeadOfHandles(b: nat)
      requires Shape() && HandlesAgree() && b < BUCKETS
      ensures handleBuckets[b] == Head(handleChains[b])
    {
    }

    lemma HeadOfInterns(b: nat)
      requires Shape() && InternsAgree() && b < BUCKETS
      ensures internBuckets[b] == Head(internChains[b])
    {
    }

    lemma NotInterned(item: Handle)
      requires Shape() && InternsAgree() && item.Key() !in interned
      ensures forall k :: k in interned ==> interned[k] != item
    {
      hide Handle.Key;
    }

    twostate lemma InternedAreHandles()
      requires old(Shape()) && old(InternsAgree())
      ensures forall k :: k in old(interned) ==> old(interned)[k] in old(handles)
    {
    }

    /** asm2_publish_intern_locked. */
    method Publish(item: Handle, key: Key, b: nat)
      requires Valid() && item in handles && item.Key() == key && key !in interned && b == InternBucket(key)
      requires key.StringKey? ==> item.utf16 == Decode(key.text)
      modifies `internChains, `interned, internBuckets, item`internNext
      ensures Valid() && interned == old(interned)[key := item]
    {
      hide InternBucket, Tables.HandlesAgree, Tables.InternsAgree, Decode, Handle.Key;
      HeadOfInterns(b);
      NotInterned(item);
      item.internNext := internBuckets[b];
      internBuckets[b] := item;
      interned := interned[key := item];
      internChains := internChains[b := [item] + internChains[b]];
      InternsPushed(item, key, b);
      HandlesKept();
    }

    /** Two requests have the same handle exactly when they share a key. */
    lemma SameHandle(j: Key, k: Key)
      requires Valid() && j in interned && k in interned
      ensures interned[j] == interned[k] <==> j == k
    {
      hide InternBucket, HandleBucket;
    }

    /** What interning promises: the handle the map has, or else a new one added to the map under this key. */
    twostate predicate Interned(key: Key, new item: Handle, address: address32)
      requires old(Valid())
      reads this, internBuckets, handleBuckets, handles
    {
      && Valid() && key in interned && item == interned[key]
      && (if key in old(interned)
          then interned == old(interned) && registered == old(registered)
          else interned == old(interned)[key := item] && registered == old(registered)[address := item])
    }

    method InternClass(className: Bytes, address: address32) returns (item: Handle)
      requires Valid() && address !in registered
      modifies this, handleBuckets, internBuckets
      ensures Interned(ClassKey(NameOrDefault(className)), item, address)
    {
      hide InternBucket, HandleBucket, Tables.HandlesAgree, Tables.InternsAgree;
      var name := NameOrDefault(className);
      var found := FindInterned(ClassKey(name));
      if found != null {
        return found;
      }
      item := Allocate(address, KindClass, name);
      Publish(item, ClassKey(name), InternBucket(ClassKey(name)));
    }

    method InternObject(className: Bytes, address: address32) returns (item: Handle)
      requires Valid() && address !in registered
      modifies this, handleBuckets, internBuckets
      ensures Interned(ObjectKey(NameOrDefault(className)), item, address)
    {
      hide InternBucket, HandleBucket, Tables.HandlesAgree, Tables.InternsAgree;
      var name := NameOrDefault(className);
      var found := FindInterned(ObjectKey(name));
      if found != null {
        return found;
      }
      item := Allocate(address, KindObject, name);
      Publish(item, ObjectKey(name), InternBucket(ObjectKey(name)));
    }

    /** asm2_new_object_handle registers an object without interning it. */
    method NewObject(className: Bytes, address: address32) returns (item: Handle)
      requires Valid() && address !in registered
      modifies this, handleBuckets
      ensures Valid() && fresh(item) && item.Key() == ObjectKey(NameOrDefault(className))
      ensures interned == old(interned) && registered == old(registered)[address := item]
    {
      hide InternBucket, HandleBucket, Tables.HandlesAgree, Tables.InternsAgree;
      item := Allocate(address, KindObject, NameOrDefault(className));
    }

    /** asm2_intern_id; the class is named by its handle, and an unknown handle stands for java/lang/Object. */
    method InternId(field: bool, classPointer: address32, name: Bytes, signature: Bytes, isStatic: bool,
                    address: address32) returns (item: Handle)
      requires Valid() && address !in registered
      modifies this, handleBuckets, internBuckets
      ensures Interned(IdKey(field, isStatic, old(ClassNameAt(classPointer)), name, signature), item, address)
    {
      hide InternBucket, HandleBucket, Tables.HandlesAgree, Tables.InternsAgree;
      var classItem := FindHandle(classPointer);
      var className := if classItem != null then classItem.className else DEFAULT_CLASS;
      var key := IdKey(field, isStatic, className, name, signature);
      var found := FindInterned(key);
      if found != null {
        return found;
      }
      item := AllocateId(field, isStatic, className, name, signature, address);
      Publish(item, key, InternBucket(key));
    }

    method AllocateId(field: bool, isStatic: bool, className: Bytes, name: Bytes, signature: Bytes,
                      address: address32) returns (item: Handle)
      requires Valid() && address !in registered
      modifies `handles, `handleChains, `registered, handleBuckets
      ensures Valid() && fresh(item) && item.Key() == IdKey(field, isStatic, className, name, signature)
      ensures handles == old(handles) + {item} && registered == old(registered)[address := item]
    {
      hide InternBucket, HandleBucket, Tables.HandlesAgree, Tables.InternsAgree;
      item := Allocate(address, if field then KindField else KindMethod, className);
      InternedAreHandles();
      label Allocated:
      item.name, item.signature, item.isStatic := name, signature, isStatic;
      InternsKept@Allocated();
      HandlesKept@Allocated();
    }

    /** asm2_intern_string, given a C string that may lie in a larger buffer. */
    method InternString(buffer: array<byte>, address: address32) returns (item: Handle)
      requires Valid() && address !in registered && 0 in buffer[..]
      modifies this, handleBuckets, internBuckets
      ensures Interned(StringKey(UpToNul(old(buffer[..]))), item, address)
      ensures item.utf16 == Decode(UpToNul(old(buffer[..])))
    {
      hide InternBucket, HandleBucket, Tables.HandlesAgree, Tables.InternsAgree, Decode;
      var text := Duplicate(buffer);
      var key := StringKey(text[..text.Length - 1]);
      assert key == StringKey(UpToNul(buffer[..]));
      var found := FindInterned(key);
      if found != null {
        UnitsOfInterned(key);
        return found;
      }
      var output, count := FillUtf16(text);
      item := AllocateText(text[..text.Length - 1], output[..count], address);
      Publish(item, key, InternBucket(key));
    }

    method AllocateText(text: Bytes, units: seq<unit16>, address: address32) returns (item: Handle)
      requires Valid() && address !in registered
      modifies `handles, `handleChains, `registered, handleBuckets
      ensures Valid() && fresh(item) && item.Key() == StringKey(text) && item.utf16 == units
      ensures handles == old(handles) + {item} && registered == old(registered)[address := item]
    {
      hide InternBucket, HandleBucket, Tables.HandlesAgree, Tables.InternsAgree;
      item := Allocate(address, KindString, STRING_CLASS);
      InternedAreHandles();
      label Allocated:
      item.text, item.utf16 := text, units;
      InternsKept@Allocated();
      HandlesKept@Allocated();
    }

    lemma UnitsOfInterned(key: Key)
      requires Valid() && key in interned && key.StringKey?
      ensures interned[key].utf16 == Decode(key.text)
    {
    }

    /** asm2_new_string: the handle's units are those given, up to the first zero unit. */
    method NewString(unicode: array<unit16>, address: address32) returns (item: Handle)
      requires Valid() && address !in registered
      modifies this, handleBuckets, internBuckets
      ensures Interned(StringKey(UpToNul(Encode(old(unicode[..])))), item, address)
      ensures item.utf16 == UnitsUpToNul(old(unicode[..]))
    {
      hide InternBucket, HandleBucket, Tables.HandlesAgree, Tables.InternsAgree, Decode, Encode;
      var utf8 := Utf16ToUtf8(unicode);
      UpToNulOfPrefix(utf8[..], Encode(unicode[..]));
      item := InternString(utf8, address);
      StringRoundTrip(old(unicode[..]));
    }

    ghost function ClassNameAt(pointer: address32): Bytes
      reads this
    {
      if pointer in registered then registered[pointer].className else DEFAULT_CLASS
    }
  }

  /** asm2_duplicate: the text up to its terminator, and the terminator. */
  method Duplicate(buffer: array<byte>) returns (text: array<byte>)
    requires 0 in buffer[..]
    ensures fresh(text) && Terminated(text) && Content(text) == UpToNul(buffer[..])
  {
    var length := 0;
    ghost var end :| 0 <= end < buffer.Length && buffer[..][end] == 0;
    while buffer[length] != 0
      invariant length <= end && forall i :: 0 <= i < length ==> buffer[i] != 0
      decreases end - length
    {
      length := length + 1;
    }
    text := new byte[length + 1](i requires 0 <= i < length + 1 reads buffer => buffer[i]);
    assert text[..length] == buffer[..length];
    UpToNulEnds(buffer[..], length);
  }

  lemma {:induction false} UpToNulEnds(s: Bytes, n: nat)
    requires n < |s| && s[n] == 0 && forall i :: 0 <= i < n ==> s[i] != 0
    ensures UpToNul(s) == s[..n]
  {
    if n > 0 {
      UpToNulEnds(s[1..], n - 1);
      assert s[..n] == [s[0]] + s[1..][..n - 1];
    }
  }

  lemma UpToNulOfPrefix(buffer: Bytes, content: Bytes)
    requires content < buffer && buffer[|content|] == 0
    ensures 0 in buffer && UpToNul(buffer) == UpToNul(content)
  {
    if content != [] && content[0] != 0 {
      UpToNulOfPrefix(buffer[1..], content[1..]);
    }
  }

  function NameOrDefault(className: Bytes): Bytes {
    if className == [] then DEFAULT_CLASS else className
  }

  /** "java/lang/Object" */
  const DEFAULT_CLASS: Bytes :=
    [0x6a, 0x61, 0x76, 0x61, 0x2f, 0x6c, 0x61, 0x6e, 0x67, 0x2f, 0x4f, 0x62, 0x6a, 0x65, 0x63, 0x74]

  /** "java/lang/String" */
  const STRING_CLASS: Bytes :=
    [0x6a, 0x61, 0x76, 0x61, 0x2f, 0x6c, 0x61, 0x6e, 0x67, 0x2f, 0x53, 0x74, 0x72, 0x69, 0x6e, 0x67]
}
