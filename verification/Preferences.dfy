/**
 Typed preferences kept in a reserved namespace of the shared-value store:
 storage keys carry the length of the preference name, values carry a type tag.
 */
module Preferences {
  import opened Wrappers
  import opened Decimal
  import opened StoreCodec
  import opened StoreState

  /** The characters __asm2_shared_pref_v1__. */
  const KEY_PREFIX: Bytes :=
    [0x5f, 0x5f, 0x61, 0x73, 0x6d, 0x32, 0x5f, 0x73, 0x68, 0x61, 0x72, 0x65, 0x64, 0x5f,
     0x70, 0x72, 0x65, 0x66, 0x5f, 0x76, 0x31, 0x5f, 0x5f]
  const COLON: byte := 0x3a

  // ---- Storage keys ----

  /** preference_storage_key: prefix, decimal name length, colon, name, colon, key. */
  function StorageKey(name: Option<Bytes>, key: Option<Bytes>): Option<Bytes> {
    if key.None? then None
    else
      var n := name.GetOr([]);
      var k := KEY_PREFIX + Digits(|n|) + [COLON] + n + [COLON] + key.value;
      if |k| > MAX_KEY_SIZE then None else Some(k)
  }

  /** preference_storage_key_reserved. */
  predicate Reserved(key: Bytes) {
    |key| >= |KEY_PREFIX| && key[..|KEY_PREFIX|] == KEY_PREFIX
  }

  /** Two preferences share a storage key only if they have the same name and the same key. */
  lemma StorageKeyInjective(n: Option<Bytes>, k: Option<Bytes>, m: Option<Bytes>, l: Option<Bytes>)
    requires StorageKey(n, k).Some? && StorageKey(n, k) == StorageKey(m, l)
    ensures n.GetOr([]) == m.GetOr([]) && k == l
  {
    hide Digits, Framed;
    var a, b := n.GetOr([]), m.GetOr([]);
    var x, y := Framed(a, k.value), Framed(b, l.value);
    PrefixStripped(n, k);
    PrefixStripped(m, l);
    FramedStart(a, k.value);
    FramedStart(b, l.value);
    SameDigits(Digits(|a|), x, Digits(|b|), y);
    ValueOfDigits(|a|);
    ValueOfDigits(|b|);
    FramedInjective(a, k.value, b, l.value);
  }

  function Framed(name: Bytes, key: Bytes): Bytes {
    [COLON] + name + [COLON] + key
  }

  lemma FramedStart(name: Bytes, key: Bytes)
    ensures Framed(name, key) != [] && Framed(name, key)[0] == COLON
  {
  }

  lemma FramedInjective(a: Bytes, k: Bytes, b: Bytes, l: Bytes)
    requires |a| == |b| && Framed(a, k) == Framed(b, l)
    ensures a == b && k == l
  {
    assert a == Framed(a, k)[1..|a| + 1] && b == Framed(b, l)[1..|a| + 1];
    assert k == Framed(a, k)[|a| + 2..] && l == Framed(b, l)[|a| + 2..];
  }

  lemma PrefixStripped(n: Option<Bytes>, k: Option<Bytes>)
    requires StorageKey(n, k).Some?
    ensures |KEY_PREFIX| <= |StorageKey(n, k).value|
    ensures StorageKey(n, k).value[|KEY_PREFIX|..] == Digits(|n.GetOr([])|) + Framed(n.GetOr([]), k.value)
  {
    hide Digits;
    var a := n.GetOr([]);
    assert StorageKey(n, k).value == KEY_PREFIX + (Digits(|a|) + Framed(a, k.value));
  }

  lemma SameDigits(d: Bytes, x: Bytes, e: Bytes, y: Bytes)
    requires forall i :: 0 <= i < |d| ==> IsDigit(d[i])
    requires forall i :: 0 <= i < |e| ==> IsDigit(e[i])
    requires x != [] && y != [] && x[0] == COLON && y[0] == COLON
    requires d + x == e + y
    ensures d == e && x == y
  {
    assert (d + x)[|d|] == COLON && (e + y)[|e|] == COLON;
    assert forall i :: 0 <= i < |d| ==> IsDigit((d + x)[i]);
    assert forall i :: 0 <= i < |e| ==> IsDigit((e + y)[i]);
    assert d == (d + x)[..|d|] && x == (d + x)[|d|..];
    assert e == (e + y)[..|e|] && y == (e + y)[|e|..];
  }

  /** Storage keys are always in the reserved namespace, and the store accepts them. */
  lemma StorageKeyReserved(n: Option<Bytes>, k: Option<Bytes>)
    requires StorageKey(n, k).Some?
    ensures Reserved(StorageKey(n, k).value)
    ensures 0 !in n.GetOr([]) && 0 !in k.value ==> ValidKey(StorageKey(n, k).value)
  {
  }

  // ---- Values ----

  datatype PrefType = IntType | LongType | BooleanType | StringType | OtherType

  datatype Pref =
    | IntPref(i: int)
    | LongPref(j: int)
    | BooleanPref(z: bool)
    | StringPref(s: Bytes)
  {
    function Type(): PrefType {
      match this
      case IntPref(_) => IntType
      case LongPref(_) => LongType
      case BooleanPref(_) => BooleanType
      case StringPref(_) => StringType
    }

    predicate InRange() {
      match this
      case IntPref(i) => FitsInt(i)
      case LongPref(j) => FitsLong(j)
      case BooleanPref(_) => true
      case StringPref(s) => 0 !in s
    }
  }

  predicate FitsInt(v: int) {
    -0x8000_0000 <= v <= 0x7fff_ffff
  }

  predicate FitsLong(v: int) {
    -0x8000_0000_0000_0000 <= v <= 0x7fff_ffff_ffff_ffff
  }

  const TAG_INT: byte := 0x69
  const TAG_LONG: byte := 0x6a
  const TAG_BOOLEAN: byte := 0x7a
  const TAG_STRING: byte := 0x73

  /** What preference_set stores; a string that leaves no room for its tag is not stored. */
  function EncodePref(p: Pref): Option<Bytes> {
    match p
    case IntPref(i) => Some([TAG_INT, COLON] + Signed(i))
    case LongPref(j) => Some([TAG_LONG, COLON] + Signed(j))
    case BooleanPref(z) => Some([TAG_BOOLEAN, COLON, if z then 0x31 else 0x30])
    case StringPref(s) => if |s| <= MAX_VALUE_SIZE - 2 then Some([TAG_STRING, COLON] + s) else None
  }

  predicate Tagged(stored: Bytes, tag: byte) {
    |stored| >= 2 && stored[0] == tag && stored[1] == COLON
  }

  /** What preference_get makes of a stored value under a requested type. */
  function ReadPref(t: PrefType, stored: Bytes): Option<Pref> {
    match t
    case IntType =>
      if Tagged(stored, TAG_INT) && |stored| > 2 then
        match ParseNumber(stored[2..])
        case Some(v) => if FitsInt(v) then Some(IntPref(v)) else None
        case None => None
      else None
    case LongType =>
      if Tagged(stored, TAG_LONG) && |stored| > 2 then
        match ParseNumber(stored[2..])
        case Some(v) => if FitsLong(v) then Some(LongPref(v)) else None
        case None => None
      else None
    case BooleanType =>
      if Tagged(stored, TAG_BOOLEAN) && |stored| == 3 && (stored[2] == 0x30 || stored[2] == 0x31)
      then Some(BooleanPref(stored[2] == 0x31)) else None
    case StringType => if Tagged(stored, TAG_STRING) then Some(StringPref(stored[2..])) else None
    case OtherType => None
  }

  /** A stored value reads back equal under its own type and not at all under another one. */
  lemma PrefRoundTrip(p: Pref, t: PrefType)
    requires p.InRange() && EncodePref(p).Some?
    ensures ReadPref(t, EncodePref(p).value) == if t == p.Type() then Some(p) else None
  {
    hide ParseNumber, Signed;
    var b := EncodePref(p).value;
    match p {
      case IntPref(i) =>
        ParseSigned(i);
        SignedNotEmpty(i);
        assert b[2..] == Signed(i);
      case LongPref(j) =>
        ParseSigned(j);
        SignedNotEmpty(j);
        assert b[2..] == Signed(j);
      case BooleanPref(z) =>
      case StringPref(s) =>
        assert b[2..] == s;
    }
  }

  // ---- The calls the guest makes ----

  /** preference_set. */
  method PreferenceSet(st: SharedValues, name: Option<Bytes>, key: Option<Bytes>, p: Pref, fault: WriteFault)
    returns (stored: bool)
    requires st.Valid()
    modifies st, st.keys, st.values
    ensures st.Valid() && st.keys == old(st.keys) && st.values == old(st.values) && st.bound == old(st.bound)
    ensures Outcome(st.Contents(), stored) == PreferenceSetOutcome(old(st.Contents()), name, key, p, !st.bound || fault.NoFault?)
    ensures old(st.Agrees()) ==> st.Agrees()
  {
    hide SetOutcome;
    var storageKey, encoded := StorageKey(name, key), EncodePref(p);
    if storageKey.None? || encoded.None? {
      return false;
    }
    stored := st.Set(storageKey.value, encoded.value, fault);
  }

  function PreferenceSetOutcome(s: seq<Entry>, name: Option<Bytes>, key: Option<Bytes>, p: Pref, written: bool): Outcome {
    if StorageKey(name, key).None? || EncodePref(p).None? then Outcome(s, false)
    else SetOutcome(s, StorageKey(name, key).value, EncodePref(p).value, written)
  }

  /** preference_get; None stands for the caller's default. */
  method PreferenceGet(st: SharedValues, name: Option<Bytes>, key: Option<Bytes>, t: PrefType) returns (r: Option<Pref>)
    requires st.Valid()
    ensures r == PreferenceRead(st.Contents(), name, key, t)
  {
    var storageKey := StorageKey(name, key);
    if storageKey.None? {
      return None;
    }
    var index := st.Find(storageKey.value);
    if index.None? {
      return None;
    }
    return ReadPref(t, st.values[index.value].value);
  }

  function PreferenceRead(s: seq<Entry>, name: Option<Bytes>, key: Option<Bytes>, t: PrefType): Option<Pref> {
    if StorageKey(name, key).None? then None
    else match Lookup(s, StorageKey(name, key).value)
      case Some(stored) => ReadPref(t, stored)
      case None => None
  }

  // ---- The preference that binding seeds ----

  /** "GameActivityPrefs" */
  const INSTALLER_PREFERENCES: Bytes :=
    [0x47, 0x61, 0x6d, 0x65, 0x41, 0x63, 0x74, 0x69, 0x76, 0x69, 0x74, 0x79, 0x50, 0x72, 0x65, 0x66, 0x73]

  /** "SDFolder" */
  const SD_KEY: Bytes := [0x53, 0x44, 0x46, 0x6f, 0x6c, 0x64, 0x65, 0x72]

  function SeedOutcome(s: seq<Entry>, directory: Option<Bytes>, written: bool): Outcome {
    if directory.None? then Outcome(s, false)
    else if PreferenceRead(s, Some(INSTALLER_PREFERENCES), Some(SD_KEY), StringType).Some? then Outcome(s, true)
    else PreferenceSetOutcome(s, Some(INSTALLER_PREFERENCES), Some(SD_KEY), StringPref(directory.value), written)
  }

  /** ensure_installer_preferences. */
  method EnsureInstallerPreferences(st: SharedValues, directory: Option<Bytes>, fault: WriteFault) returns (seeded: bool)
    requires st.Valid()
    modifies st, st.keys, st.values
    ensures st.Valid() && st.keys == old(st.keys) && st.values == old(st.values) && st.bound == old(st.bound)
    ensures Outcome(st.Contents(), seeded) == SeedOutcome(old(st.Contents()), directory, !st.bound || fault.NoFault?)
    ensures old(st.Agrees()) ==> st.Agrees()
  {
    hide PreferenceRead, PreferenceSetOutcome;
    if directory.None? {
      return false;
    }
    var stored := PreferenceGet(st, Some(INSTALLER_PREFERENCES), Some(SD_KEY), StringType);
    if stored.Some? {
      return true;
    }
    seeded := PreferenceSet(st, Some(INSTALLER_PREFERENCES), Some(SD_KEY), StringPref(directory.value), fault);
  }

  /**
   asm2_android_set_storage_root once the directory is there: binding, then
   seeding.  A failure to bind changes nothing; a failure to seed is reported
   too, but leaves the store bound to what the file held.
   */
  method SetStorageRoot(st: SharedValues, view: FileView, quarantined: bool, directory: Option<Bytes>, fault: WriteFault)
    returns (ok: bool)
    requires st.Valid()
    modifies st, st.keys, st.values
    ensures st.Valid()
    ensures !Binds(view, quarantined) ==>
              !ok && st.Contents() == old(st.Contents()) && st.bound == old(st.bound) && st.file == old(st.file)
    ensures Binds(view, quarantined) ==>
              && st.bound && st.Agrees()
              && exists loaded :: LoadedFrom(view, loaded)
                   && Outcome(st.Contents(), ok) == SeedOutcome(loaded, directory, fault.NoFault?)
  {
    hide Encode, Encodes, SeedOutcome;
    var bound := BindStorage(st, view, quarantined);
    if !bound {
      return false;
    }
    ghost var loaded := st.Contents();
    assert LoadedFrom(view, loaded);
    ok := EnsureInstallerPreferences(st, directory, fault);
  }

  /** The file can be read, or is no store and can be moved aside. */
  ghost predicate Binds(view: FileView, quarantined: bool) {
    !view.OpenFails? && !view.ReadFails? && (view.NotRegular? || (view.Contents? && !Encodes(view.bytes)) ==> quarantined)
  }

  ghost predicate LoadedFrom(view: FileView, loaded: seq<Entry>) {
    && ValidStore(loaded)
    && if view.Contents? && Encodes(view.bytes) then Encode(loaded) == view.bytes else loaded == []
  }

  /** A successful seed leaves the preference readable, as it was or as the directory, and no other one changed. */
  lemma SeedReads(s: seq<Entry>, directory: Bytes, written: bool, name: Bytes, key: Bytes, t: PrefType)
    requires ValidStore(s) && 0 !in directory && SeedOutcome(s, Some(directory), written).done
    ensures var before, after := PreferenceRead(s, Some(name), Some(key), t),
                                 PreferenceRead(SeedOutcome(s, Some(directory), written).entries, Some(name), Some(key), t);
            if name == INSTALLER_PREFERENCES && key == SD_KEY && t == StringType
            then after == if before.Some? then before else Some(StringPref(directory))
            else if name == INSTALLER_PREFERENCES && key == SD_KEY then after.Some? ==> after == before
            else after == before
  {
    hide PreferenceRead, PreferenceSetOutcome, ValidStore;
    if PreferenceRead(s, Some(INSTALLER_PREFERENCES), Some(SD_KEY), StringType).None? {
      PrivateStep(s, INSTALLER_PREFERENCES, SD_KEY, StringPref(directory), written, name, key, t);
    }
  }

  /** The public DataSharing entry points: reserved keys are ignored, read as empty and never exist. */
  datatype PublicCall =
    | SetShared(key: Bytes, value: Bytes)
    | DeleteShared(key: Bytes)

  method PublicSet(st: SharedValues, key: Bytes, value: Bytes, fault: WriteFault)
    requires st.Valid()
    modifies st, st.keys, st.values
    ensures st.Valid() && st.keys == old(st.keys) && st.values == old(st.values)
    ensures st.Contents() == AfterPublic(old(st.Contents()), SetShared(key, value), !old(st.bound) || fault.NoFault?)
    ensures old(st.Agrees()) ==> st.Agrees()
  {
    hide SetOutcome, Reserved;
    if !Reserved(key) {
      var done := st.Set(key, value, fault);
    }
  }

  method PublicDelete(st: SharedValues, key: Bytes, fault: WriteFault)
    requires st.Valid()
    modifies st, st.keys, st.values
    ensures st.Valid() && st.keys == old(st.keys) && st.values == old(st.values)
    ensures st.Contents() == AfterPublic(old(st.Contents()), DeleteShared(key),
              !old(st.bound) || Writes(fault, Records(Removed(old(st.Contents()), key))))
    ensures old(st.Agrees()) ==> st.Agrees()
  {
    hide DeleteOutcome, Reserved, Records, Removed;
    if !Reserved(key) {
      var done := st.Delete(key, fault);
    }
  }

  method PublicGet(st: SharedValues, key: Bytes) returns (value: Bytes)
    requires st.Valid()
    ensures value == if Reserved(key) then [] else Lookup(st.Contents(), key).GetOr([])
  {
    if Reserved(key) {
      return [];
    }
    var index := st.Find(key);
    return if index.None? then [] else st.values[index.value].value;
  }

  function AfterPublic(s: seq<Entry>, call: PublicCall, written: bool): seq<Entry> {
    if Reserved(call.key) then s
    else match call
      case SetShared(k, v) => SetOutcome(s, k, v, written).entries
      case DeleteShared(k) => DeleteOutcome(s, k, written).entries
  }

  // ---- Runs ----

  /** One call of the guest, and whether the write it may cause succeeds. */
  datatype Step =
    | Public(call: PublicCall, written: bool)
    | Private(name: Bytes, key: Bytes, pref: Pref, written: bool)
  {
    predicate WellTyped() {
      Private? ==> 0 !in name && 0 !in key && pref.InRange()
    }
  }

  function AfterStep(s: seq<Entry>, step: Step): seq<Entry> {
    match step
    case Public(call, written) => AfterPublic(s, call, written)
    case Private(n, k, p, written) => PreferenceSetOutcome(s, Some(n), Some(k), p, written).entries
  }

  function AfterRun(s: seq<Entry>, run: seq<Step>): seq<Entry> {
    if run == [] then s else AfterStep(AfterRun(s, run[..|run| - 1]), run[|run| - 1])
  }

  /** What a guest that never saw the shared store would expect: the last preference set successfully. */
  function Expected(s: seq<Entry>, run: seq<Step>, name: Bytes, key: Bytes): Option<Pref> {
    if run == [] then None
    else
      var before, step := run[..|run| - 1], run[|run| - 1];
      if step.Private? && step.name == name && step.key == key
         && PreferenceSetOutcome(AfterRun(s, before), Some(name), Some(key), step.pref, step.written).done
      then Some(step.pref)
      else Expected(s, before, name, key)
  }

  lemma {:induction false} RunValid(s: seq<Entry>, run: seq<Step>)
    requires ValidStore(s)
    ensures ValidStore(AfterRun(s, run))
  {
    hide ValidStore;
    if run != [] {
      RunValid(s, run[..|run| - 1]);
      StepValid(AfterRun(s, run[..|run| - 1]), run[|run| - 1]);
    }
  }

  lemma StepValid(s: seq<Entry>, step: Step)
    requires ValidStore(s)
    ensures ValidStore(AfterStep(s, step))
  {
    hide ValidStore, Reserved, StorageKey, EncodePref;
    match step {
      case Public(SetShared(k, v), w) => SetValid(s, k, v, w);
      case Public(DeleteShared(k), w) => RemovedValid(s, k);
      case Private(n, k, p, w) =>
        if StorageKey(Some(n), Some(k)).Some? && EncodePref(p).Some? {
          SetValid(s, StorageKey(Some(n), Some(k)).value, EncodePref(p).value, w);
        }
    }
  }

  lemma SetValid(s: seq<Entry>, k: Bytes, v: Bytes, w: bool)
    requires ValidStore(s)
    ensures ValidStore(SetOutcome(s, k, v, w).entries)
  {
    hide ValidStore, ValidKey, ValidValue;
    if ValidKey(k) && ValidValue(v) && (Lookup(s, k).Some? || |s| < MAX_ENTRIES) {
      UpdatedValid(s, k, v);
    }
  }

  /** No public call changes what any preference reads. */
  lemma PublicKeepsPreferences(s: seq<Entry>, call: PublicCall, written: bool, name: Option<Bytes>, key: Option<Bytes>, t: PrefType)
    requires ValidStore(s)
    ensures PreferenceRead(AfterPublic(s, call, written), name, key, t) == PreferenceRead(s, name, key, t)
  {
    hide Reserved, StorageKey, ReadPref, Updated, Removed, ValidKey, ValidValue;
    if StorageKey(name, key).Some? && !Reserved(call.key) {
      StorageKeyReserved(name, key);
      match call {
        case SetShared(k, v) => LookupUpdated(s, k, v, StorageKey(name, key).value);
        case DeleteShared(k) => LookupRemoved(s, k, StorageKey(name, key).value);
      }
    }
  }

  lemma {:induction false} PublicRunKeepsPreferences(s: seq<Entry>, run: seq<Step>, name: Option<Bytes>, key: Option<Bytes>, t: PrefType)
    requires ValidStore(s) && forall i :: 0 <= i < |run| ==> run[i].Public?
    ensures PreferenceRead(AfterRun(s, run), name, key, t) == PreferenceRead(s, name, key, t)
  {
    hide ValidStore, PreferenceRead, AfterPublic;
    if run != [] {
      var before, last := run[..|run| - 1], run[|run| - 1];
      PublicRunKeepsPreferences(s, before, name, key, t);
      RunValid(s, before);
      PublicKeepsPreferences(AfterRun(s, before), last.call, last.written, name, key, t);
    }
  }

  /** A private set that succeeds is read back under its own type only; other preferences are untouched. */
  lemma PrivateStep(s: seq<Entry>, n: Bytes, k: Bytes, p: Pref, written: bool, name: Bytes, key: Bytes, t: PrefType)
    requires ValidStore(s) && p.InRange()
    ensures var out := PreferenceSetOutcome(s, Some(n), Some(k), p, written);
            PreferenceRead(out.entries, Some(name), Some(key), t)
            == if out.done && n == name && k == key then (if t == p.Type() then Some(p) else None)
               else PreferenceRead(s, Some(name), Some(key), t)
  {
    hide StorageKey, ReadPref, Updated, ValidKey, ValidValue, EncodePref, Lookup;
    var mine, theirs := StorageKey(Some(n), Some(k)), StorageKey(Some(name), Some(key));
    if EncodePref(p).Some? {
      PrefRoundTrip(p, t);
    }
    if mine.Some? && theirs.Some? && EncodePref(p).Some? {
      if mine == theirs {
        StorageKeyInjective(Some(n), Some(k), Some(name), Some(key));
      }
      LookupUpdated(s, mine.value, EncodePref(p).value, theirs.value);
    }
  }

  /**
   Over any run of public and private calls on an empty store, a preference reads as
   the last value set successfully for exactly that name and key, and only under its type.
   */
  lemma {:induction false} RunReadsLastSet(run: seq<Step>, name: Bytes, key: Bytes, t: PrefType)
    requires forall i :: 0 <= i < |run| ==> run[i].WellTyped()
    ensures PreferenceRead(AfterRun([], run), Some(name), Some(key), t)
            == match Expected([], run, name, key)
               case Some(p) => if t == p.Type() then Some(p) else None
               case None => None
  {
    hide PreferenceRead, AfterPublic, PreferenceSetOutcome;
    if run == [] {
      EmptyReads(name, key, t);
    } else {
      var before, last := run[..|run| - 1], run[|run| - 1];
      RunReadsLastSet(before, name, key, t);
      RunValid([], before);
      match last {
        case Public(call, written) =>
          PublicKeepsPreferences(AfterRun([], before), call, written, Some(name), Some(key), t);
        case Private(n, k, p, written) =>
          PrivateStep(AfterRun([], before), n, k, p, written, name, key, t);
      }
    }
  }

  lemma EmptyReads(name: Bytes, key: Bytes, t: PrefType)
    ensures PreferenceRead([], Some(name), Some(key), t) == None
  {
    hide StorageKey;
  }
}
