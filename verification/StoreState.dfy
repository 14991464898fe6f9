/**
 The in-memory store, edited in place and written through to its file.  A failed
 write is undone, so memory and file agree after every operation.
 */
module StoreState {
  import opened Wrappers
  import opened LittleEndian
  import opened StoreCrc
  import opened StoreCodec

  // ---- What set and delete mean for the list of entries ----

  function IndexOf(s: seq<Entry>, key: Bytes): (r: Option<nat>)
    ensures r.Some? ==> r.value < |s| && s[r.value].key == key
    ensures r.None? ==> forall i :: 0 <= i < |s| ==> s[i].key != key
  {
    if s == [] then None
    else if s[0].key == key then Some(0)
    else match IndexOf(s[1..], key)
      case Some(i) => Some(i + 1)
      case None => None
  }

  lemma IndexUnique(s: seq<Entry>, i: nat)
    requires DistinctKeys(s) && i < |s|
    ensures IndexOf(s, s[i].key) == Some(i)
  {
  }

  function Lookup(s: seq<Entry>, key: Bytes): Option<Bytes> {
    match IndexOf(s, key)
    case Some(i) => Some(s[i].value)
    case None => None
  }

  /** Replaces the value in place, or appends a new entry. */
  function Updated(s: seq<Entry>, key: Bytes, value: Bytes): seq<Entry> {
    match IndexOf(s, key)
    case Some(i) => s[i := Entry(key, value)]
    case None => s + [Entry(key, value)]
  }

  function Removed(s: seq<Entry>, key: Bytes): seq<Entry> {
    match IndexOf(s, key)
    case Some(i) => s[..i] + s[i + 1..]
    case None => s
  }

  datatype Outcome = Outcome(entries: seq<Entry>, done: bool)

  /**
   A set is refused for a bad key or value, for a new key in a full store, or when
   the write fails; a value already present is not written again.
   */
  function SetOutcome(s: seq<Entry>, key: Bytes, value: Bytes, written: bool): Outcome {
    if !ValidKey(key) || !ValidValue(value) then Outcome(s, false)
    else if Lookup(s, key) == Some(value) then Outcome(s, true)
    else if Lookup(s, key).None? && |s| >= MAX_ENTRIES then Outcome(s, false)
    else if written then Outcome(Updated(s, key, value), true)
    else Outcome(s, false)
  }

  function DeleteOutcome(s: seq<Entry>, key: Bytes, written: bool): Outcome {
    if Lookup(s, key).None? then Outcome(s, false)
    else if written then Outcome(Removed(s, key), true)
    else Outcome(s, false)
  }

  lemma UpdatedValid(s: seq<Entry>, key: Bytes, value: Bytes)
    requires ValidStore(s) && ValidKey(key) && ValidValue(value)
    requires Lookup(s, key).Some? || |s| < MAX_ENTRIES
    ensures ValidStore(Updated(s, key, value))
  {
  }

  lemma RemovedValid(s: seq<Entry>, key: Bytes)
    requires ValidStore(s)
    ensures ValidStore(Removed(s, key))
  {
  }

  /** After a set, its key reads the new value and every other key what it read before. */
  lemma LookupUpdated(s: seq<Entry>, key: Bytes, value: Bytes, other: Bytes)
    requires DistinctKeys(s)
    ensures Lookup(Updated(s, key, value), other) == if other == key then Some(value) else Lookup(s, other)
  {
    var t := Updated(s, key, value);
    match IndexOf(t, other) {
      case Some(i) =>
        if i < |s| && s[i].key == other {
          IndexUnique(s, i);
        }
      case None =>
        assert IndexOf(s, key).Some? ==> t[IndexOf(s, key).value].key == key;
        assert IndexOf(s, key).None? ==> t[|s|].key == key;
        assert forall i :: 0 <= i < |s| ==> t[i].key == s[i].key;
    }
  }

  lemma LookupRemoved(s: seq<Entry>, key: Bytes, other: Bytes)
    requires DistinctKeys(s)
    ensures Lookup(Removed(s, key), other) == if other == key then None else Lookup(s, other)
  {
    match IndexOf(s, key) {
      case None =>
      case Some(at) =>
        var t := Removed(s, key);
        assert forall i :: 0 <= i < |t| ==> t[i] == if i < at then s[i] else s[i + 1];
        assert forall j :: 0 <= j < at ==> s[j] == t[j];
        assert forall j :: at < j < |s| ==> s[j] == t[j - 1];
        match IndexOf(t, other) {
          case Some(i) => IndexUnique(s, if i < at then i else i + 1);
          case None =>
        }
    }
  }

  lemma DeleteAt(s: seq<Entry>, key: Bytes, i: nat, written: bool)
    requires IndexOf(s, key) == Some(i)
    ensures DeleteOutcome(s, key, written) == if written then Outcome(s[..i] + s[i + 1..], true) else Outcome(s, false)
    ensures Removed(s, key) == s[..i] + s[i + 1..]
  {
    hide IndexOf;
  }

  // ---- The store ----

  /** Where writing the temporary file or renaming it over the old one can fail. */
  datatype WriteFault =
    | NoFault
    | CreateFails
    | HeaderStops(at: nat)
    | PayloadStops(at: nat)
    | SyncFails
    | CloseFails
    | RenameFails

  predicate Writes(fault: WriteFault, payload: Bytes) {
    fault.NoFault? || (fault.PayloadStops? && payload == [])
  }

  /** The first n slots are in use and the others are empty. */
  predicate Slots(k: seq<Option<Bytes>>, n: nat)
    requires n <= |k|
  {
    (forall i :: 0 <= i < n ==> k[i].Some?) && (forall i :: n <= i < |k| ==> k[i].None?)
  }

  function EntriesOf(k: seq<Option<Bytes>>, v: seq<Option<Bytes>>): seq<Entry>
    requires |k| == |v|
  {
    seq(|k|, i requires 0 <= i < |k| => Entry(k[i].GetOr([]), v[i].GetOr([])))
  }

  class SharedValues {
    var keys: array<Option<Bytes>>
    var values: array<Option<Bytes>>
    var count: nat
    /** Whether a storage path has been set. */
    var bound: bool
    /** The store file at that path, if it exists, and the temporary file beside it. */
    var file: Option<Bytes>
    var temporary: Option<Bytes>

    ghost predicate Shape()
      reads `keys, `values, `count, keys, values
    {
      && keys != values && keys.Length == MAX_ENTRIES && values.Length == MAX_ENTRIES
      && count <= MAX_ENTRIES
      && Slots(keys[..], count) && Slots(values[..], count)
    }

    ghost function Contents(): (s: seq<Entry>)
      reads `keys, `values, `count, keys, values
      requires Shape()
      ensures |s| == count
      ensures forall i :: 0 <= i < count ==> s[i] == Entry(keys[i].value, values[i].value)
    {
      EntriesOf(keys[..count], values[..count])
    }

    ghost predicate Valid()
      reads `keys, `values, `count, keys, values
    {
      Shape() && ValidStore(Contents())
    }

    /** Loading the file again would give exactly what is in memory. */
    ghost predicate Agrees()
      reads this, keys, values
      requires Shape()
    {
      bound ==> (file == None && Contents() == []) || file == Some(Encode(Contents()))
    }

    constructor ()
      ensures Valid() && Agrees() && fresh(keys) && fresh(values)
      ensures Contents() == [] && !bound && temporary == None
    {
      keys := new Option<Bytes>[MAX_ENTRIES](_ => None);
      values := new Option<Bytes>[MAX_ENTRIES](_ => None);
      count, bound, file, temporary := 0, false, None, None;
    }

    /** The index loop of shared_value_index. */
    method Find(key: Bytes) returns (r: Option<nat>)
      requires Shape()
      ensures r == IndexOf(Contents(), key)
    {
      var i := 0;
      while i < count
        invariant 0 <= i <= count
        invariant forall j :: 0 <= j < i ==> keys[j] != Some(key)
      {
        if keys[i] == Some(key) {
          FirstIndex(Contents(), i);
          return Some(i);
        }
        i := i + 1;
      }
      return None;
    }

    /** shared_values_encoded_size: on a valid store it never refuses, and no subtraction wraps below zero. */
    method EncodedSize() returns (total: nat)
      requires Valid()
      ensures total == |Records(Contents())|
    {
      hide Record;
      total := 0;
      for index := 0 to count
        invariant total == |Records(Contents()[..index])| <= index * 263176
      {
        ghost var e := Contents()[index];
        assert ValidKey(e.key) && ValidValue(e.value);
        var room: nat := MAX_PAYLOAD_SIZE - 8 - |keys[index].value| - |values[index].value|;
        assert total <= room;
        assert Contents()[..index + 1] == Contents()[..index] + [e];
        RecordsNext(Contents()[..index], e);
        total := total + 8 + |keys[index].value| + |values[index].value|;
      }
      assert Contents()[..count] == Contents();
    }

    /** The payload buffer of shared_values_persist, filled record by record. */
    method EncodePayload() returns (payload: array<byte>)
      requires Valid()
      ensures fresh(payload) && payload[..] == Records(Contents())
    {
      hide Record, Records, PutU32, ValidStore;
      var size := EncodedSize();
      payload := new byte[size];
      var offset: nat := 0;
      ghost var s := Contents();
      RecordsOfNone();
      for index := 0 to count
        invariant offset <= size && payload[..offset] == Records(s[..index])
      {
        RecordsStep(s, index);
        offset := PutRecord(payload, offset, keys[index].value, values[index].value);
      }
      assert s[..count] == s;
      assert payload[..offset] == payload[..];
    }

    /**
     atomic_write_shared_file: whatever fails, and however much was written before
     it did, the store file is untouched and the temporary file is gone.
     */
    method AtomicWrite(header: Bytes, payload: Bytes, fault: WriteFault) returns (ok: bool)
      modifies this`file, this`temporary
      ensures ok == Writes(fault, payload)
      ensures file == if ok then Some(header + payload) else old(file)
      ensures temporary == if fault.CreateFails? then old(temporary) else None
    {
      if fault.CreateFails? {
        return false;
      }
      temporary := Some([]);
      ok := !fault.HeaderStops?;
      temporary := Some(if ok || fault.at >= |header| then header else header[..fault.at]);
      if ok && |payload| > 0 {
        ok := !fault.PayloadStops?;
        var part := if ok || fault.at >= |payload| then payload else payload[..fault.at];
        temporary := Some(temporary.value + part);
      }
      if ok && fault.SyncFails? {
        ok := false;
      }
      if ok && fault.CloseFails? {
        ok := false;
      }
      if ok && fault.RenameFails? {
        ok := false;
      }
      if ok {
        assert |payload| == 0 ==> header == header + payload;
        file, temporary := temporary, None;
      } else {
        temporary := None;
      }
    }

    /** shared_values_persist: with no storage bound there is nothing to do. */
    method Persist(fault: WriteFault) returns (ok: bool)
      requires Valid()
      modifies this`file, this`temporary
      ensures ok == (!bound || Writes(fault, Records(Contents())))
      ensures file == if bound && ok then Some(Encode(Contents())) else old(file)
    {
      hide Records, Crc, PutU32, PutCrc;
      if !bound {
        return true;
      }
      var payload := EncodePayload();
      var crc := SharedCrc32(payload[..]);
      var header := MAGIC + PutU32(1) + PutU32(count) + PutU32(payload.Length) + PutCrc(crc);
      ok := AtomicWrite(header, payload[..], fault);
    }

    /** The end of shared_value_set_locked for a key that is not yet there. */
    method Append(key: Bytes, value: Bytes, current: nat, fault: WriteFault) returns (done: bool)
      requires Valid() && ValidKey(key) && ValidValue(value)
      requires IndexOf(Contents(), key).None? && current == |Records(Contents())|
      modifies this, keys, values
      ensures Valid() && keys == old(keys) && values == old(values) && bound == old(bound)
      ensures done == (old(count) < MAX_ENTRIES && (!bound || fault.NoFault?))
      ensures Contents() == if done then old(Contents()) + [Entry(key, value)] else old(Contents())
      ensures file == if bound && done then Some(Encode(Contents())) else old(file)
    {
      hide Records, Record, Encode, EntriesOf, DistinctKeys;
      ghost var s := Contents();
      var room: nat := MAX_PAYLOAD_SIZE - 8 - |key| - |value|;
      RecordsSize(s);
      if current > room {
        return false;
      }
      if count >= MAX_ENTRIES {
        return false;
      }
      Push(key, value);
      UpdatedValid(s, key, value);
      RecordsSize(Contents());
      var ok := Persist(fault);
      if !ok {
        Pop();
        assert Contents() == s;
        return false;
      }
      return true;
    }

    /** The new entry takes the first free slot. */
    method Push(key: Bytes, value: Bytes)
      requires Shape() && count < MAX_ENTRIES
      modifies `count, keys, values
      ensures Shape() && Contents() == old(Contents()) + [Entry(key, value)]
    {
      hide EntriesOf;
      EntriesAppended(keys[..], values[..], count, key, value);
      keys[count] := Some(key);
      values[count] := Some(value);
      count := count + 1;
    }

    /** The last entry goes, and its slot is free again. */
    method Pop()
      requires Shape() && count > 0
      modifies `count, keys, values
      ensures Shape() && Contents() == old(Contents())[..old(count) - 1]
    {
      hide EntriesOf;
      count := count - 1;
      keys[count] := None;
      values[count] := None;
    }

    /** The end of shared_value_set_locked for a key that is already there. */
    method Replace(index: nat, key: Bytes, value: Bytes, current: nat, fault: WriteFault) returns (done: bool)
      requires Valid() && ValidKey(key) && ValidValue(value)
      requires index < count && keys[index] == Some(key) && current == |Records(Contents())|
      modifies this, keys, values
      ensures Valid() && keys == old(keys) && values == old(values) && bound == old(bound)
      ensures done == (!bound || fault.NoFault?)
      ensures Contents() == if done then old(Contents())[index := Entry(key, value)] else old(Contents())
      ensures file == if bound && done then Some(Encode(Contents())) else old(file)
    {
      hide Records, Record, Encode;
      ghost var s := Contents();
      RecordsWithout(s, index);
      var previous := 8 + |keys[index].value| + |values[index].value|;
      var others: nat := current - previous;
      var room: nat := MAX_PAYLOAD_SIZE - 8 - |key| - |value|;
      assert others <= room;
      if others > room {
        return false;
      }
      var oldValue := values[index];
      values[index] := Some(value);
      assert Contents() == s[index := Entry(key, value)];
      RecordsSize(Contents());
      var ok := Persist(fault);
      if !ok {
        values[index] := oldValue;
        assert Contents() == s;
        return false;
      }
      return true;
    }

    /** shared_value_set_locked. */
    method Set(key: Bytes, value: Bytes, fault: WriteFault) returns (done: bool)
      requires Valid()
      modifies this, keys, values
      ensures Valid() && keys == old(keys) && values == old(values) && bound == old(bound)
      ensures Outcome(Contents(), done) == SetOutcome(old(Contents()), key, value, !bound || fault.NoFault?)
      ensures old(Agrees()) ==> Agrees()
      ensures file != old(file) ==> file == Some(Encode(Contents()))
    {
      hide Records, Record, Encode, ValidKey, ValidValue;
      if !ValidKey(key) || !ValidValue(value) {
        return false;
      }
      var index := Find(key);
      if index.Some? && values[index.value].value == value {
        return true;
      }
      var current := EncodedSize();
      if index.None? {
        done := Append(key, value, current, fault);
      } else {
        done := Replace(index.value, key, value, current, fault);
      }
    }

    /** The entries behind the removed one move down by one slot. */
    method CloseGap(index: nat)
      requires Shape() && index < count
      modifies this`count, keys, values
      ensures Shape() && count == old(count) - 1
      ensures Contents() == old(Contents()[..index] + Contents()[index + 1..])
    {
      hide MovedDown, Closed, Slots, EntriesOf;
      ghost var k, v, n := keys[..], values[..], count;
      var current := index + 1;
      MoveDownStart(k, index);
      MoveDownStart(v, index);
      while current < count
        invariant index + 1 <= current <= count == n
        invariant keys[..] == MovedDown(k, index, current) && values[..] == MovedDown(v, index, current)
      {
        MoveDownStep(k, index, current);
        MoveDownStep(v, index, current);
        keys[current - 1] := keys[current];
        values[current - 1] := values[current];
        current := current + 1;
      }
      MoveDownEnd(k, index, n, None);
      MoveDownEnd(v, index, n, None);
      count := count - 1;
      keys[count] := None;
      values[count] := None;
      SlotsClosed(k, index, n);
      SlotsClosed(v, index, n);
      EntriesClosed(k, v, index, n);
    }

    /** The undo loop: the entries move up again and the removed one goes back where it was. */
    method ReopenGap(index: nat, key: Bytes, value: Bytes)
      requires Shape() && index <= count < MAX_ENTRIES
      modifies this`count, keys, values
      ensures Shape() && count == old(count) + 1
      ensures Contents() == old(Contents()[..index]) + [Entry(key, value)] + old(Contents()[index..])
    {
      hide MovedUp, Opened, Slots, EntriesOf;
      ghost var k, v, n := keys[..], values[..], count;
      var current := count;
      MoveUpStart(k, n);
      MoveUpStart(v, n);
      while current > index
        invariant index <= current <= count == n
        invariant keys[..] == MovedUp(k, current, n) && values[..] == MovedUp(v, current, n)
      {
        MoveUpStep(k, current, n);
        MoveUpStep(v, current, n);
        keys[current] := keys[current - 1];
        values[current] := values[current - 1];
        current := current - 1;
      }
      MoveUpEnd(k, index, n, Some(key));
      MoveUpEnd(v, index, n, Some(value));
      keys[index] := Some(key);
      values[index] := Some(value);
      count := count + 1;
      SlotsOpened(k, index, n, Some(key));
      SlotsOpened(v, index, n, Some(value));
      EntriesOpened(k, v, index, n, key, value);
    }

    /** shared_value_delete_locked: a failed write puts the entry back where it was. */
    method Delete(key: Bytes, fault: WriteFault) returns (done: bool)
      requires Valid()
      modifies this, keys, values
      ensures Valid() && keys == old(keys) && values == old(values) && bound == old(bound)
      ensures Outcome(Contents(), done) == DeleteOutcome(old(Contents()), key,
                !bound || Writes(fault, Records(Removed(old(Contents()), key))))
      ensures file == if bound && done then Some(Encode(Contents())) else old(file)
      ensures old(Agrees()) ==> Agrees()
    {
      hide Records, Record, Encode, ValidStore, EntriesOf, Removed, DeleteOutcome, IndexOf;
      ghost var s := Contents();
      var found := Find(key);
      if found.None? {
        DeleteMissing(s, key);
        return false;
      }
      var index := found.value;
      var removedKey, removedValue := keys[index].value, values[index].value;
      RemovedValid(s, key);
      DeleteAt(s, key, index, !bound || Writes(fault, Records(Removed(s, key))));
      CloseGap(index);
      done := Persist(fault);
      if !done {
        ReopenGap(index, removedKey, removedValue);
        GapRefilled(s, index);
      }
    }
  }

  lemma DeleteMissing(s: seq<Entry>, key: Bytes)
    requires IndexOf(s, key).None?
    ensures forall written :: DeleteOutcome(s, key, written) == Outcome(s, false)
  {
  }

  lemma GapRefilled(s: seq<Entry>, i: nat)
    requires i < |s|
    ensures var t := s[..i] + s[i + 1..];
            t[..i] + [s[i]] + t[i..] == s
  {
  }

  // ---- Shifting slots ----

  /** The slots once those behind index have moved down as far as current. */
  function MovedDown<T>(k: seq<T>, index: nat, current: nat): (r: seq<T>)
    requires index < current <= |k|
    ensures |r| == |k|
  {
    k[..index] + k[index + 1..current] + k[current - 1..]
  }

  lemma MoveDownStart<T>(k: seq<T>, index: nat)
    requires index < |k|
    ensures MovedDown(k, index, index + 1) == k
  {
    assert k[..index] + [] + k[index..] == k;
  }

  lemma MoveDownStep<T>(k: seq<T>, index: nat, current: nat)
    requires index < current < |k|
    ensures MovedDown(k, index, current)[current] == k[current]
    ensures MovedDown(k, index, current)[current - 1 := k[current]] == MovedDown(k, index, current + 1)
  {
  }

  lemma MoveDownEnd<T>(k: seq<T>, index: nat, n: nat, x: T)
    requires index < n <= |k|
    ensures MovedDown(k, index, n)[n - 1 := x] == Closed(k, index, n, x)
  {
  }

  function Closed<T>(k: seq<T>, index: nat, n: nat, x: T): seq<T>
    requires index < n <= |k|
  {
    k[..index] + k[index + 1..n] + [x] + k[n..]
  }

  function Opened<T>(k: seq<T>, index: nat, n: nat, x: T): seq<T>
    requires index <= n < |k|
  {
    k[..index] + [x] + k[index..n] + k[n + 1..]
  }

  lemma SlotsClosed(k: seq<Option<Bytes>>, index: nat, n: nat)
    requires index < n <= |k| && Slots(k, n)
    ensures Slots(Closed(k, index, n, None), n - 1)
  {
  }

  lemma SlotsOpened(k: seq<Option<Bytes>>, index: nat, n: nat, x: Option<Bytes>)
    requires index <= n < |k| && Slots(k, n) && x.Some?
    ensures Slots(Opened(k, index, n, x), n + 1)
  {
  }

  lemma EntriesClosed(k: seq<Option<Bytes>>, v: seq<Option<Bytes>>, index: nat, n: nat)
    requires |k| == |v| && index < n <= |k|
    ensures var s := EntriesOf(k[..n], v[..n]);
            EntriesOf(Closed(k, index, n, None)[..n - 1], Closed(v, index, n, None)[..n - 1]) == s[..index] + s[index + 1..]
  {
  }

  lemma EntriesAppended(k: seq<Option<Bytes>>, v: seq<Option<Bytes>>, n: nat, key: Bytes, value: Bytes)
    requires |k| == |v| && n < |k|
    ensures EntriesOf(k[n := Some(key)][..n + 1], v[n := Some(value)][..n + 1]) == EntriesOf(k[..n], v[..n]) + [Entry(key, value)]
  {
  }

  lemma EntriesOpened(k: seq<Option<Bytes>>, v: seq<Option<Bytes>>, index: nat, n: nat, key: Bytes, value: Bytes)
    requires |k| == |v| && index <= n < |k|
    ensures var s := EntriesOf(k[..n], v[..n]);
            EntriesOf(Opened(k, index, n, Some(key))[..n + 1], Opened(v, index, n, Some(value))[..n + 1])
            == s[..index] + [Entry(key, value)] + s[index..]
  {
  }

  /** The slots once those from current on have moved up, out of n in use. */
  function MovedUp<T>(k: seq<T>, current: nat, n: nat): (r: seq<T>)
    requires current <= n < |k|
    ensures |r| == |k|
  {
    k[..current] + [if current == n then k[n] else k[current]] + k[current..n] + k[n + 1..]
  }

  lemma MoveUpStart<T>(k: seq<T>, n: nat)
    requires n < |k|
    ensures MovedUp(k, n, n) == k
  {
  }

  lemma MoveUpStep<T>(k: seq<T>, current: nat, n: nat)
    requires 0 < current <= n < |k|
    ensures MovedUp(k, current, n)[current - 1] == k[current - 1]
    ensures MovedUp(k, current, n)[current := k[current - 1]] == MovedUp(k, current - 1, n)
  {
  }

  lemma MoveUpEnd<T>(k: seq<T>, index: nat, n: nat, x: T)
    requires index <= n < |k|
    ensures MovedUp(k, index, n)[index := x] == Opened(k, index, n, x)
  {
  }

  // ---- Binding to a file ----

  /**
   The loading part of asm2_android_set_storage_root: an unreadable file leaves the
   state alone, a corrupt one is moved aside first, and otherwise memory becomes
   what the file holds.
   */
  method BindStorage(st: SharedValues, view: FileView, quarantined: bool) returns (ok: bool)
    requires st.Valid()
    modifies st, st.keys, st.values
    ensures st.Valid() && st.keys == old(st.keys) && st.values == old(st.values)
    ensures ok == !(view.OpenFails? || view.ReadFails?
                  || ((view.NotRegular? || (view.Contents? && !Encodes(view.bytes))) && !quarantined))
    ensures !ok ==> st.Contents() == old(st.Contents()) && st.bound == old(st.bound) && st.file == old(st.file)
    ensures ok ==> st.bound && st.Agrees()
    ensures ok && view.Contents? && Encodes(view.bytes) ==> Encode(st.Contents()) == view.bytes
    ensures ok && !(view.Contents? && Encodes(view.bytes)) ==> st.Contents() == [] && st.file == None
  {
    hide Encode;
    var status := LoadFile(view);
    if status.IoError? || (status.Corrupt? && !quarantined) {
      return false;
    }
    var loaded := if status.Loaded? then status.entries else [];
    Fill(st, loaded);
    st.bound := true;
    st.file := if status.Loaded? then Some(view.bytes) else None;
    return true;
  }

  /** shared_values_clear, then the loop that moves the loaded entries in. */
  method Fill(st: SharedValues, loaded: seq<Entry>)
    requires st.Valid() && |loaded| <= MAX_ENTRIES
    modifies st`count, st.keys, st.values
    ensures st.Shape() && st.Contents() == loaded
  {
    for index := 0 to st.count
      invariant st.count == old(st.count)
      invariant forall i :: 0 <= i < MAX_ENTRIES && (i < index || st.count <= i) ==> st.keys[i].None? && st.values[i].None?
    {
      st.keys[index] := None;
      st.values[index] := None;
    }
    st.count := 0;
    for index := 0 to |loaded|
      invariant forall i :: 0 <= i < index ==> st.keys[i] == Some(loaded[i].key) && st.values[i] == Some(loaded[i].value)
      invariant forall i :: index <= i < MAX_ENTRIES ==> st.keys[i].None? && st.values[i].None?
    {
      st.keys[index] := Some(loaded[index].key);
      st.values[index] := Some(loaded[index].value);
    }
    st.count := |loaded|;
  }

  /** A store reopened from the file of an agreeing store holds exactly the same entries in the same order. */
  method Reopen(st: SharedValues) returns (again: SharedValues)
    requires st.Valid() && st.bound && st.Agrees()
    ensures fresh(again) && again.Valid() && again.Agrees()
    ensures again.Contents() == st.Contents()
  {
    hide Encode;
    again := new SharedValues();
    var view := match st.file case None => NoFile case Some(b) => Contents(b);
    assert view.Contents? ==> Encodes(view.bytes);
    var ok := BindStorage(again, view, false);
    if view.Contents? {
      EncodeInjective(st.Contents(), again.Contents());
    }
  }

  lemma RecordsWithout(s: seq<Entry>, i: nat)
    requires ValidStore(s) && i < |s|
    ensures |Records(s)| >= 8 + |s[i].key| + |s[i].value|
    ensures |Records(s)| - (8 + |s[i].key| + |s[i].value|) <= 127 * 263176
  {
    var left, right := s[..i], s[i + 1..];
    assert s == left + [s[i]] + right;
    RecordsConcat(left + [s[i]], right);
    RecordsNext(left, s[i]);
    RecordsSize(left);
    RecordsSize(right);
  }

  /** put_u32_le twice, then the two memcpy of one record. */
  method PutRecord(payload: array<byte>, offset: nat, key: Bytes, value: Bytes) returns (next: nat)
    requires offset + 8 + |key| + |value| <= payload.Length
    modifies payload
    ensures next == offset + 8 + |key| + |value|
    ensures payload[..next] == old(payload[..offset]) + Record(Entry(key, value))
  {
    hide PutU32;
    var sizes := PutU32(|key|) + PutU32(|value|);
    forall i | 0 <= i < 8 {
      payload[offset + i] := sizes[i];
    }
    var at := offset + 8;
    assert payload[..at] == old(payload[..offset]) + sizes;
    forall i | 0 <= i < |key| {
      payload[at + i] := key[i];
    }
    assert payload[..at + |key|] == old(payload[..offset]) + sizes + key;
    at := at + |key|;
    forall i | 0 <= i < |value| {
      payload[at + i] := value[i];
    }
    next := at + |value|;
    assert payload[..next] == old(payload[..offset]) + sizes + key + value;
    assert sizes + key + value == Record(Entry(key, value));
  }

  lemma RecordsStep(s: seq<Entry>, n: nat)
    requires n < |s|
    ensures Records(s[..n + 1]) == Records(s[..n]) + Record(s[n])
    ensures |Records(s[..n + 1])| <= |Records(s)|
  {
    hide Record;
    assert s[..n + 1] == s[..n] + [s[n]];
    RecordsNext(s[..n], s[n]);
    assert s == s[..n + 1] + s[n + 1..];
    RecordsConcat(s[..n + 1], s[n + 1..]);
  }

  lemma {:induction false} FirstIndex(s: seq<Entry>, i: nat)
    requires i < |s| && forall j :: 0 <= j < i ==> s[j].key != s[i].key
    ensures IndexOf(s, s[i].key) == Some(i)
  {
    if i > 0 {
      FirstIndex(s[1..], i - 1);
    }
  }
}
