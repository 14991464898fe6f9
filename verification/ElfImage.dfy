/**
 What a relocated image is: the value the ELF specification gives every
 relocated word, as a function of the image as it was loaded.
 */
module ElfImage {
  import opened Wrappers
  import opened LittleEndian

  const WORDS := 0x1_0000_0000

  function Plus(a: nat, b: nat): (c: nat)
    ensures c < WORDS
  {
    (a + b) % WORDS
  }

  function Word(m: Bytes, at: nat): (w: nat)
    requires at + 4 <= |m|
    ensures w < WORDS
  {
    PutGet(m, at);
    GetU32(m, at)
  }

  // ---- The tables, as they lie in the image ----

  datatype Section = Section(name: string, address: nat, size: nat) {
    predicate IsRel() {
      name == ".rel.dyn" || name == ".rel.plt"
    }
  }

  /** The load state: section headers, the bias, the lowest address, .dynsym and .dynstr. */
  datatype Module = Module(sections: seq<Section>, base: nat, lowest: nat,
                           symbols: nat, symbolCount: nat, strings: nat, stringsSize: nat)

  const REL_SIZE := 8
  const SYM_SIZE := 16

  /** The image positions of the relocation entries of one section, and of all sections in header order. */
  function EntriesOf(s: Section, lowest: nat): seq<int> {
    if s.IsRel() then seq(s.size / REL_SIZE, (j: nat) => s.address - lowest + REL_SIZE * j) else []
  }

  function Entries(sections: seq<Section>, lowest: nat): seq<int> {
    if sections == [] then []
    else Entries(sections[..|sections| - 1], lowest) + EntriesOf(sections[|sections| - 1], lowest)
  }

  datatype Rel = Rel(offset: nat, symbol: nat, code: nat)

  function RelAt(m: Bytes, at: nat): Rel
    requires at + REL_SIZE <= |m|
  {
    var info := Word(m, at + 4);
    Rel(Word(m, at), info / 256, info % 256)
  }

  datatype Symbol = Symbol(name: nat, value: nat, weak: bool, defined: bool)

  function SymbolAt(m: Bytes, at: nat): Symbol
    requires at + SYM_SIZE <= |m|
  {
    Symbol(Word(m, at), Word(m, at + 4), m[at + 12] / 16 == 2, m[at + 14] != 0 || m[at + 15] != 0)
  }

  predicate Inside(at: int, size: nat, m: Bytes) {
    0 <= at && at + size <= |m|
  }

  predicate Apart(a: int, size: nat, b: int, other: nat) {
    a + size <= b || b + other <= a
  }

  function Count(mod: Module): nat {
    |Entries(mod.sections, mod.lowest)|
  }

  function EntryAt(mod: Module, k: nat): int
    requires k < Count(mod)
  {
    Entries(mod.sections, mod.lowest)[k]
  }

  /** The symbol and string tables lie in the image, and the latter ends with a NUL. */
  predicate TablesInBounds(mod: Module, m: Bytes) {
    && Inside(mod.symbols - mod.lowest, SYM_SIZE * mod.symbolCount, m)
    && Inside(mod.strings - mod.lowest, mod.stringsSize, m)
    && mod.stringsSize > 0 && m[mod.strings - mod.lowest + mod.stringsSize - 1] == 0
  }

  /** Entry k lies in the image, and so do the word it relocates, its symbol and its name. */
  predicate EntryInBounds(mod: Module, m: Bytes, k: nat)
    requires TablesInBounds(mod, m) && k < Count(mod)
  {
    && Inside(EntryAt(mod, k), REL_SIZE, m)
    && var rel := RelAt(m, EntryAt(mod, k));
       && Inside(rel.offset - mod.lowest, 4, m)
       && rel.symbol < mod.symbolCount
       && SymbolAt(m, mod.symbols - mod.lowest + SYM_SIZE * rel.symbol).name < mod.stringsSize
  }

  predicate InBounds(mod: Module, m: Bytes) {
    TablesInBounds(mod, m) && forall k :: 0 <= k < Count(mod) ==> EntryInBounds(mod, m, k)
  }

  function Entry(mod: Module, m: Bytes, k: nat): Rel
    requires InBounds(mod, m) && k < Count(mod)
  {
    assert EntryInBounds(mod, m, k);
    RelAt(m, EntryAt(mod, k))
  }

  /** The position of the word that entry k relocates. */
  function Slot(mod: Module, m: Bytes, k: nat): (at: nat)
    requires InBounds(mod, m) && k < Count(mod)
    ensures at + 4 <= |m|
  {
    assert EntryInBounds(mod, m, k);
    Entry(mod, m, k).offset - mod.lowest
  }

  function SymbolOf(mod: Module, m: Bytes, k: nat): (s: Symbol)
    requires InBounds(mod, m) && k < Count(mod)
    ensures s.name < mod.stringsSize
  {
    assert EntryInBounds(mod, m, k);
    SymbolAt(m, mod.symbols - mod.lowest + SYM_SIZE * Entry(mod, m, k).symbol)
  }

  function NameOf(mod: Module, m: Bytes, k: nat): Bytes
    requires InBounds(mod, m) && k < Count(mod)
  {
    UpToNul(m[mod.strings - mod.lowest + SymbolOf(mod, m, k).name..])
  }

  /** Distinct words, none of them overlapping the relocation, symbol or string tables. */
  ghost predicate Separate(mod: Module, m: Bytes)
    requires InBounds(mod, m)
  {
    && (forall j, k :: 0 <= j < k < Count(mod) ==> Apart(Slot(mod, m, j), 4, Slot(mod, m, k), 4))
    && (forall j, k :: 0 <= j < Count(mod) && 0 <= k < Count(mod) ==> Apart(Slot(mod, m, j), 4, EntryAt(mod, k), REL_SIZE))
    && (forall k :: 0 <= k < Count(mod) ==>
          && Apart(Slot(mod, m, k), 4, mod.symbols - mod.lowest, SYM_SIZE * mod.symbolCount)
          && Apart(Slot(mod, m, k), 4, mod.strings - mod.lowest, mod.stringsSize))
  }

  // ---- The values of section 4.6 of ELF for the Arm Architecture, and of its i386 counterpart ----

  datatype Arch = Arm | I386

  /** S + A, S, or B + A. */
  datatype Meaning = Absolute | Address | Relative | Unknown

  function MeaningOf(arch: Arch, code: nat): Meaning {
    match arch
    case Arm => if code == 2 then Absolute else if code == 21 || code == 22 then Address
                else if code == 23 then Relative else Unknown
    case I386 => if code == 1 then Absolute else if code == 6 || code == 7 then Address
                 else if code == 8 then Relative else Unknown
  }

  datatype Export = Export(symbol: Bytes, address: nat)

  /** What imports are looked up in: the loader's table, and then the host, whose dlsym yields zero for what it lacks. */
  datatype Imports = Imports(table: seq<Export>, host: map<Bytes, nat>)

  function FromTable(table: seq<Export>, name: Bytes): Option<nat> {
    if table == [] then None
    else if table[0].symbol == name then Some(table[0].address)
    else FromTable(table[1..], name)
  }

  function FromHost(host: map<Bytes, nat>, name: Bytes): Option<nat> {
    if name in host && host[name] != 0 then Some(host[name]) else None
  }

  function Import(imports: Imports, name: Bytes): Option<nat> {
    match FromTable(imports.table, name)
    case Some(a) => Some(a)
    case None => FromHost(imports.host, name)
  }

  /** S: the address of the symbol; a weak symbol nobody defines is at zero. */
  function SymbolValue(mod: Module, imports: Imports, m: Bytes, k: nat): Option<nat>
    requires InBounds(mod, m) && k < Count(mod)
  {
    var sym := SymbolOf(mod, m, k);
    if sym.defined then Some(mod.base + sym.value)
    else match Import(imports, NameOf(mod, m, k))
      case Some(a) => Some(a)
      case None => if sym.weak then Some(0) else None
  }

  /** The word the specification wants in slot k, from the image as loaded; nothing if a strong symbol is undefined. */
  function ElfValue(arch: Arch, mod: Module, imports: Imports, m: Bytes, k: nat): Option<nat>
    requires InBounds(mod, m) && k < Count(mod)
  {
    var addend := Word(m, Slot(mod, m, k));
    match MeaningOf(arch, Entry(mod, m, k).code)
    case Relative => Some(Plus(mod.base, addend))
    case Unknown => None
    case Absolute =>
      (match SymbolValue(mod, imports, m, k)
       case Some(s) => Some(Plus(s, addend))
       case None => None)
    case Address =>
      (match SymbolValue(mod, imports, m, k)
       case Some(s) => Some(Plus(s, 0))
       case None => None)
  }

  // ---- Images that differ only in their slots ----

  ghost predicate InSlot(mod: Module, m: Bytes, p: nat)
    requires InBounds(mod, m)
  {
    exists k :: 0 <= k < Count(mod) && Slot(mod, m, k) <= p < Slot(mod, m, k) + 4
  }

  /** m is the image m0 with these words in its slots. */
  ghost predicate Holds(mod: Module, m0: Bytes, m: Bytes, words: seq<nat>)
    requires InBounds(mod, m0)
  {
    && |m| == |m0| && |words| == Count(mod)
    && (forall k :: 0 <= k < Count(mod) ==> Word(m, Slot(mod, m0, k)) == words[k])
    && (forall p :: 0 <= p < |m| && !InSlot(mod, m0, p) ==> m[p] == m0[p])
  }

  lemma WordSame(a: Bytes, b: Bytes, at: nat)
    requires |a| == |b| && at + 4 <= |a|
    requires forall p :: at <= p < at + 4 ==> a[p] == b[p]
    ensures Word(a, at) == Word(b, at)
  {
  }

  lemma WordAfterWrite(m: Bytes, at: nat, w: nat)
    requires at + 4 <= |m| && w < WORDS && m[at..at + 4] == PutU32(w)
    ensures Word(m, at) == w
  {
    GetPut(w, m, at);
  }

  /** Writing one slot changes that word and nothing else. */
  lemma WriteSlot(mod: Module, m0: Bytes, m: Bytes, words: seq<nat>, k: nat, w: nat, after: Bytes)
    requires InBounds(mod, m0) && Separate(mod, m0) && Holds(mod, m0, m, words)
    requires k < Count(mod) && w < WORDS && |after| == |m|
    requires after[Slot(mod, m0, k)..Slot(mod, m0, k) + 4] == PutU32(w)
    requires forall p :: 0 <= p < |m| && !(Slot(mod, m0, k) <= p < Slot(mod, m0, k) + 4) ==> after[p] == m[p]
    ensures Holds(mod, m0, after, words[k := w])
  {
    hide InBounds, Slot, Word, PutU32;
    forall j | 0 <= j < Count(mod)
      ensures Word(after, Slot(mod, m0, j)) == words[k := w][j]
    {
      if j == k {
        WordAfterWrite(after, Slot(mod, m0, k), w);
      } else {
        assert Apart(Slot(mod, m0, j), 4, Slot(mod, m0, k), 4) by {
          assert Apart(Slot(mod, m0, if j < k then j else k), 4, Slot(mod, m0, if j < k then k else j), 4);
        }
        WordSame(after, m, Slot(mod, m0, j));
      }
    }
    forall p | 0 <= p < |m| && !InSlot(mod, m0, p)
      ensures after[p] == m0[p]
    {
    }
  }

  lemma Initially(mod: Module, m: Bytes)
    requires InBounds(mod, m)
    ensures Holds(mod, m, m, Addends(mod, m))
  {
  }

  /** The words in the slots as loaded: the implicit addends. */
  function Addends(mod: Module, m: Bytes): (words: seq<nat>)
    requires InBounds(mod, m)
    ensures |words| == Count(mod)
  {
    seq(Count(mod), k requires 0 <= k < Count(mod) => Word(m, Slot(mod, m, k)))
  }

  lemma RegionKept(mod: Module, m0: Bytes, m: Bytes, words: seq<nat>, at: int, size: nat)
    requires InBounds(mod, m0) && Holds(mod, m0, m, words) && Inside(at, size, m0)
    requires forall j :: 0 <= j < Count(mod) ==> Apart(Slot(mod, m0, j), 4, at, size)
    ensures forall p :: at <= p < at + size ==> m[p] == m0[p]
  {
    hide InBounds, Slot, Word, Inside;
    assert at >= 0 && at + size <= |m0| by {
      InsideMeans(at, size, m0);
    }
    forall p | at <= p < at + size
      ensures m[p] == m0[p]
    {
      assert !InSlot(mod, m0, p);
    }
  }

  lemma InsideMeans(at: int, size: nat, m: Bytes)
    requires Inside(at, size, m)
    ensures 0 <= at && at + size <= |m|
  {
  }

  lemma {:induction false} StringSame(a: Bytes, b: Bytes, n: nat)
    requires 0 < n <= |a| && n <= |b| && a[n - 1] == 0
    requires forall p :: 0 <= p < n ==> a[p] == b[p]
    ensures UpToNul(a) == UpToNul(b)
  {
    if a[0] != 0 {
      StringSame(a[1..], b[1..], n - 1);
    }
  }

  lemma EntryKept(mod: Module, m0: Bytes, m: Bytes, words: seq<nat>, k: nat)
    requires InBounds(mod, m0) && Separate(mod, m0) && Holds(mod, m0, m, words) && k < Count(mod)
    ensures Inside(EntryAt(mod, k), REL_SIZE, m) && RelAt(m, EntryAt(mod, k)) == Entry(mod, m0, k)
  {
    hide Word, Slot;
    var at := EntryAt(mod, k);
    assert EntryInBounds(mod, m0, k);
    RegionKept(mod, m0, m, words, at, REL_SIZE);
    WordSame(m, m0, at);
    WordSame(m, m0, at + 4);
  }

  lemma SymbolKept(mod: Module, m0: Bytes, m: Bytes, words: seq<nat>, index: nat)
    requires InBounds(mod, m0) && Separate(mod, m0) && Holds(mod, m0, m, words) && index < mod.symbolCount
    ensures Inside(mod.symbols - mod.lowest + SYM_SIZE * index, SYM_SIZE, m)
    ensures SymbolAt(m, mod.symbols - mod.lowest + SYM_SIZE * index) == SymbolAt(m0, mod.symbols - mod.lowest + SYM_SIZE * index)
  {
    hide Word, Slot;
    var at := mod.symbols - mod.lowest + SYM_SIZE * index;
    RegionKept(mod, m0, m, words, mod.symbols - mod.lowest, SYM_SIZE * mod.symbolCount);
    WordSame(m, m0, at);
    WordSame(m, m0, at + 4);
  }

  lemma StringKept(mod: Module, m0: Bytes, m: Bytes, words: seq<nat>, name: nat)
    requires InBounds(mod, m0) && Separate(mod, m0) && Holds(mod, m0, m, words) && name < mod.stringsSize
    ensures m[mod.strings - mod.lowest + mod.stringsSize - 1] == 0
    ensures UpToNul(m[mod.strings - mod.lowest + name..]) == UpToNul(m0[mod.strings - mod.lowest + name..])
  {
    hide Word, Slot, UpToNul;
    var at := mod.strings - mod.lowest;
    RegionKept(mod, m0, m, words, at, mod.stringsSize);
    StringSame(m0[at + name..], m[at + name..], mod.stringsSize - name);
  }

  /** The tables read the same in every image that differs only in its slots. */
  lemma TablesKept(mod: Module, m0: Bytes, m: Bytes, words: seq<nat>)
    requires InBounds(mod, m0) && Separate(mod, m0) && Holds(mod, m0, m, words)
    ensures InBounds(mod, m)
    ensures forall k :: 0 <= k < Count(mod) ==>
              && Entry(mod, m, k) == Entry(mod, m0, k) && Slot(mod, m, k) == Slot(mod, m0, k)
              && SymbolOf(mod, m, k) == SymbolOf(mod, m0, k) && NameOf(mod, m, k) == NameOf(mod, m0, k)
  {
    hide Word, UpToNul, RelAt, SymbolAt, Separate, Holds;
    assert |m| == |m0| by {
      SameLength(mod, m0, m, words);
    }
    forall k | 0 <= k < Count(mod)
      ensures Inside(EntryAt(mod, k), REL_SIZE, m) && RelAt(m, EntryAt(mod, k)) == Entry(mod, m0, k)
      ensures var at := mod.symbols - mod.lowest + SYM_SIZE * Entry(mod, m0, k).symbol;
              Inside(at, SYM_SIZE, m) && SymbolAt(m, at) == SymbolAt(m0, at)
      ensures NameOf(mod, m0, k) == UpToNul(m[mod.strings - mod.lowest + SymbolOf(mod, m0, k).name..])
      ensures m[mod.strings - mod.lowest + mod.stringsSize - 1] == 0
    {
      assert EntryInBounds(mod, m0, k);
      EntryKept(mod, m0, m, words, k);
      SymbolKept(mod, m0, m, words, Entry(mod, m0, k).symbol);
      StringKept(mod, m0, m, words, SymbolOf(mod, m0, k).name);
    }
    StringKept(mod, m0, m, words, 0);
    forall k | 0 <= k < Count(mod)
      ensures EntryInBounds(mod, m, k)
    {
      assert EntryInBounds(mod, m0, k);
    }
  }

  lemma SameLength(mod: Module, m0: Bytes, m: Bytes, words: seq<nat>)
    requires InBounds(mod, m0) && Holds(mod, m0, m, words)
    ensures |m| == |m0|
  {
  }
}
