/** The two relocation passes of so_util.c and so_util_x86.c, over the loaded image in place. */
module ElfLink {
  import opened Wrappers
  import opened LittleEndian
  import opened ElfImage

  // ---- What the passes leave in each slot ----

  /** After so_relocate: symbols the module defines, and RELATIVE entries, are done; imports are as loaded. */
  function Relocated(arch: Arch, mod: Module, m: Bytes, k: nat): nat
    requires InBounds(mod, m) && k < Count(mod)
  {
    var addend, sym := Word(m, Slot(mod, m, k)), SymbolOf(mod, m, k);
    match MeaningOf(arch, Entry(mod, m, k).code)
    case Relative => Plus(mod.base, addend)
    case Absolute => if sym.defined then Plus(mod.base + sym.value, addend) else addend
    case Address => if sym.defined then Plus(mod.base + sym.value, 0) else addend
    case Unknown => addend
  }

  /** How so_resolve treats an import that nothing defines; the trap target exists only on i386. */
  datatype Policy = Policy(taint: bool, trap: nat)

  function Missing(arch: Arch, policy: Policy, mod: Module, m: Bytes, k: nat): nat
    requires InBounds(mod, m) && k < Count(mod)
  {
    var addend, entry := Word(m, Slot(mod, m, k)), Entry(mod, m, k);
    match arch
    case Arm => if policy.taint then entry.offset else addend
    case I386 =>
      if policy.taint && policy.trap != 0
      then Plus(policy.trap, if MeaningOf(arch, entry.code) == Absolute then addend else 0)
      else addend
  }

  /** After so_resolve: the ELF value, or the mark of a missing import. */
  function Final(arch: Arch, policy: Policy, mod: Module, imports: Imports, m: Bytes, k: nat): nat
    requires InBounds(mod, m) && k < Count(mod)
  {
    ElfValue(arch, mod, imports, m, k).GetOr(Missing(arch, policy, mod, m, k))
  }

  predicate Known(arch: Arch, mod: Module, m: Bytes, k: nat)
    requires InBounds(mod, m) && k < Count(mod)
  {
    MeaningOf(arch, Entry(mod, m, k).code) != Unknown
  }

  function FirstPass(arch: Arch, mod: Module, m: Bytes, done: nat): (words: seq<nat>)
    requires InBounds(mod, m) && done <= Count(mod)
    ensures |words| == Count(mod)
  {
    seq(Count(mod), k requires 0 <= k < Count(mod) =>
      if k < done then Relocated(arch, mod, m, k) else Word(m, Slot(mod, m, k)))
  }

  function SecondPass(arch: Arch, policy: Policy, mod: Module, imports: Imports, m: Bytes, done: nat): (words: seq<nat>)
    requires InBounds(mod, m) && done <= Count(mod)
    ensures |words| == Count(mod)
  {
    seq(Count(mod), k requires 0 <= k < Count(mod) =>
      if k < done then Final(arch, policy, mod, imports, m, k) else Relocated(arch, mod, m, k))
  }

  /** How many of the first entries have no ELF value. */
  function Unresolved(arch: Arch, mod: Module, imports: Imports, m: Bytes, done: nat): nat
    requires InBounds(mod, m) && done <= Count(mod)
  {
    if done == 0 then 0
    else Unresolved(arch, mod, imports, m, done - 1)
         + if ElfValue(arch, mod, imports, m, done - 1).None? then 1 else 0
  }

  lemma {:induction false} NoneUnresolved(arch: Arch, mod: Module, imports: Imports, m: Bytes, done: nat)
    requires InBounds(mod, m) && done <= Count(mod)
    ensures Unresolved(arch, mod, imports, m, done) == 0
       <==> forall k :: 0 <= k < done ==> ElfValue(arch, mod, imports, m, k).Some?
  {
    hide InBounds, ElfValue;
    if done > 0 {
      NoneUnresolved(arch, mod, imports, m, done - 1);
    }
  }

  // ---- Words of the image ----

  method ReadWord(image: array<byte>, at: nat) returns (w: nat)
    requires at + 4 <= image.Length
    ensures w == Word(image[..], at) && w < WORDS
  {
    w := Join(image[at], Join(image[at + 1], Join(image[at + 2], Join(image[at + 3], 0))));
    PutGet(image[..], at);
  }

  /** Stores a word in slot k. */
  method Store(image: array<byte>, at: nat, w: nat, ghost mod: Module, ghost m0: Bytes, ghost words: seq<nat>, ghost k: nat)
    requires InBounds(mod, m0) && Separate(mod, m0) && Holds(mod, m0, image[..], words)
    requires k < Count(mod) && at == Slot(mod, m0, k) && at + 4 <= image.Length && w < WORDS
    modifies image
    ensures Holds(mod, m0, image[..], words[k := w])
  {
    hide InBounds, Separate, Holds, Slot, Low, Rest;
    ghost var before := image[..];
    image[at] := Low(w);
    image[at + 1] := Low(Rest(w));
    image[at + 2] := Low(Rest(Rest(w)));
    image[at + 3] := Low(Rest(Rest(Rest(w))));
    assert image[at..at + 4] == PutU32(w);
    assert image[..][at..at + 4] == image[at..at + 4];
    WriteSlot(mod, m0, before, words, k, w, image[..]);
  }

  method ReadEntry(image: array<byte>, at: nat) returns (rel: Rel)
    requires at + REL_SIZE <= image.Length
    ensures rel == RelAt(image[..], at)
  {
    var offset := ReadWord(image, at);
    var info := ReadWord(image, at + 4);
    rel := Rel(offset, info / 256, info % 256);
  }

  method ReadSymbol(image: array<byte>, at: nat) returns (sym: Symbol)
    requires at + SYM_SIZE <= image.Length
    ensures sym == SymbolAt(image[..], at)
  {
    var name := ReadWord(image, at);
    var value := ReadWord(image, at + 4);
    sym := Symbol(name, value, image[at + 12] / 16 == 2, image[at + 14] != 0 || image[at + 15] != 0);
  }

  /** The name at a position; the string table's final NUL bounds the walk. */
  method ReadName(image: array<byte>, at: nat, ghost end: nat) returns (name: Bytes)
    requires at <= end < image.Length && image[end] == 0
    ensures name == UpToNul(image[at..])
  {
    var p := at;
    name := [];
    while image[p] != 0
      invariant at <= p <= end
      invariant name + UpToNul(image[p..]) == UpToNul(image[at..])
      decreases end - p
    {
      assert image[p..][1..] == image[p + 1..];
      name := name + [image[p]];
      p := p + 1;
    }
  }

  method LookUp(imports: Imports, name: Bytes) returns (found: Option<nat>)
    ensures found == Import(imports, name)
  {
    var k := 0;
    assert imports.table[0..] == imports.table;
    while k < |imports.table|
      invariant k <= |imports.table|
      invariant FromTable(imports.table[k..], name) == FromTable(imports.table, name)
    {
      if imports.table[k].symbol == name {
        return Some(imports.table[k].address);
      }
      assert imports.table[k..][1..] == imports.table[k + 1..];
      k := k + 1;
    }
    found := FromHost(imports.host, name);
  }

  // ---- so_relocate ----

  /** The switch of so_util.c. */
  method RelocateArm(image: array<byte>, mod: Module, at: nat, ghost m0: Bytes, ghost k: nat) returns (known: bool)
    requires InBounds(mod, m0) && Separate(mod, m0) && k < Count(mod) && at == EntryAt(mod, k)
    requires Holds(mod, m0, image[..], FirstPass(Arm, mod, m0, k))
    modifies image
    ensures known == Known(Arm, mod, m0, k)
    ensures known ==> Holds(mod, m0, image[..], FirstPass(Arm, mod, m0, k + 1))
  {
    hide InBounds, Separate, Holds, FirstPass, SymbolAt, RelAt;
    ghost var words := FirstPass(Arm, mod, m0, k);
    var rel, slot, sym := Fields(image, mod, at, m0, words, k);
    var word := ReadWord(image, slot);
    WordInSlot(mod, m0, image[..], words, k);
    FirstPassNext(Arm, mod, m0, k);
    known := true;
    if rel.code == 2 {
      if sym.defined {
        Store(image, slot, Plus(mod.base + sym.value, word), mod, m0, words, k);
      }
    } else if rel.code == 23 {
      Store(image, slot, Plus(mod.base, word), mod, m0, words, k);
    } else if rel.code == 21 || rel.code == 22 {
      if sym.defined {
        Store(image, slot, Plus(mod.base + sym.value, 0), mod, m0, words, k);
      }
    } else {
      known := false;
    }
  }

  /** The switch of so_util_x86.c. */
  method RelocateI386(image: array<byte>, mod: Module, at: nat, ghost m0: Bytes, ghost k: nat) returns (known: bool)
    requires InBounds(mod, m0) && Separate(mod, m0) && k < Count(mod) && at == EntryAt(mod, k)
    requires Holds(mod, m0, image[..], FirstPass(I386, mod, m0, k))
    modifies image
    ensures known == Known(I386, mod, m0, k)
    ensures known ==> Holds(mod, m0, image[..], FirstPass(I386, mod, m0, k + 1))
  {
    hide InBounds, Separate, Holds, FirstPass, SymbolAt, RelAt;
    ghost var words := FirstPass(I386, mod, m0, k);
    var rel, slot, sym := Fields(image, mod, at, m0, words, k);
    var word := ReadWord(image, slot);
    WordInSlot(mod, m0, image[..], words, k);
    FirstPassNext(I386, mod, m0, k);
    known := true;
    if rel.code == 1 {
      if sym.defined {
        Store(image, slot, Plus(mod.base + sym.value, word), mod, m0, words, k);
      }
    } else if rel.code == 8 {
      Store(image, slot, Plus(mod.base, word), mod, m0, words, k);
    } else if rel.code == 6 || rel.code == 7 {
      if sym.defined {
        Store(image, slot, Plus(mod.base + sym.value, 0), mod, m0, words, k);
      }
    } else {
      known := false;
    }
  }

  /** The entry, its slot and its symbol, read from an image that differs from m0 only in its slots. */
  method Fields(image: array<byte>, mod: Module, at: nat, ghost m0: Bytes, ghost words: seq<nat>, ghost k: nat)
    returns (rel: Rel, slot: nat, sym: Symbol)
    requires InBounds(mod, m0) && Separate(mod, m0) && Holds(mod, m0, image[..], words)
    requires k < Count(mod) && at == EntryAt(mod, k)
    ensures rel == Entry(mod, m0, k) && slot == Slot(mod, m0, k) && sym == SymbolOf(mod, m0, k)
    ensures slot + 4 <= image.Length && rel.offset < WORDS
  {
    hide Separate, Holds, SymbolAt;
    TablesKept(mod, m0, image[..], words);
    assert EntryInBounds(mod, image[..], k);
    assert Slot(mod, image[..], k) == Slot(mod, m0, k);
    rel := ReadEntry(image, at);
    slot := rel.offset - mod.lowest;
    sym := ReadSymbol(image, mod.symbols - mod.lowest + SYM_SIZE * rel.symbol);
  }

  lemma WordInSlot(mod: Module, m0: Bytes, m: Bytes, words: seq<nat>, k: nat)
    requires InBounds(mod, m0) && Holds(mod, m0, m, words) && k < Count(mod)
    ensures |m| == |m0| && |words| == Count(mod) && Word(m, Slot(mod, m0, k)) == words[k]
  {
    hide InBounds, Word, Slot;
  }

  lemma FirstPassNext(arch: Arch, mod: Module, m: Bytes, k: nat)
    requires InBounds(mod, m) && k < Count(mod)
    ensures FirstPass(arch, mod, m, k)[k] == Word(m, Slot(mod, m, k))
    ensures FirstPass(arch, mod, m, k + 1) == FirstPass(arch, mod, m, k)[k := Relocated(arch, mod, m, k)]
    ensures Relocated(arch, mod, m, k) == Word(m, Slot(mod, m, k))
        ==> FirstPass(arch, mod, m, k + 1) == FirstPass(arch, mod, m, k)
  {
    hide InBounds, Word, Slot, Relocated;
  }

  method RelocateEntry(arch: Arch, image: array<byte>, mod: Module, at: nat, ghost m0: Bytes, ghost k: nat)
    returns (known: bool)
    requires InBounds(mod, m0) && Separate(mod, m0) && k < Count(mod) && at == EntryAt(mod, k)
    requires Holds(mod, m0, image[..], FirstPass(arch, mod, m0, k))
    modifies image
    ensures known == Known(arch, mod, m0, k)
    ensures known ==> Holds(mod, m0, image[..], FirstPass(arch, mod, m0, k + 1))
  {
    hide InBounds, Separate, Holds, FirstPass;
    match arch
    case Arm => known := RelocateArm(image, mod, at, m0, k);
    case I386 => known := RelocateI386(image, mod, at, m0, k);
  }

  lemma EntryOfSection(mod: Module, i: nat, j: nat)
    requires i < |mod.sections| && j < |EntriesOf(mod.sections[i], mod.lowest)|
    ensures var before := |Entries(mod.sections[..i], mod.lowest)|;
            before + j < Count(mod) && EntryAt(mod, before + j) == EntriesOf(mod.sections[i], mod.lowest)[j]
  {
    hide EntriesOf;
    EntriesPrefix(mod.sections, mod.lowest, i + 1);
    assert mod.sections[..i + 1][..i] == mod.sections[..i];
  }

  lemma {:induction false} EntriesPrefix(sections: seq<Section>, lowest: nat, n: nat)
    requires n <= |sections|
    ensures Entries(sections[..n], lowest) <= Entries(sections, lowest)
  {
    hide EntriesOf;
    if n == |sections| {
      assert sections[..n] == sections;
    } else {
      EntriesPrefix(sections[..|sections| - 1], lowest, n);
      assert sections[..|sections| - 1][..n] == sections[..n];
    }
  }

  lemma EntriesNext(mod: Module, i: nat)
    requires i < |mod.sections|
    ensures |Entries(mod.sections[..i + 1], mod.lowest)|
         == |Entries(mod.sections[..i], mod.lowest)| + |EntriesOf(mod.sections[i], mod.lowest)|
  {
    hide EntriesOf;
    assert mod.sections[..i + 1][..i] == mod.sections[..i];
  }

  /** so_relocate: an unknown type is fatal; otherwise the whole first pass is done. */
  method Relocate(arch: Arch, image: array<byte>, mod: Module) returns (fatal: bool)
    requires InBounds(mod, image[..]) && Separate(mod, image[..])
    modifies image
    ensures !fatal <==> forall k :: 0 <= k < Count(mod) ==> Known(arch, mod, old(image[..]), k)
    ensures !fatal ==> Holds(mod, old(image[..]), image[..], FirstPass(arch, mod, old(image[..]), Count(mod)))
  {
    hide InBounds, Separate, Holds, FirstPass, EntriesOf, Known, Entries;
    ghost var m0 := image[..];
    Starts(arch, mod, m0);
    ghost var done := 0;
    var i := 0;
    while i < |mod.sections|
      invariant i <= |mod.sections| && done == |Entries(mod.sections[..i], mod.lowest)| <= Count(mod)
      invariant InBounds(mod, m0) && Separate(mod, m0)
      invariant Holds(mod, m0, image[..], FirstPass(arch, mod, m0, done))
      invariant forall k :: 0 <= k < done ==> Known(arch, mod, m0, k)
    {
      var section := mod.sections[i];
      SectionEntries(section, mod.lowest);
      if section.IsRel() {
        var j := 0;
        while j < section.size / REL_SIZE
          invariant j <= section.size / REL_SIZE
          invariant done == |Entries(mod.sections[..i], mod.lowest)| + j <= Count(mod)
          invariant InBounds(mod, m0) && Separate(mod, m0)
          invariant Holds(mod, m0, image[..], FirstPass(arch, mod, m0, done))
          invariant forall k :: 0 <= k < done ==> Known(arch, mod, m0, k)
        {
          EntryOfSection(mod, i, j);
          EntryPlace(mod, m0, done);
          var known := RelocateEntry(arch, image, mod, section.address - mod.lowest + REL_SIZE * j, m0, done);
          if !known {
            return true;
          }
          done := done + 1;
          j := j + 1;
        }
      }
      EntriesNext(mod, i);
      EntriesPrefix(mod.sections, mod.lowest, i + 1);
      i := i + 1;
    }
    assert mod.sections[..i] == mod.sections;
    fatal := false;
  }

  lemma SectionEntries(s: Section, lowest: nat)
    ensures |EntriesOf(s, lowest)| == if s.IsRel() then s.size / REL_SIZE else 0
    ensures forall j :: 0 <= j < |EntriesOf(s, lowest)| ==> EntriesOf(s, lowest)[j] == s.address - lowest + REL_SIZE * j
  {
  }

  lemma EntryPlace(mod: Module, m: Bytes, k: nat)
    requires InBounds(mod, m) && k < Count(mod)
    ensures EntryAt(mod, k) >= 0
  {
    assert EntryInBounds(mod, m, k);
  }

  lemma Starts(arch: Arch, mod: Module, m: Bytes)
    requires InBounds(mod, m)
    ensures Holds(mod, m, m, FirstPass(arch, mod, m, 0))
    ensures |Entries(mod.sections[..0], mod.lowest)| == 0
  {
    hide InBounds;
    assert FirstPass(arch, mod, m, 0) == Addends(mod, m);
    Initially(mod, m);
  }

  // ---- so_resolve ----

  lemma SecondPassNext(arch: Arch, policy: Policy, mod: Module, imports: Imports, m: Bytes, k: nat)
    requires InBounds(mod, m) && k < Count(mod)
    ensures SecondPass(arch, policy, mod, imports, m, k)[k] == Relocated(arch, mod, m, k)
    ensures SecondPass(arch, policy, mod, imports, m, k + 1)
         == SecondPass(arch, policy, mod, imports, m, k)[k := Final(arch, policy, mod, imports, m, k)]
    ensures Final(arch, policy, mod, imports, m, k) == Relocated(arch, mod, m, k)
        ==> SecondPass(arch, policy, mod, imports, m, k + 1) == SecondPass(arch, policy, mod, imports, m, k)
  {
    hide InBounds, Word, Slot, Relocated, Final;
  }

  /** Is this an entry that the second pass looks up? */
  predicate Imported(arch: Arch, mod: Module, m: Bytes, k: nat)
    requires InBounds(mod, m) && k < Count(mod)
  {
    var meaning := MeaningOf(arch, Entry(mod, m, k).code);
    (meaning == Absolute || meaning == Address) && !SymbolOf(mod, m, k).defined
  }

  lemma AlreadyFinal(arch: Arch, policy: Policy, mod: Module, imports: Imports, m: Bytes, k: nat)
    requires InBounds(mod, m) && k < Count(mod) && Known(arch, mod, m, k) && !Imported(arch, mod, m, k)
    ensures ElfValue(arch, mod, imports, m, k) == Some(Relocated(arch, mod, m, k))
  {
    hide InBounds, Word, Slot, SymbolOf, Entry;
  }

  /** For an import, the word found in the slot is still the addend as loaded. */
  lemma ImportedValue(arch: Arch, mod: Module, imports: Imports, m: Bytes, k: nat)
    requires InBounds(mod, m) && k < Count(mod) && Imported(arch, mod, m, k)
    ensures var addend := Word(m, Slot(mod, m, k));
            var sym, name := SymbolOf(mod, m, k), NameOf(mod, m, k);
            var applied := if MeaningOf(arch, Entry(mod, m, k).code) == Absolute then addend else 0;
            && Relocated(arch, mod, m, k) == addend
            && ElfValue(arch, mod, imports, m, k)
            == (match Import(imports, name)
                case Some(a) => Some(Plus(a, applied))
                case None => if sym.weak then Some(Plus(0, applied)) else None)
  {
    hide InBounds, Word, Slot, SymbolOf, Entry, NameOf, Import;
  }

  /** The switch of so_util.c: an import is tainted first, and then overwritten when it is found or weak. */
  method ResolveArm(image: array<byte>, mod: Module, imports: Imports, policy: Policy, at: nat, ghost m0: Bytes, ghost k: nat)
    returns (missing: bool)
    requires InBounds(mod, m0) && Separate(mod, m0) && k < Count(mod) && at == EntryAt(mod, k)
    requires Holds(mod, m0, image[..], SecondPass(Arm, policy, mod, imports, m0, k)) && Known(Arm, mod, m0, k)
    modifies image
    ensures missing == ElfValue(Arm, mod, imports, m0, k).None?
    ensures Holds(mod, m0, image[..], SecondPass(Arm, policy, mod, imports, m0, k + 1))
  {
    hide InBounds, Separate, Holds, SecondPass, SymbolAt, RelAt, SymbolOf, Slot, NameOf, Entry, ElfValue, Relocated, Word;
    ghost var words := SecondPass(Arm, policy, mod, imports, m0, k);
    var rel, slot, sym := Fields(image, mod, at, m0, words, k);
    SecondPassNext(Arm, policy, mod, imports, m0, k);
    missing := false;
    if (rel.code == 21 || rel.code == 22 || rel.code == 2) && !sym.defined {
      ImportedValue(Arm, mod, imports, m0, k);
      WordInSlot(mod, m0, image[..], words, k);
      var word := ReadWord(image, slot);
      var addend := if rel.code == 2 then word else 0;
      var name := NameField(image, mod, sym, m0, words, k);
      if policy.taint {
        Store(image, slot, rel.offset, mod, m0, words, k);
        words := words[k := rel.offset];
      }
      ghost var final := Final(Arm, policy, mod, imports, m0, k);
      assert words[k := final] == SecondPass(Arm, policy, mod, imports, m0, k)[k := final];
      var found := LookUp(imports, name);
      if found.Some? {
        Store(image, slot, Plus(found.value, addend), mod, m0, words, k);
      } else if sym.weak {
        Store(image, slot, addend, mod, m0, words, k);
      } else {
        missing := true;
      }
    } else {
      AlreadyFinal(Arm, policy, mod, imports, m0, k);
    }
  }

  /** The switch of so_util_x86.c: a missing import goes to the trap target, when there is one. */
  method ResolveI386(image: array<byte>, mod: Module, imports: Imports, policy: Policy, at: nat, ghost m0: Bytes, ghost k: nat)
    returns (missing: bool)
    requires InBounds(mod, m0) && Separate(mod, m0) && k < Count(mod) && at == EntryAt(mod, k)
    requires Holds(mod, m0, image[..], SecondPass(I386, policy, mod, imports, m0, k)) && Known(I386, mod, m0, k)
    modifies image
    ensures missing == ElfValue(I386, mod, imports, m0, k).None?
    ensures Holds(mod, m0, image[..], SecondPass(I386, policy, mod, imports, m0, k + 1))
  {
    hide InBounds, Separate, Holds, SecondPass, SymbolAt, RelAt, SymbolOf, Slot, NameOf, Entry, ElfValue, Relocated, Word;
    ghost var words := SecondPass(I386, policy, mod, imports, m0, k);
    var rel, slot, sym := Fields(image, mod, at, m0, words, k);
    SecondPassNext(I386, policy, mod, imports, m0, k);
    missing := false;
    if (rel.code == 6 || rel.code == 7 || rel.code == 1) && !sym.defined {
      ImportedValue(I386, mod, imports, m0, k);
      WordInSlot(mod, m0, image[..], words, k);
      var word := ReadWord(image, slot);
      var addend := if rel.code == 1 then word else 0;
      var name := NameField(image, mod, sym, m0, words, k);
      var found := LookUp(imports, name);
      if found.Some? {
        Store(image, slot, Plus(found.value, addend), mod, m0, words, k);
      } else if sym.weak {
        Store(image, slot, addend, mod, m0, words, k);
      } else {
        missing := true;
        if policy.taint && policy.trap != 0 {
          Store(image, slot, Plus(policy.trap, addend), mod, m0, words, k);
        }
      }
    } else {
      AlreadyFinal(I386, policy, mod, imports, m0, k);
    }
  }

  method NameField(image: array<byte>, mod: Module, sym: Symbol, ghost m0: Bytes, ghost words: seq<nat>, ghost k: nat)
    returns (name: Bytes)
    requires InBounds(mod, m0) && Separate(mod, m0) && Holds(mod, m0, image[..], words)
    requires k < Count(mod) && sym == SymbolOf(mod, m0, k)
    ensures name == NameOf(mod, m0, k)
  {
    hide Separate, Holds, SymbolAt, RelAt;
    TablesKept(mod, m0, image[..], words);
    assert NameOf(mod, image[..], k) == NameOf(mod, m0, k) && SymbolOf(mod, image[..], k) == sym;
    ghost var end := mod.strings - mod.lowest + mod.stringsSize - 1;
    name := ReadName(image, mod.strings - mod.lowest + sym.name, end);
    assert image[..][mod.strings - mod.lowest + sym.name..] == image[mod.strings - mod.lowest + sym.name..];
  }

  method ResolveEntry(arch: Arch, image: array<byte>, mod: Module, imports: Imports, policy: Policy, at: nat,
                      ghost m0: Bytes, ghost k: nat)
    returns (missing: bool)
    requires InBounds(mod, m0) && Separate(mod, m0) && k < Count(mod) && at == EntryAt(mod, k)
    requires Holds(mod, m0, image[..], SecondPass(arch, policy, mod, imports, m0, k)) && Known(arch, mod, m0, k)
    modifies image
    ensures missing == ElfValue(arch, mod, imports, m0, k).None?
    ensures Holds(mod, m0, image[..], SecondPass(arch, policy, mod, imports, m0, k + 1))
  {
    hide InBounds, Separate, Holds, SecondPass, Known, ElfValue;
    match arch
    case Arm => missing := ResolveArm(image, mod, imports, policy, at, m0, k);
    case I386 => missing := ResolveI386(image, mod, imports, policy, at, m0, k);
  }

  /** so_resolve on an image that so_relocate has finished; it returns how many imports are missing. */
  method Resolve(arch: Arch, image: array<byte>, mod: Module, imports: Imports, policy: Policy, ghost m0: Bytes)
    returns (unresolved: nat)
    requires InBounds(mod, m0) && Separate(mod, m0)
    requires forall k :: 0 <= k < Count(mod) ==> Known(arch, mod, m0, k)
    requires Holds(mod, m0, image[..], FirstPass(arch, mod, m0, Count(mod)))
    modifies image
    ensures unresolved == Unresolved(arch, mod, imports, m0, Count(mod))
    ensures Holds(mod, m0, image[..], SecondPass(arch, policy, mod, imports, m0, Count(mod)))
  {
    hide InBounds, Separate, Holds, FirstPass, SecondPass, EntriesOf, Known, Entries, ElfValue;
    PassesMeet(arch, policy, mod, imports, m0);
    Starts(arch, mod, m0);
    unresolved := 0;
    ghost var done := 0;
    var i := 0;
    while i < |mod.sections|
      invariant i <= |mod.sections| && done == |Entries(mod.sections[..i], mod.lowest)| <= Count(mod)
      invariant Holds(mod, m0, image[..], SecondPass(arch, policy, mod, imports, m0, done))
      invariant unresolved == Unresolved(arch, mod, imports, m0, done)
    {
      var section := mod.sections[i];
      SectionEntries(section, mod.lowest);
      if section.IsRel() {
        var j := 0;
        while j < section.size / REL_SIZE
          invariant j <= section.size / REL_SIZE
          invariant done == |Entries(mod.sections[..i], mod.lowest)| + j <= Count(mod)
          invariant Holds(mod, m0, image[..], SecondPass(arch, policy, mod, imports, m0, done))
          invariant unresolved == Unresolved(arch, mod, imports, m0, done)
        {
          EntryOfSection(mod, i, j);
          EntryPlace(mod, m0, done);
          var missing := ResolveEntry(arch, image, mod, imports, policy, section.address - mod.lowest + REL_SIZE * j, m0, done);
          if missing {
            unresolved := unresolved + 1;
          }
          done := done + 1;
          j := j + 1;
        }
      }
      EntriesNext(mod, i);
      EntriesPrefix(mod.sections, mod.lowest, i + 1);
      i := i + 1;
    }
    assert mod.sections[..i] == mod.sections;
  }

  lemma PassesMeet(arch: Arch, policy: Policy, mod: Module, imports: Imports, m: Bytes)
    requires InBounds(mod, m)
    ensures FirstPass(arch, mod, m, Count(mod)) == SecondPass(arch, policy, mod, imports, m, 0)
  {
    hide InBounds, Relocated, Final;
  }

  // ---- Both passes together ----

  /** The slots hold their one-pass ELF values, and every other byte is as loaded. */
  ghost predicate Linked(arch: Arch, mod: Module, imports: Imports, m0: Bytes, m: Bytes)
    requires InBounds(mod, m0)
  {
    && |m| == |m0|
    && (forall k :: 0 <= k < Count(mod) ==> ElfValue(arch, mod, imports, m0, k) == Some(Word(m, Slot(mod, m0, k))))
    && (forall p :: 0 <= p < |m| && !InSlot(mod, m0, p) ==> m[p] == m0[p])
  }

  /** so_relocate and then so_resolve: nothing fatal and no missing import if and only if every slot has an ELF value. */
  method Link(arch: Arch, image: array<byte>, mod: Module, imports: Imports, policy: Policy)
    returns (fatal: bool, unresolved: nat)
    requires InBounds(mod, image[..]) && Separate(mod, image[..])
    modifies image
    ensures !fatal <==> forall k :: 0 <= k < Count(mod) ==> Known(arch, mod, old(image[..]), k)
    ensures !fatal ==> unresolved == Unresolved(arch, mod, imports, old(image[..]), Count(mod))
    ensures !fatal ==> Holds(mod, old(image[..]), image[..],
                             SecondPass(arch, policy, mod, imports, old(image[..]), Count(mod)))
    ensures !fatal && unresolved == 0 ==> Linked(arch, mod, imports, old(image[..]), image[..])
  {
    hide InBounds, Separate, Holds, FirstPass, SecondPass, Known, ElfValue, Unresolved, Linked;
    ghost var m0 := image[..];
    unresolved := 0;
    fatal := Relocate(arch, image, mod);
    if !fatal {
      unresolved := Resolve(arch, image, mod, imports, policy, m0);
      if unresolved == 0 {
        NoneMissing(arch, policy, mod, imports, m0, image[..]);
      }
    }
  }

  lemma NoneMissing(arch: Arch, policy: Policy, mod: Module, imports: Imports, m0: Bytes, m: Bytes)
    requires InBounds(mod, m0) && Unresolved(arch, mod, imports, m0, Count(mod)) == 0
    requires Holds(mod, m0, m, SecondPass(arch, policy, mod, imports, m0, Count(mod)))
    ensures Linked(arch, mod, imports, m0, m)
  {
    hide InBounds, ElfValue, Missing, Word, Slot;
    NoneUnresolved(arch, mod, imports, m0, Count(mod));
  }

  // ---- The two architectures ----

  /** The i386 code with the meaning of an Arm code. */
  function Recoded(code: nat): nat {
    if code == 2 then 1 else if code == 21 then 6 else if code == 22 then 7 else if code == 23 then 8 else 0
  }

  /** The same slots, symbols, names and addends, with codes that mean the same. */
  predicate Corresponds(mod: Module, a: Bytes, b: Bytes, k: nat)
    requires InBounds(mod, a) && InBounds(mod, b) && k < Count(mod)
  {
    && Entry(mod, b, k).code == Recoded(Entry(mod, a, k).code) && Slot(mod, a, k) == Slot(mod, b, k)
    && SymbolOf(mod, a, k) == SymbolOf(mod, b, k) && NameOf(mod, a, k) == NameOf(mod, b, k)
    && Word(a, Slot(mod, a, k)) == Word(b, Slot(mod, b, k))
  }

  lemma SameValues(mod: Module, imports: Imports, a: Bytes, b: Bytes, k: nat)
    requires InBounds(mod, a) && InBounds(mod, b) && k < Count(mod) && Corresponds(mod, a, b, k)
    ensures ElfValue(Arm, mod, imports, a, k) == ElfValue(I386, mod, imports, b, k)
    ensures Known(Arm, mod, a, k) <==> Known(I386, mod, b, k)
  {
    hide InBounds, Slot, SymbolOf, Entry, NameOf, Word;
  }

  lemma {:induction false} SameCount(mod: Module, imports: Imports, a: Bytes, b: Bytes, done: nat)
    requires InBounds(mod, a) && InBounds(mod, b) && done <= Count(mod)
    requires forall k :: 0 <= k < done ==> Corresponds(mod, a, b, k)
    ensures Unresolved(Arm, mod, imports, a, done) == Unresolved(I386, mod, imports, b, done)
  {
    hide InBounds, Corresponds, ElfValue;
    if done > 0 {
      SameCount(mod, imports, a, b, done - 1);
      SameValues(mod, imports, a, b, done - 1);
    }
  }

  /**
   What the two loaders leave in corresponding images: both stop or neither
   does, they report the same number of missing imports, every slot with an ELF
   value holds the same word in both, and everything else is as loaded.
   */
  lemma SameImages(mod: Module, imports: Imports, arm: Policy, i386: Policy, a: Bytes, b: Bytes, linkedA: Bytes, linkedB: Bytes)
    requires InBounds(mod, a) && InBounds(mod, b)
    requires forall k :: 0 <= k < Count(mod) ==> Corresponds(mod, a, b, k)
    requires Holds(mod, a, linkedA, SecondPass(Arm, arm, mod, imports, a, Count(mod)))
    requires Holds(mod, b, linkedB, SecondPass(I386, i386, mod, imports, b, Count(mod)))
    ensures (forall k :: 0 <= k < Count(mod) ==> Known(Arm, mod, a, k)) <==> (forall k :: 0 <= k < Count(mod) ==> Known(I386, mod, b, k))
    ensures Unresolved(Arm, mod, imports, a, Count(mod)) == Unresolved(I386, mod, imports, b, Count(mod))
    ensures forall k :: 0 <= k < Count(mod) && ElfValue(Arm, mod, imports, a, k).Some? ==>
              && |linkedA| == |a| && |linkedB| == |b| && Slot(mod, b, k) == Slot(mod, a, k)
              && Word(linkedA, Slot(mod, a, k)) == Word(linkedB, Slot(mod, b, k)) == ElfValue(Arm, mod, imports, a, k).value
    ensures forall p :: 0 <= p < |a| && p < |b| && !InSlot(mod, a, p) ==>
              !InSlot(mod, b, p) && |linkedA| == |a| && |linkedB| == |b| && linkedA[p] == a[p] && linkedB[p] == b[p]
  {
    hide InBounds, Corresponds, ElfValue, Known, Missing, Word, Slot, Unresolved;
    SameCount(mod, imports, a, b, Count(mod));
    forall k | 0 <= k < Count(mod)
      ensures ElfValue(Arm, mod, imports, a, k) == ElfValue(I386, mod, imports, b, k)
      ensures Known(Arm, mod, a, k) <==> Known(I386, mod, b, k)
      ensures Slot(mod, b, k) == Slot(mod, a, k)
    {
      SameValues(mod, imports, a, b, k);
      SameSlot(mod, a, b, k);
    }
  }

  lemma SameSlot(mod: Module, a: Bytes, b: Bytes, k: nat)
    requires InBounds(mod, a) && InBounds(mod, b) && k < Count(mod) && Corresponds(mod, a, b, k)
    ensures Slot(mod, b, k) == Slot(mod, a, k)
  {
  }
}
