/** The interpreter's symbol bookkeeping (`tcci_set_interp_symbol` and the publish filter of
    `tcci_relocate_into_memory` in tccrun.c), on values. `symbols`, `hash_to_addr` and
    `addr_to_addr` are keyed hash tables; memory is pointer-sized cells by address, of which only
    the GOT slots are ever written here. */
module SymbolTables {
  import opened Common
  import opened StringHash

  /** An `unsigned char` field of an ELF symbol. */
  type Byte = x: int | 0 <= x < 256

  /** Binding, type and visibility codes of the System V ELF ABI. */
  const STB_LOCAL: Byte := 0
  const STB_GLOBAL: Byte := 1
  const STT_FUNC: Byte := 2
  const STV_DEFAULT: Byte := 0

  /** ELF64_ST_BIND, ELF64_ST_TYPE and ELF64_ST_VISIBILITY: `info >> 4`, `info & 0xf` and
      `other & 0x3`. */
  function Bind(info: Byte): Byte { info / 16 }
  function SymType(info: Byte): Byte { info % 16 }
  function Visibility(other: Byte): Byte { other % 4 }

  /** "<unknown-file>", the filename recorded when none is given. */
  const UNKNOWN_FILE: CString :=
    [0x3c, 0x75, 0x6e, 0x6b, 0x6e, 0x6f, 0x77, 0x6e, 0x2d, 0x66, 0x69, 0x6c, 0x65, 0x3e]

  /** A `TCCISymbol`: name, defining file, binding, type, current address and the GOT slots that
      hold its address. */
  datatype SymbolRecord = SymbolRecord(name: CString, filename: CString, binding: Byte, symType: Byte,
                                       addr: Word, gotUsers: seq<Word>)

  /** The three tables and the memory cells the interpreter writes. */
  datatype Tables = Tables(symbols: map<Word, SymbolRecord>, hashToAddr: map<Word, Word>,
                           addrToAddr: map<Word, Word>, memory: map<Word, Word>)

  /** The key of a symbol: djb2 of its name, multiplied (modulo 2^64) by djb2 of its file for a
      `STB_LOCAL` symbol. A local symbol without a file would hash a NULL string. */
  function SymbolKey(name: CString, filename: Option<CString>, binding: Byte): Word
    requires binding == STB_LOCAL ==> filename.Some?
  {
    if binding == STB_LOCAL then (Djb2(name) * Djb2(filename.value)) % WORD_MOD else Djb2(name)
  }

  /** Memory after `*(void **)got_users[b] = addr` for b = 0 .. |users| - 1. */
  function Patch(memory: map<Word, Word>, users: seq<Word>, addr: Word): map<Word, Word>
    decreases |users|
  {
    if users == [] then memory
    else Patch(memory, users[..|users| - 1], addr)[users[|users| - 1] := addr]
  }

  /** The patch writes addr into every listed slot and leaves every other cell as it was. */
  lemma {:induction false} PatchWrites(memory: map<Word, Word>, users: seq<Word>, addr: Word)
    ensures forall p :: p in users ==> p in Patch(memory, users, addr) && Patch(memory, users, addr)[p] == addr
    ensures forall p :: p !in users ==> (p in Patch(memory, users, addr) <==> p in memory)
    ensures forall p :: p !in users && p in memory ==> Patch(memory, users, addr)[p] == memory[p]
    decreases |users|
  {
    if users != [] {
      var init := users[..|users| - 1];
      PatchWrites(memory, init, addr);
      assert users == init + [users[|users| - 1]];
    }
  }

  /** `tcci_set_interp_symbol` on the tables. An existing key keeps its record (name, file and GOT
      users) with new binding, type and address. hash_to_addr maps the key to the new address,
      addr_to_addr maps the old address to it, and every GOT user is patched. A new key gets a
      fresh record, with the file defaulting to "<unknown-file>", and only a hash_to_addr entry. */
  function SetSymbol(t: Tables, filename: Option<CString>, name: CString, binding: Byte, symType: Byte,
                     addr: Word): Tables
    requires binding == STB_LOCAL ==> filename.Some?
  {
    var key := SymbolKey(name, filename, binding);
    if key in t.symbols then
      var prior := t.symbols[key];
      Tables(t.symbols[key := prior.(binding := binding, symType := symType, addr := addr)],
             t.hashToAddr[key := addr], t.addrToAddr[prior.addr := addr],
             Patch(t.memory, prior.gotUsers, addr))
    else
      Tables(t.symbols[key := SymbolRecord(name, filename.GetOr(UNKNOWN_FILE), binding, symType, addr, [])],
             t.hashToAddr[key := addr], t.addrToAddr, t.memory)
  }

  /** The address the interpreter resolves a key to afterwards is the new one, and every other
      symbol and hash_to_addr entry is untouched. */
  lemma Lookup(t: Tables, filename: Option<CString>, name: CString, binding: Byte, symType: Byte, addr: Word)
    requires binding == STB_LOCAL ==> filename.Some?
    ensures var key := SymbolKey(name, filename, binding);
      var r := SetSymbol(t, filename, name, binding, symType, addr);
      && key in r.symbols && r.symbols[key].addr == addr
      && r.symbols[key].binding == binding && r.symbols[key].symType == symType
      && r.hashToAddr == t.hashToAddr[key := addr]
      && r.symbols.Keys == t.symbols.Keys + {key}
      && (forall k :: k in t.symbols && k != key ==> r.symbols[k] == t.symbols[k])
  {
  }

  /** A first definition creates a record for the name and file (or "<unknown-file>") with no GOT
      users, and writes neither addr_to_addr nor memory. */
  lemma FirstDefinition(t: Tables, filename: Option<CString>, name: CString, binding: Byte, symType: Byte,
                        addr: Word)
    requires binding == STB_LOCAL ==> filename.Some?
    requires SymbolKey(name, filename, binding) !in t.symbols
    ensures var key := SymbolKey(name, filename, binding);
      var r := SetSymbol(t, filename, name, binding, symType, addr);
      && r.symbols[key].name == name
      && r.symbols[key].filename == (if filename.Some? then filename.value else UNKNOWN_FILE)
      && r.symbols[key].gotUsers == []
      && r.addrToAddr == t.addrToAddr && r.memory == t.memory
  {
  }

  /** A redefinition keeps the record's name, file and GOT users. It records old address -> new
      address without rewriting older pairs. Every GOT slot of the symbol then holds the new
      address, and no other memory cell changes. */
  lemma Redefinition(t: Tables, filename: Option<CString>, name: CString, binding: Byte, symType: Byte,
                     addr: Word)
    requires binding == STB_LOCAL ==> filename.Some?
    requires SymbolKey(name, filename, binding) in t.symbols
    ensures var key := SymbolKey(name, filename, binding);
      var prior := t.symbols[key];
      var r := SetSymbol(t, filename, name, binding, symType, addr);
      && r.symbols[key].name == prior.name && r.symbols[key].filename == prior.filename
      && r.symbols[key].gotUsers == prior.gotUsers
      && r.addrToAddr[prior.addr] == addr
      && (forall a :: a in t.addrToAddr && a != prior.addr ==> a in r.addrToAddr && r.addrToAddr[a] == t.addrToAddr[a])
      && (forall g :: g in prior.gotUsers ==> g in r.memory && r.memory[g] == addr)
      && (forall p :: p !in prior.gotUsers ==> (p in r.memory <==> p in t.memory))
      && (forall p :: p !in prior.gotUsers && p in t.memory ==> r.memory[p] == t.memory[p])
  {
    var key := SymbolKey(name, filename, binding);
    PatchWrites(t.memory, t.symbols[key].gotUsers, addr);
  }

  /** The bytes of "_getnb", "printings.c" and "printings2.c". */
  const GETNB: CString := [0x5f, 0x67, 0x65, 0x74, 0x6e, 0x62]
  const PRINTINGS: CString := [0x70, 0x72, 0x69, 0x6e, 0x74, 0x69, 0x6e, 0x67, 0x73, 0x2e, 0x63]
  const PRINTINGS2: CString := [0x70, 0x72, 0x69, 0x6e, 0x74, 0x69, 0x6e, 0x67, 0x73, 0x32, 0x2e, 0x63]

  /** The hot-patch scenario: `_getnb` is defined in "printings.c" at first, and `doit` calls it
      through GOT slot got. Redefining `_getnb` from "printings2.c" at second makes that slot
      hold second. So the `doit` pointer fetched before the redefinition now reaches the new body,
      and the call that used to return 7 returns 414. */
  lemma HotPatch(t: Tables, first: Word, second: Word, got: Word)
    requires Djb2(GETNB) in t.symbols
    requires t.symbols[Djb2(GETNB)] == SymbolRecord(GETNB, PRINTINGS, STB_GLOBAL, STT_FUNC, first, [got])
    requires got in t.memory && t.memory[got] == first
    ensures var r := SetSymbol(t, Some(PRINTINGS2), GETNB, STB_GLOBAL, STT_FUNC, second);
      && r.memory[got] == second
      && r.hashToAddr[Djb2(GETNB)] == second
      && r.addrToAddr[first] == second
      && r.symbols[Djb2(GETNB)] == SymbolRecord(GETNB, PRINTINGS, STB_GLOBAL, STT_FUNC, second, [got])
  {
    Redefinition(t, Some(PRINTINGS2), GETNB, STB_GLOBAL, STT_FUNC, second);
  }

  /** Distinct names with the same djb2 value are treated as one symbol: after "ab" is defined,
      defining "bA" overwrites the address of the record named "ab" and adds no key. */
  lemma CollisionIsRedefinition(t: Tables, file: CString, a1: Word, a2: Word)
    ensures var t1 := SetSymbol(t, Some(file), AB, STB_GLOBAL, STT_FUNC, a1);
      var t2 := SetSymbol(t1, Some(file), BA, STB_GLOBAL, STT_FUNC, a2);
      && t2.symbols.Keys == t1.symbols.Keys
      && t2.symbols[Djb2(AB)].addr == a2
      && t2.symbols[Djb2(AB)].name == t1.symbols[Djb2(AB)].name
  {
    CollidingNames();
    var t1 := SetSymbol(t, Some(file), AB, STB_GLOBAL, STT_FUNC, a1);
    Lookup(t, Some(file), AB, STB_GLOBAL, STT_FUNC, a1);
    Redefinition(t1, Some(file), BA, STB_GLOBAL, STT_FUNC, a2);
  }

  /** addr_to_addr is not flattened: defining a name at a1, then a2, then a3 leaves a1 -> a2 and
      a2 -> a3, not a1 -> a3. */
  lemma RedirectsNotFlattened(t: Tables, name: CString, file: CString, a1: Word, a2: Word, a3: Word)
    requires a1 != a2 && a2 != a3
    ensures var t1 := SetSymbol(t, Some(file), name, STB_GLOBAL, STT_FUNC, a1);
      var t2 := SetSymbol(t1, Some(file), name, STB_GLOBAL, STT_FUNC, a2);
      var t3 := SetSymbol(t2, Some(file), name, STB_GLOBAL, STT_FUNC, a3);
      && t3.addrToAddr[a1] == a2 && t3.addrToAddr[a2] == a3
  {
    var t1 := SetSymbol(t, Some(file), name, STB_GLOBAL, STT_FUNC, a1);
    Lookup(t, Some(file), name, STB_GLOBAL, STT_FUNC, a1);
    var t2 := SetSymbol(t1, Some(file), name, STB_GLOBAL, STT_FUNC, a2);
    Redefinition(t1, Some(file), name, STB_GLOBAL, STT_FUNC, a2);
    Redefinition(t2, Some(file), name, STB_GLOBAL, STT_FUNC, a3);
  }

  /** The fields of an `ElfW(Sym)` the publish loop reads; the name is already looked up in the
      string table. */
  datatype ElfSym = ElfSym(name: CString, info: Byte, other: Byte, shndx: nat, value: Word)

  /** The loop considers a symbol when it is a function (`STT_FUNC`) defined (`st_shndx != 0`) in
      the text section, whose index is textIndex. */
  predicate Candidate(s: ElfSym, textIndex: nat)
  {
    SymType(s.info) == STT_FUNC && s.shndx != 0 && s.shndx == textIndex
  }

  /** Outside single-use state, a candidate is published when its visibility is `STV_DEFAULT`. */
  predicate Exported(s: ElfSym, textIndex: nat)
  {
    Candidate(s, textIndex) && Visibility(s.other) == STV_DEFAULT
  }

  /** The key under which an exported symbol defined in file is published. */
  function ExportKey(s: ElfSym, file: CString): Word
  {
    SymbolKey(s.name, Some(file), Bind(s.info))
  }

  /** Where the publish loop has got to: all tables so far, or stopped at a symbol whose file is
      missing from `sym_index_to_filename`. */
  datatype Progress = Done(t: Tables) | Stopped(index: nat)

  /** One iteration of the publish loop for symbol s at index i: `tcci_set_interp_symbol` with the
      file recorded for index i, or a stop when there is none. */
  function PublishOne(t: Tables, s: ElfSym, i: nat, files: map<nat, CString>, textIndex: nat): Progress
  {
    if !Exported(s, textIndex) then Done(t)
    else if i !in files then Stopped(i)
    else Done(SetSymbol(t, Some(files[i]), s.name, Bind(s.info), SymType(s.info), s.value))
  }

  /** The publish loop over symbols 1 .. j-1 (symbol 0 is the null symbol). */
  function PublishUpTo(t0: Tables, syms: seq<ElfSym>, files: map<nat, CString>, textIndex: nat, j: nat): Progress
    requires j <= 1 || j <= |syms|
    decreases j
  {
    if j <= 1 then Done(t0)
    else match PublishUpTo(t0, syms, files, textIndex, j - 1)
      case Stopped(x) => Stopped(x)
      case Done(t) => PublishOne(t, syms[j - 1], j - 1, files, textIndex)
  }

  /** In single-use state: the value of the last candidate among symbols 1 .. j-1. */
  function LastCandidate(syms: seq<ElfSym>, textIndex: nat, j: nat): Option<Word>
    requires j <= 1 || j <= |syms|
    decreases j
  {
    if j <= 1 then None
    else if Candidate(syms[j - 1], textIndex) then Some(syms[j - 1].value)
    else LastCandidate(syms, textIndex, j - 1)
  }

  /** In single-use state the last candidate wins, and there is none exactly when no symbol is a
      candidate. */
  lemma {:induction false} LastCandidateWins(syms: seq<ElfSym>, textIndex: nat, j: nat)
    requires j <= 1 || j <= |syms|
    ensures LastCandidate(syms, textIndex, j) == None <==>
      forall l :: 1 <= l < j ==> !Candidate(syms[l], textIndex)
    ensures forall l :: 1 <= l < j && Candidate(syms[l], textIndex)
                        && (forall m :: l < m < j ==> !Candidate(syms[m], textIndex))
                        ==> LastCandidate(syms, textIndex, j) == Some(syms[l].value)
    decreases j
  {
    if j > 1 {
      LastCandidateWins(syms, textIndex, j - 1);
    }
  }

  /** Once the loop stops it stays stopped at the same index. */
  lemma {:induction false} StopSticks(t0: Tables, syms: seq<ElfSym>, files: map<nat, CString>, textIndex: nat,
                                      j: nat, n: nat)
    requires j <= n && (n <= 1 || n <= |syms|)
    requires PublishUpTo(t0, syms, files, textIndex, j).Stopped?
    ensures PublishUpTo(t0, syms, files, textIndex, n) == PublishUpTo(t0, syms, files, textIndex, j)
    decreases n
  {
    if n > j {
      StopSticks(t0, syms, files, textIndex, j, n - 1);
    }
  }

  /** The loop stops at the first exported symbol that has no file. */
  lemma {:induction false} PublishStops(t0: Tables, syms: seq<ElfSym>, files: map<nat, CString>, textIndex: nat,
                                        j: nat)
    requires j <= 1 || j <= |syms|
    ensures match PublishUpTo(t0, syms, files, textIndex, j)
      case Stopped(x) =>
        && 1 <= x < j && Exported(syms[x], textIndex) && x !in files
        && forall l :: 1 <= l < x && Exported(syms[l], textIndex) ==> l in files
      case Done(_) =>
        forall l :: 1 <= l < j && Exported(syms[l], textIndex) ==> l in files
    decreases j
  {
    if j > 1 {
      PublishStops(t0, syms, files, textIndex, j - 1);
    }
  }

  /** When the loop completes, exactly the exported symbols have been added: every exported symbol
      has its key in `symbols`, and every key that was not there before belongs to one. */
  lemma {:induction false} PublishKeys(t0: Tables, syms: seq<ElfSym>, files: map<nat, CString>, textIndex: nat,
                                       j: nat)
    requires j <= 1 || j <= |syms|
    requires PublishUpTo(t0, syms, files, textIndex, j).Done?
    ensures var t := PublishUpTo(t0, syms, files, textIndex, j).t;
      && t0.symbols.Keys <= t.symbols.Keys
      && (forall l :: 1 <= l < j && Exported(syms[l], textIndex) ==>
            l in files && ExportKey(syms[l], files[l]) in t.symbols)
      && (forall key :: key in t.symbols && key !in t0.symbols ==>
            exists l :: 1 <= l < j && Exported(syms[l], textIndex) && l in files
                        && ExportKey(syms[l], files[l]) == key)
    decreases j
  {
    if j > 1 {
      var t1 := PublishUpTo(t0, syms, files, textIndex, j - 1).t;
      PublishKeys(t0, syms, files, textIndex, j - 1);
      var s := syms[j - 1];
      if Exported(s, textIndex) {
        var file := files[j - 1];
        Lookup(t1, Some(file), s.name, Bind(s.info), SymType(s.info), s.value);
        var t := PublishUpTo(t0, syms, files, textIndex, j).t;
        forall key | key in t.symbols && key !in t0.symbols
          ensures exists l :: 1 <= l < j && Exported(syms[l], textIndex) && l in files
                              && ExportKey(syms[l], files[l]) == key
        {
          if key !in t1.symbols {
            assert ExportKey(syms[j - 1], files[j - 1]) == key;
          }
        }
      }
    }
  }
}
