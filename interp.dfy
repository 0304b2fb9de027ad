/** The interpreter state (`TCCInterpState`) and the steps of tccrun.c that change it: recording a
    symbol with `tcci_set_interp_symbol`, and `tcci_relocate_into_memory`, which lays out, allocates,
    lays out again and publishes one compilation unit. */
module Interpreter {
  import opened Common
  import opened StringHash
  import opened SymbolTables
  import opened SectionLayout
  import opened BufferCoverage

  /** What `tcci_relocate_into_memory` ends with: a return code, or a stop in the publish loop at a
      symbol with no recorded file. */
  datatype Outcome = Returned(code: int) | Halted(index: nat)

  class InterpState {
    /** `symbols`, `redir.hash_to_addr` and `redir.addr_to_addr`, and the pointer-sized memory
        cells that GOT slots occupy. */
    var symbols: map<Word, SymbolRecord>
    var hashToAddr: map<Word, Word>
    var addrToAddr: map<Word, Word>
    var memory: map<Word, Word>
    /** `in_single_use_state`, `single_use.runtime_mem` and `single_use.func_ptr`. */
    var inSingleUse: bool
    var singleUseMem: Word
    var singleUseFuncPtr: Word
    /** `runtime_mem_blocks` and `runtime_mem_size` (a `uint64_t`). */
    var memBlocks: seq<Word>
    var memSize: Word

    /** The tables that symbol recording changes. */
    function Tables(): SymbolTables.Tables
      reads this
    {
      SymbolTables.Tables(symbols, hashToAddr, addrToAddr, memory)
    }

    /** An interpreter with empty tables and no runtime memory. */
    constructor (singleUse: bool)
      ensures Tables() == SymbolTables.Tables(map[], map[], map[], map[])
      ensures inSingleUse == singleUse && memBlocks == [] && memSize == 0
      ensures singleUseMem == 0 && singleUseFuncPtr == 0
    {
      symbols, hashToAddr, addrToAddr, memory := map[], map[], map[], map[];
      inSingleUse := singleUse;
      singleUseMem, singleUseFuncPtr := 0, 0;
      memBlocks, memSize := [], 0;
    }

    /** The key `tcci_set_interp_symbol` files a symbol under: the djb2 hash of its name, times
        the hash of its file when it is `STB_LOCAL`, in 64-bit arithmetic. */
    static method HashSymbol(filename: Option<CString>, name: CString, binding: Byte) returns (hash: Word)
      requires binding == STB_LOCAL ==> filename.Some?
      ensures hash == SymbolKey(name, filename, binding)
    {
      hash := HashDjb2(name);
      if binding == STB_LOCAL {
        var fileHash := HashDjb2(filename.value);
        hash := (hash * fileHash) % WORD_MOD;
      }
    }

    /** The GOT loop: `*(void **)got_users[b] = addr` for every recorded slot, in order. */
    method PatchGotUsers(users: seq<Word>, addr: Word)
      modifies this
      ensures memory == Patch(old(memory), users, addr)
      ensures symbols == old(symbols) && hashToAddr == old(hashToAddr) && addrToAddr == old(addrToAddr)
      ensures inSingleUse == old(inSingleUse) && singleUseMem == old(singleUseMem)
      ensures singleUseFuncPtr == old(singleUseFuncPtr)
      ensures memBlocks == old(memBlocks) && memSize == old(memSize)
    {
      var b := 0;
      while b < |users|
        invariant 0 <= b <= |users|
        invariant memory == Patch(old(memory), users[..b], addr)
        invariant symbols == old(symbols) && hashToAddr == old(hashToAddr) && addrToAddr == old(addrToAddr)
        invariant inSingleUse == old(inSingleUse) && singleUseMem == old(singleUseMem)
        invariant singleUseFuncPtr == old(singleUseFuncPtr)
        invariant memBlocks == old(memBlocks) && memSize == old(memSize)
      {
        memory := memory[users[b] := addr];
        b := b + 1;
        assert users[..b][..b - 1] == users[..b - 1];
      }
      assert users[..|users|] == users;
    }

    /** `tcci_set_interp_symbol`: key the symbol, create or update its record, point hash_to_addr
        (and, on redefinition, addr_to_addr from the old address) at addr, and write addr into
        every GOT slot recorded for the symbol. A `STB_LOCAL` symbol needs a filename. */
    method SetInterpSymbol(filename: Option<CString>, name: CString, binding: Byte, symType: Byte, addr: Word)
      requires binding == STB_LOCAL ==> filename.Some?
      modifies this
      ensures Tables() == SetSymbol(old(Tables()), filename, name, binding, symType, addr)
      ensures inSingleUse == old(inSingleUse) && singleUseMem == old(singleUseMem)
      ensures singleUseFuncPtr == old(singleUseFuncPtr)
      ensures memBlocks == old(memBlocks) && memSize == old(memSize)
    {
      var hash := HashSymbol(filename, name, binding);
      if hash in symbols {
        var sym := symbols[hash];
        hashToAddr := hashToAddr[hash := addr];
        addrToAddr := addrToAddr[sym.addr := addr];
      } else {
        var sym := SymbolRecord(name, filename.GetOr(UNKNOWN_FILE), 0, 0, 0, []);
        symbols := symbols[hash := sym];
        hashToAddr := hashToAddr[hash := addr];
      }
      var sym := symbols[hash].(binding := binding, symType := symType, addr := addr);
      symbols := symbols[hash := sym];
      PatchGotUsers(sym.gotUsers, addr);
    }

    /** The publish loop after relocation, over symbols 1 .. |syms|-1. In single-use state every
        candidate overwrites `single_use.func_ptr` and nothing is published. Otherwise every
        exported symbol is recorded with the file `sym_index_to_filename` gives for its index,
        and the loop stops at the first one that has none. */
    method Publish(syms: seq<ElfSym>, files: map<nat, CString>, textIndex: nat) returns (stop: Option<nat>)
      modifies this
      ensures inSingleUse == old(inSingleUse) && singleUseMem == old(singleUseMem)
      ensures memBlocks == old(memBlocks) && memSize == old(memSize)
      ensures inSingleUse ==>
        && singleUseFuncPtr == LastCandidate(syms, textIndex, |syms|).GetOr(old(singleUseFuncPtr))
        && Tables() == old(Tables()) && stop == None
      ensures !inSingleUse ==> singleUseFuncPtr == old(singleUseFuncPtr)
      ensures !inSingleUse ==>
        match PublishUpTo(old(Tables()), syms, files, textIndex, |syms|)
        case Stopped(x) => stop == Some(x)
        case Done(t) => stop == None && Tables() == t
    {
      ghost var t0 := Tables();
      var j := 1;
      while j < |syms|
        invariant 1 <= j && (j <= |syms| || j == 1)
        invariant inSingleUse == old(inSingleUse) && singleUseMem == old(singleUseMem)
        invariant memBlocks == old(memBlocks) && memSize == old(memSize)
        invariant inSingleUse ==>
          singleUseFuncPtr == LastCandidate(syms, textIndex, j).GetOr(old(singleUseFuncPtr)) && Tables() == t0
        invariant !inSingleUse ==>
          singleUseFuncPtr == old(singleUseFuncPtr) && PublishUpTo(t0, syms, files, textIndex, j) == Done(Tables())
      {
        var sym := syms[j];
        if SymType(sym.info) != STT_FUNC || sym.shndx == 0 {
        } else if sym.shndx != textIndex {
        } else if inSingleUse {
          singleUseFuncPtr := sym.value;
        } else if Visibility(sym.other) == STV_DEFAULT {
          if j !in files {
            StopSticks(t0, syms, files, textIndex, j + 1, |syms|);
            return Some(j);
          }
          SetInterpSymbol(Some(files[j]), sym.name, Bind(sym.info), SymType(sym.info), sym.value);
        }
        j := j + 1;
      }
      return None;
    }

    /** `tcci_relocate_into_memory` with the unseen passes reduced to the number of errors each
        raises: the runtime and GOT preparation (prepErrors), the symbol pass of the sizing layout
        (sizingErrors) and the symbol pass of the final layout (finalErrors). ptr is what the
        allocation returns. Codes 1 and 2 return before anything is allocated; code 3 after
        allocation but before anything is published. The allocation requested is
        `offset + max_align` of the sizing pass, as an `unsigned`. */
    method RelocateIntoMemory(secs: array<Section>, prepErrors: nat, sizingErrors: nat, finalErrors: nat,
                              ptr: Word, syms: seq<ElfSym>, files: map<nat, CString>, textIndex: nat)
      returns (outcome: Outcome, requested: U32)
      requires secs.Length >= 1
      modifies this, secs
      ensures inSingleUse == old(inSingleUse)
      ensures prepErrors != 0 ==>
        && outcome == Returned(1) && secs[..] == old(secs[..])
        && memBlocks == old(memBlocks) && memSize == old(memSize) && singleUseMem == old(singleUseMem)
        && Tables() == old(Tables()) && singleUseFuncPtr == old(singleUseFuncPtr)
      ensures prepErrors == 0 && sizingErrors != 0 ==>
        && outcome == Returned(2) && secs[..] == Laid(old(secs[..]), 0, 0)
        && memBlocks == old(memBlocks) && memSize == old(memSize) && singleUseMem == old(singleUseMem)
        && Tables() == old(Tables()) && singleUseFuncPtr == old(singleUseFuncPtr)
      ensures prepErrors == 0 && sizingErrors == 0 ==>
        && requested == (End(old(secs[..]), 0, 0).offset + End(old(secs[..]), 0, 0).maxAlign) % U32_MOD
        && secs[..] == Laid(old(secs[..]), ptr, 0)
        && (inSingleUse ==> singleUseMem == ptr && memBlocks == old(memBlocks) && memSize == old(memSize))
        && (!inSingleUse ==>
              && singleUseMem == old(singleUseMem) && memBlocks == old(memBlocks) + [ptr]
              && memSize == (old(memSize) + End(old(secs[..]), 0, 0).offset
                             + End(old(secs[..]), 0, 0).maxAlign) % WORD_MOD)
      ensures prepErrors == 0 && sizingErrors == 0 && finalErrors != 0 ==>
        outcome == Returned(3) && Tables() == old(Tables()) && singleUseFuncPtr == old(singleUseFuncPtr)
      ensures prepErrors == 0 && sizingErrors == 0 && finalErrors == 0 && inSingleUse ==>
        && outcome == Returned(0) && Tables() == old(Tables())
        && singleUseFuncPtr == LastCandidate(syms, textIndex, |syms|).GetOr(old(singleUseFuncPtr))
      ensures prepErrors == 0 && sizingErrors == 0 && finalErrors == 0 && !inSingleUse ==>
        singleUseFuncPtr == old(singleUseFuncPtr)
      ensures prepErrors == 0 && sizingErrors == 0 && finalErrors == 0 && !inSingleUse ==>
        match PublishUpTo(old(Tables()), syms, files, textIndex, |syms|)
        case Stopped(x) => outcome == Halted(x)
        case Done(t) => outcome == Returned(0) && Tables() == t
    {
      requested := 0;
      if prepErrors != 0 {
        return Returned(1), requested;
      }
      ghost var e := secs[..];
      var offset, maxAlign := LayoutSections(secs, 0, 0);
      if sizingErrors != 0 {
        return Returned(2), requested;
      }
      requested := (offset + maxAlign) % U32_MOD;
      if inSingleUse {
        singleUseMem := ptr;
      } else {
        memBlocks := memBlocks + [ptr];
        memSize := (memSize + offset + maxAlign) % WORD_MOD;
      }
      offset, maxAlign := LayoutSections(secs, ptr, 0);
      RelayoutOverwrites(e, 0, 0, ptr, 0);
      if finalErrors != 0 {
        return Returned(3), requested;
      }
      var stop := Publish(syms, files, textIndex);
      if stop.Some? {
        return Halted(stop.value), requested;
      }
      return Returned(0), requested;
    }
  }
}
