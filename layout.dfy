/** The section layout walk of the loader (tccrun.c, `tcc_relocate_ex` and the two layout passes of
    `tcci_relocate_into_memory`): sections are visited in two groups, each placed section's running
    offset is padded to its alignment and then advanced by its size, and its address is written. */
module SectionLayout {
  import opened Common
  import opened Bits

  /** 2^32: the modulus of the `unsigned` counters `offset`, `align` and `max_align`. */
  const U32_MOD: int := 0x1_0000_0000

  type U32 = x: int | 0 <= x < U32_MOD

  /** An `int` field, such as `sh_addralign`. */
  type Int32 = x: int | -0x8000_0000 <= x < 0x8000_0000

  /** RUN_SECTION_ALIGNMENT on x86 targets: the first section of each group is aligned to at least
      64 bytes so that code and data never share a 64-byte unit. */
  const RUN_SECTION_ALIGNMENT: U32 := 63

  /** The fields of a section the layout reads (`SHF_ALLOC`, `SHF_EXECINSTR`, `sh_addralign`,
      `data_offset`) and the one it writes (`sh_addr`). */
  datatype Section = Section(alloc: bool, exec: bool, addralign: Int32, dataOffset: Word, addr: Word)

  /** The running state of a pass: `offset`, `max_align` and the per-group counter `f`. */
  datatype Walk = Walk(offset: U32, maxAlign: U32, f: nat)

  /** The group a section is placed in: `k != !(sh_flags & SHF_EXECINSTR)` skips non-executable
      sections when k = 0, so executable sections form group 0 and the others group 1. */
  function GroupOf(s: Section): (k: nat)
    ensures k < 2
    ensures k == 0 <==> s.exec
  {
    if s.exec then 0 else 1
  }

  /** The pass of group k places s. */
  predicate Visited(s: Section, k: nat)
  {
    s.alloc && GroupOf(s) == k
  }

  /** `align = sh_addralign - 1` as an `unsigned`, raised to RUN_SECTION_ALIGNMENT for the first
      section of a group (`++f == 1`, with f the count of sections already placed in the group). */
  function Mask(s: Section, f: nat): (m: U32)
    ensures f == 0 ==> m >= RUN_SECTION_ALIGNMENT
    ensures m >= (s.addralign - 1) % U32_MOD
    ensures m == (s.addralign - 1) % U32_MOD || (f == 0 && m == RUN_SECTION_ALIGNMENT)
  {
    var a := (s.addralign - 1) % U32_MOD;
    if f == 0 && a < RUN_SECTION_ALIGNMENT then RUN_SECTION_ALIGNMENT else a
  }

  /** `-(addr + offset) & align`: the padding that the pass adds before a section placed at
      position pos = addr + offset of the 64-bit address space. */
  function Pad(pos: Word, mask: U32): (p: nat)
    ensures p <= mask
  {
    BitAnd((WORD_MOD - pos) % WORD_MOD, mask)
  }

  /** The base address of group k: `addr = k ? mem : mem + ptr_diff`. */
  function Base(mem: Word, ptrDiff: Word, k: nat): Word
  {
    if k == 0 then (mem + ptrDiff) % WORD_MOD else mem
  }

  /** The offset a section with mask m is placed at: the running offset plus its padding, in
      32-bit arithmetic. */
  function StartAt(w: Walk, m: U32, base: Word): U32
  {
    (w.offset + Pad((base + w.offset) % WORD_MOD, m)) % U32_MOD
  }

  /** One iteration of the inner loop for section s in the pass of group k. */
  function Visit(s: Section, k: nat, base: Word, w: Walk): Walk
  {
    if !Visited(s, k) then w
    else
      var m := Mask(s, w.f);
      Walk((StartAt(w, m, base) + s.dataOffset) % U32_MOD, if w.maxAlign < m then m else w.maxAlign,
           w.f + 1)
  }

  /** The state at the start of the pass of group k: `offset` and `max_align` carry over from the
      previous group, f restarts at 0. */
  function GroupStart(e: seq<Section>, mem: Word, ptrDiff: Word, k: nat): Walk
    requires |e| >= 1 && k <= 2
    decreases k, 0
  {
    if k == 0 then Walk(0, 0, 0)
    else
      var w := Before(e, mem, ptrDiff, k - 1, |e|);
      Walk(w.offset, w.maxAlign, 0)
  }

  /** The state before the inner loop visits index i of the pass of group k, having visited the
      sections 1 .. i-1 of that pass. Section 0 is the null section and is never visited. */
  function Before(e: seq<Section>, mem: Word, ptrDiff: Word, k: nat, i: nat): Walk
    requires 1 <= i <= |e| && k < 2
    decreases k, i
  {
    if i == 1 then GroupStart(e, mem, ptrDiff, k)
    else Visit(e[i - 1], k, Base(mem, ptrDiff, k), Before(e, mem, ptrDiff, k, i - 1))
  }

  /** The state after both groups: the final `offset` and `max_align`. */
  function End(e: seq<Section>, mem: Word, ptrDiff: Word): Walk
    requires |e| >= 1
  {
    GroupStart(e, mem, ptrDiff, 2)
  }

  /** The offset at which section i is placed, relative to the base of its group. */
  function Placement(e: seq<Section>, mem: Word, ptrDiff: Word, i: nat): U32
    requires 1 <= i < |e|
  {
    var k := GroupOf(e[i]);
    var w := Before(e, mem, ptrDiff, k, i);
    StartAt(w, Mask(e[i], w.f), Base(mem, ptrDiff, k))
  }

  /** Section i once laid out: `sh_addr = mem ? addr + offset : 0` for placed sections, the section
      unchanged otherwise. */
  function LaidOut(e: seq<Section>, mem: Word, ptrDiff: Word, i: nat): Section
    requires 0 <= i < |e|
  {
    if 1 <= i && e[i].alloc then
      e[i].(addr := if mem != 0
                    then (Base(mem, ptrDiff, GroupOf(e[i])) + Placement(e, mem, ptrDiff, i)) % WORD_MOD
                    else 0)
    else e[i]
  }

  /** Section j while the pass of group k is at index i: laid out when an earlier group or an
      earlier index of this group placed it. */
  function LaidSoFar(e: seq<Section>, mem: Word, ptrDiff: Word, k: nat, i: nat, j: nat): Section
    requires 0 <= j < |e|
  {
    if GroupOf(e[j]) < k || (GroupOf(e[j]) == k && j < i) then LaidOut(e, mem, ptrDiff, j) else e[j]
  }

  /** The section table while the pass of group k is at index i. */
  function LaidPrefix(e: seq<Section>, mem: Word, ptrDiff: Word, k: nat, i: nat): (r: seq<Section>)
    ensures |r| == |e|
  {
    seq(|e|, j requires 0 <= j < |e| => LaidSoFar(e, mem, ptrDiff, k, i, j))
  }

  /** The section table after a full pass. */
  function Laid(e: seq<Section>, mem: Word, ptrDiff: Word): (r: seq<Section>)
    ensures |r| == |e|
  {
    seq(|e|, j requires 0 <= j < |e| => LaidOut(e, mem, ptrDiff, j))
  }

  /** One layout pass, as the two nested loops of the source: sections 1 .. nb_sections-1 are
      walked once per group, and every placed section gets its `sh_addr`. Section 0 (the null
      section) is always present. */
  method LayoutSections(secs: array<Section>, mem: Word, ptrDiff: Word) returns (offset: U32, maxAlign: U32)
    requires secs.Length >= 1
    modifies secs
    ensures secs[..] == Laid(old(secs[..]), mem, ptrDiff)
    ensures offset == End(old(secs[..]), mem, ptrDiff).offset
    ensures maxAlign == End(old(secs[..]), mem, ptrDiff).maxAlign
  {
    ghost var e := secs[..];
    offset, maxAlign := 0, 0;
    PassBoundary(e, mem, ptrDiff, 0);
    for k := 0 to 2
      invariant offset == GroupStart(e, mem, ptrDiff, k).offset
      invariant maxAlign == GroupStart(e, mem, ptrDiff, k).maxAlign
      invariant secs[..] == LaidPrefix(e, mem, ptrDiff, k, 1)
    {
      offset, maxAlign := LayoutGroup(secs, e, mem, ptrDiff, k, offset, maxAlign);
      PassBoundary(e, mem, ptrDiff, k + 1);
    }
  }

  /** The inner loop of one pass: the sections of group k, starting from the `offset` and
      `max_align` left by the previous group. */
  method LayoutGroup(secs: array<Section>, ghost e: seq<Section>, mem: Word, ptrDiff: Word, k: nat,
                     offset0: U32, maxAlign0: U32)
    returns (offset: U32, maxAlign: U32)
    requires secs.Length == |e| >= 1 && k < 2
    requires Walk(offset0, maxAlign0, 0) == GroupStart(e, mem, ptrDiff, k)
    requires secs[..] == LaidPrefix(e, mem, ptrDiff, k, 1)
    modifies secs
    ensures offset == Before(e, mem, ptrDiff, k, |e|).offset
    ensures maxAlign == Before(e, mem, ptrDiff, k, |e|).maxAlign
    ensures secs[..] == LaidPrefix(e, mem, ptrDiff, k, |e|)
  {
    offset, maxAlign := offset0, maxAlign0;
    var f := 0;
    var addr := if k == 1 then mem else (mem + ptrDiff) % WORD_MOD;
    assert addr == Base(mem, ptrDiff, k);
    for i := 1 to secs.Length
      invariant Walk(offset, maxAlign, f) == Before(e, mem, ptrDiff, k, i)
      invariant secs[..] == LaidPrefix(e, mem, ptrDiff, k, i)
    {
      offset, maxAlign, f := PlaceSection(secs, e, mem, ptrDiff, k, addr, i, offset, maxAlign, f);
    }
  }

  /** One iteration of the inner loop: skip section i unless group k places it; otherwise pad the
      offset to its alignment, write its `sh_addr` and advance the offset by its size. */
  method PlaceSection(secs: array<Section>, ghost e: seq<Section>, mem: Word, ptrDiff: Word, k: nat,
                      addr: Word, i: nat, offset0: U32, maxAlign0: U32, f0: nat)
    returns (offset: U32, maxAlign: U32, f: nat)
    requires secs.Length == |e| && 1 <= i < |e| && k < 2 && addr == Base(mem, ptrDiff, k)
    requires Walk(offset0, maxAlign0, f0) == Before(e, mem, ptrDiff, k, i)
    requires secs[..] == LaidPrefix(e, mem, ptrDiff, k, i)
    modifies secs
    ensures Walk(offset, maxAlign, f) == Before(e, mem, ptrDiff, k, i + 1)
    ensures secs[..] == LaidPrefix(e, mem, ptrDiff, k, i + 1)
  {
    offset, maxAlign, f := offset0, maxAlign0, f0;
    var s := secs[i];
    KeepsShape(e, mem, ptrDiff, k, i);
    if !s.alloc || k != (if s.exec then 0 else 1) {
      VisitSkipped(e, mem, ptrDiff, k, i);
      return;
    }
    var align := (s.addralign - 1) % U32_MOD;
    f := f + 1;
    if f == 1 && align < RUN_SECTION_ALIGNMENT {
      align := RUN_SECTION_ALIGNMENT;
    }
    if maxAlign < align {
      maxAlign := align;
    }
    offset := (offset + Pad((addr + offset) % WORD_MOD, align)) % U32_MOD;
    VisitPlaced(e, mem, ptrDiff, k, i, Walk(offset0, maxAlign0, f0), align, offset);
    secs[i] := s.(addr := if mem != 0 then (addr + offset) % WORD_MOD else 0);
    offset := (offset + s.dataOffset) % U32_MOD;
  }

  /** Between the groups of a pass the table is unchanged; after both it is the laid-out table. */
  lemma PassBoundary(e: seq<Section>, mem: Word, ptrDiff: Word, k: nat)
    requires |e| >= 1 && k <= 2
    ensures k > 0 ==> LaidPrefix(e, mem, ptrDiff, k - 1, |e|) == LaidPrefix(e, mem, ptrDiff, k, 1)
    ensures k == 0 ==> LaidPrefix(e, mem, ptrDiff, 0, 1) == e
    ensures k == 2 ==> LaidPrefix(e, mem, ptrDiff, 2, 1) == Laid(e, mem, ptrDiff)
  {
  }

  /** The pass only ever changes `sh_addr`; a section of the current or a later group is still
      untouched. */
  lemma KeepsShape(e: seq<Section>, mem: Word, ptrDiff: Word, k: nat, i: nat)
    requires 1 <= i < |e| && k < 2
    ensures LaidPrefix(e, mem, ptrDiff, k, i)[i] == e[i].(addr := LaidPrefix(e, mem, ptrDiff, k, i)[i].addr)
    ensures GroupOf(e[i]) >= k ==> LaidPrefix(e, mem, ptrDiff, k, i)[i] == e[i]
  {
  }

  lemma VisitSkipped(e: seq<Section>, mem: Word, ptrDiff: Word, k: nat, i: nat)
    requires 1 <= i < |e| && k < 2 && !Visited(e[i], k)
    ensures Before(e, mem, ptrDiff, k, i + 1) == Before(e, mem, ptrDiff, k, i)
    ensures LaidPrefix(e, mem, ptrDiff, k, i + 1) == LaidPrefix(e, mem, ptrDiff, k, i)
  {
    assert forall j :: 0 <= j < |e| ==>
      LaidSoFar(e, mem, ptrDiff, k, i + 1, j) == LaidSoFar(e, mem, ptrDiff, k, i, j);
  }

  lemma VisitPlaced(e: seq<Section>, mem: Word, ptrDiff: Word, k: nat, i: nat, w: Walk, m: U32, st: U32)
    requires 1 <= i < |e| && k < 2 && Visited(e[i], k)
    requires w == Before(e, mem, ptrDiff, k, i) && m == Mask(e[i], w.f)
    requires st == StartAt(w, m, Base(mem, ptrDiff, k))
    ensures Before(e, mem, ptrDiff, k, i + 1)
            == Walk((st + e[i].dataOffset) % U32_MOD, if w.maxAlign < m then m else w.maxAlign, w.f + 1)
    ensures LaidPrefix(e, mem, ptrDiff, k, i + 1)
            == LaidPrefix(e, mem, ptrDiff, k, i)[i := e[i].(addr := if mem != 0 then (Base(mem, ptrDiff, k) + st) % WORD_MOD else 0)]
  {
    assert forall j :: 0 <= j < |e| && j != i ==>
      LaidSoFar(e, mem, ptrDiff, k, i + 1, j) == LaidSoFar(e, mem, ptrDiff, k, i, j);
  }
}
