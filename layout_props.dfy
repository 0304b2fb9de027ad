/** What a layout pass guarantees. Placed sections follow the visiting order without overlapping.
    A section whose alignment is a power of two lands on an aligned address, and each group's
    first section lands on a 64-byte boundary. A buffer of `offset + max_align` bytes, sized by
    the pass at address 0, holds the pass at the address of that buffer. */
module LayoutProperties {
  import opened Common
  import opened Arith
  import opened Bits
  import opened SectionLayout

  /** Visiting s in state w does not wrap the 32-bit offset. */
  predicate StepFits(s: Section, k: nat, base: Word, w: Walk)
  {
    Visited(s, k) ==> w.offset + Pad((base + w.offset) % WORD_MOD, Mask(s, w.f)) + s.dataOffset < U32_MOD
  }

  /** No visit before index i of the pass of group k wraps the offset. */
  predicate FitsTo(e: seq<Section>, mem: Word, ptrDiff: Word, k: nat, i: nat)
    requires 1 <= i <= |e| && k < 2
    decreases k, i
  {
    if i == 1 then k == 0 || FitsTo(e, mem, ptrDiff, 0, |e|)
    else
      && FitsTo(e, mem, ptrDiff, k, i - 1)
      && StepFits(e[i - 1], k, Base(mem, ptrDiff, k), Before(e, mem, ptrDiff, k, i - 1))
  }

  /** No visit of the whole pass wraps the offset. */
  predicate Fits(e: seq<Section>, mem: Word, ptrDiff: Word)
    requires |e| >= 1
  {
    FitsTo(e, mem, ptrDiff, 1, |e|)
  }

  /** Index i1 of group k1 is reached no later than index i2 of group k2. */
  predicate NoLater(k1: nat, i1: nat, k2: nat, i2: nat)
  {
    k1 < k2 || (k1 == k2 && i1 <= i2)
  }

  /** Every section the passes place has a power-of-two alignment. */
  predicate PowerOfTwoAligned(e: seq<Section>)
  {
    forall j :: 1 <= j < |e| && e[j].alloc ==> e[j].addralign >= 1 && IsPow2(e[j].addralign)
  }

  lemma {:induction false} FitsPrefix(e: seq<Section>, mem: Word, ptrDiff: Word, k1: nat, i1: nat, k2: nat, i2: nat)
    requires 1 <= i1 <= |e| && 1 <= i2 <= |e| && k1 < 2 && k2 < 2 && NoLater(k1, i1, k2, i2)
    requires FitsTo(e, mem, ptrDiff, k2, i2)
    ensures FitsTo(e, mem, ptrDiff, k1, i1)
    decreases k2, i2
  {
    if k1 == k2 && i1 == i2 {
    } else if i2 == 1 {
      FitsPrefix(e, mem, ptrDiff, k1, i1, 0, |e|);
    } else {
      FitsPrefix(e, mem, ptrDiff, k1, i1, k2, i2 - 1);
    }
  }

  /** A visit that does not wrap: the section is placed at the offset plus its padding, and the
      offset then advances by exactly its size. */
  lemma StepExact(e: seq<Section>, mem: Word, ptrDiff: Word, k: nat, i: nat)
    requires 1 <= i < |e| && k < 2 && FitsTo(e, mem, ptrDiff, k, i + 1)
    ensures !Visited(e[i], k) ==> Before(e, mem, ptrDiff, k, i + 1) == Before(e, mem, ptrDiff, k, i)
    ensures Visited(e[i], k) ==>
      var w := Before(e, mem, ptrDiff, k, i);
      && Placement(e, mem, ptrDiff, i)
         == w.offset + Pad((Base(mem, ptrDiff, k) + w.offset) % WORD_MOD, Mask(e[i], w.f))
      && Before(e, mem, ptrDiff, k, i + 1).offset == Placement(e, mem, ptrDiff, i) + e[i].dataOffset
  {
    var base := Base(mem, ptrDiff, k);
    var w := Before(e, mem, ptrDiff, k, i);
    assert Before(e, mem, ptrDiff, k, i + 1) == Visit(e[i], k, base, w);
    if Visited(e[i], k) {
      assert StepFits(e[i], k, base, w);
      var m := Mask(e[i], w.f);
      var p := w.offset + Pad((base + w.offset) % WORD_MOD, m);
      ModSmall(p, U32_MOD);
      ModSmall(p + e[i].dataOffset, U32_MOD);
      assert Placement(e, mem, ptrDiff, i) == StartAt(w, m, base);
    }
  }

  /** The offset never decreases along a pass that does not wrap. */
  lemma {:induction false} OffsetMono(e: seq<Section>, mem: Word, ptrDiff: Word, k1: nat, i1: nat, k2: nat, i2: nat)
    requires 1 <= i1 <= |e| && 1 <= i2 <= |e| && k1 < 2 && k2 < 2 && NoLater(k1, i1, k2, i2)
    requires FitsTo(e, mem, ptrDiff, k2, i2)
    ensures Before(e, mem, ptrDiff, k1, i1).offset <= Before(e, mem, ptrDiff, k2, i2).offset
    decreases k2, i2
  {
    if k1 == k2 && i1 == i2 {
    } else if i2 == 1 {
      OffsetMono(e, mem, ptrDiff, k1, i1, 0, |e|);
    } else {
      OffsetMono(e, mem, ptrDiff, k1, i1, k2, i2 - 1);
      StepExact(e, mem, ptrDiff, k2, i2 - 1);
    }
  }

  /** Placed sections occupy disjoint ranges in visiting order: every executable section before
      every other one, and within a group by index. */
  lemma PlacedInOrder(e: seq<Section>, mem: Word, ptrDiff: Word, i: nat, j: nat)
    requires |e| >= 1 && Fits(e, mem, ptrDiff)
    requires 1 <= i < |e| && 1 <= j < |e| && e[i].alloc && e[j].alloc
    requires GroupOf(e[i]) < GroupOf(e[j]) || (GroupOf(e[i]) == GroupOf(e[j]) && i < j)
    ensures Placement(e, mem, ptrDiff, i) + e[i].dataOffset <= Placement(e, mem, ptrDiff, j)
  {
    var ki, kj := GroupOf(e[i]), GroupOf(e[j]);
    var after := Before(e, mem, ptrDiff, ki, i + 1).offset;
    var reach := Before(e, mem, ptrDiff, kj, j).offset;
    assert Placement(e, mem, ptrDiff, i) + e[i].dataOffset == after by {
      FitsPrefix(e, mem, ptrDiff, ki, i + 1, 1, |e|);
      StepExact(e, mem, ptrDiff, ki, i);
    }
    assert reach <= Placement(e, mem, ptrDiff, j) by {
      FitsPrefix(e, mem, ptrDiff, kj, j + 1, 1, |e|);
      StepExact(e, mem, ptrDiff, kj, j);
    }
    assert after <= reach by {
      FitsPrefix(e, mem, ptrDiff, kj, j, 1, |e|);
      OffsetMono(e, mem, ptrDiff, ki, i + 1, kj, j);
    }
  }

  /** Every placed section ends at or before the final offset: the size the pass reports. */
  lemma PlacedWithinEnd(e: seq<Section>, mem: Word, ptrDiff: Word, i: nat)
    requires |e| >= 1 && Fits(e, mem, ptrDiff)
    requires 1 <= i < |e| && e[i].alloc
    ensures Placement(e, mem, ptrDiff, i) + e[i].dataOffset <= End(e, mem, ptrDiff).offset
  {
    var k := GroupOf(e[i]);
    FitsPrefix(e, mem, ptrDiff, k, i + 1, 1, |e|);
    StepExact(e, mem, ptrDiff, k, i);
    OffsetMono(e, mem, ptrDiff, k, i + 1, 1, |e|);
  }

  /** Every power of two up to 2^32 divides 2^64. */
  lemma DividesWordMod(a: nat)
    requires IsPow2(a) && a <= U32_MOD
    ensures WORD_MOD % a == 0
  {
    WidthsArePow2();
    Pow2Divides(a, WORD_MOD);
  }

  /** (2^64 - pos) mod 2^64 and -pos have the same remainder modulo a divisor a of 2^64. */
  lemma NegateWord(pos: Word, a: nat)
    requires a >= 1 && WORD_MOD % a == 0
    ensures ((WORD_MOD - pos) % WORD_MOD) % a == (-(pos as int)) % a
  {
    if pos > 0 {
      ModSmall(WORD_MOD - pos, WORD_MOD);
      var q := WORD_MOD / a;
      assert WORD_MOD == a * q;
      ModShift(-(pos as int), a, q);
    }
  }

  /** `-(pos) & align` with align one below a power of two rounds pos up to a multiple of
      align + 1. */
  lemma PadAligns(pos: Word, m: U32)
    requires IsPow2(m + 1)
    ensures pos + Pad(pos, m) == AlignUp(pos, m + 1)
  {
    assert Pad(pos, m) == ((WORD_MOD - pos) % WORD_MOD) % (m + 1) by {
      BitAndLow((WORD_MOD - pos) % WORD_MOD, m + 1);
    }
    DividesWordMod(m + 1);
    NegateWord(pos, m + 1);
  }

  /** The mask of a section with a power-of-two alignment is one below a power of two that the
      alignment divides, and the first section of a group gets a multiple of 64. */
  lemma MaskPow2(s: Section, f: nat)
    requires s.addralign >= 1 && IsPow2(s.addralign)
    ensures IsPow2(Mask(s, f) + 1) && (Mask(s, f) + 1) % s.addralign == 0
    ensures f == 0 ==> (Mask(s, f) + 1) % 64 == 0
  {
    Pow2Of64();
    ModSmall(s.addralign - 1, U32_MOD);
    if f == 0 && s.addralign < 64 {
      assert Mask(s, f) == RUN_SECTION_ALIGNMENT;
      Pow2Divides(s.addralign, 64);
    } else {
      assert Mask(s, f) + 1 == s.addralign;
      if f == 0 {
        Pow2Divides(64, s.addralign);
      }
    }
  }

  /** A position padded with a mask one below a power of two is a multiple of every divisor of
      that power. */
  lemma StartAligned(pos: Word, m: U32, a: nat, x: int)
    requires IsPow2(m + 1) && a >= 1 && (m + 1) % a == 0
    requires x == pos + Pad(pos, m)
    ensures x % a == 0
  {
    PadAligns(pos, m);
    AlignUpBounds(pos, m + 1);
    DividesTrans(x, a, m + 1);
  }

  /** Padding a position with the mask of a section of power-of-two alignment aligns it to that
      alignment, and to 64 for the first section of a group. */
  lemma SectionStartAligned(pos: Word, s: Section, f: nat, x: int)
    requires s.addralign >= 1 && IsPow2(s.addralign)
    requires x == pos + Pad(pos, Mask(s, f))
    ensures x % s.addralign == 0
    ensures f == 0 ==> x % 64 == 0
  {
    var m := Mask(s, f);
    assert IsPow2(m + 1) && (m + 1) % s.addralign == 0 && (f == 0 ==> (m + 1) % 64 == 0) by {
      MaskPow2(s, f);
    }
    assert x % s.addralign == 0 by {
      StartAligned(pos, m, s.addralign, x);
    }
    if f == 0 {
      StartAligned(pos, m, 64, x);
    }
  }

  /** The `sh_addr` written for a placed section is its base plus its placement, when that does
      not wrap, and 0 in the sizing pass. */
  lemma LaidAddr(e: seq<Section>, mem: Word, ptrDiff: Word, i: nat, x: int, d: nat)
    requires 1 <= i < |e| && e[i].alloc && d >= 1 && x % d == 0
    requires x == Base(mem, ptrDiff, GroupOf(e[i])) + Placement(e, mem, ptrDiff, i) < WORD_MOD
    ensures Laid(e, mem, ptrDiff)[i].addr == if mem != 0 then x else 0
    ensures Laid(e, mem, ptrDiff)[i].addr % d == 0
  {
    assert Laid(e, mem, ptrDiff)[i] == LaidOut(e, mem, ptrDiff, i);
    ModSmall(x, WORD_MOD);
  }

  /** A placed section with a power-of-two `sh_addralign` gets an address that is a multiple of
      it; the first section of each group gets a multiple of 64. The same holds for the written
      `sh_addr` (which is 0 in the sizing pass). */
  lemma PlacedAligned(e: seq<Section>, mem: Word, ptrDiff: Word, i: nat)
    requires |e| >= 1 && Fits(e, mem, ptrDiff)
    requires 1 <= i < |e| && e[i].alloc && e[i].addralign >= 1 && IsPow2(e[i].addralign)
    requires Base(mem, ptrDiff, GroupOf(e[i])) + U32_MOD <= WORD_MOD
    ensures (Base(mem, ptrDiff, GroupOf(e[i])) + Placement(e, mem, ptrDiff, i)) % e[i].addralign == 0
    ensures Laid(e, mem, ptrDiff)[i].addr % e[i].addralign == 0
    ensures Before(e, mem, ptrDiff, GroupOf(e[i]), i).f == 0 ==>
      (Base(mem, ptrDiff, GroupOf(e[i])) + Placement(e, mem, ptrDiff, i)) % 64 == 0
  {
    var k := GroupOf(e[i]);
    var base := Base(mem, ptrDiff, k);
    var w := Before(e, mem, ptrDiff, k, i);
    var x := base + Placement(e, mem, ptrDiff, i);
    assert Visited(e[i], k);
    FitsPrefix(e, mem, ptrDiff, k, i + 1, 1, |e|);
    StepExact(e, mem, ptrDiff, k, i);
    var pos := base + w.offset;
    ModSmall(pos, WORD_MOD);
    SectionStartAligned(pos, e[i], w.f, x);
    LaidAddr(e, mem, ptrDiff, i, x, e[i].addralign);
  }

  /** The last byte of every non-empty executable section and the first data section lie in
      different 64-byte units: the purpose of RUN_SECTION_ALIGNMENT. */
  lemma CodeDataApart(e: seq<Section>, mem: Word, i: nat, j: nat)
    requires |e| >= 1 && Fits(e, mem, 0) && mem + U32_MOD <= WORD_MOD
    requires 1 <= i < |e| && e[i].alloc && e[i].exec && e[i].dataOffset > 0
    requires 1 <= j < |e| && e[j].alloc && !e[j].exec && e[j].addralign >= 1 && IsPow2(e[j].addralign)
    requires Before(e, mem, 0, 1, j).f == 0
    ensures (mem + Placement(e, mem, 0, i) + e[i].dataOffset - 1) / 64 < (mem + Placement(e, mem, 0, j)) / 64
  {
    PlacedInOrder(e, mem, 0, i, j);
    PlacedAligned(e, mem, 0, j);
    var y := mem + Placement(e, mem, 0, j);
    var x := mem + Placement(e, mem, 0, i) + e[i].dataOffset - 1;
    assert y == 64 * (y / 64);
    DivBelow(x, 64, y / 64);
  }
}
