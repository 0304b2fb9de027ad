/** Why the buffer allocated between the two layout passes of `tcci_relocate_into_memory` holds the
    second pass. The sizing pass runs at address 0 and reports `offset + max_align`; the second pass
    runs at the buffer's address. When that address is a multiple of `max_align + 1`, every padding
    of the second pass equals the padding of the sizing pass, so each section lands at the buffer's
    address plus its sizing offset. */
module BufferCoverage {
  import opened Common
  import opened Arith
  import opened Bits
  import opened SectionLayout
  import opened LayoutProperties

  /** The padding with a mask one below a power of two n is the remainder of -pos modulo n. */
  lemma PadIsNegMod(pos: Word, m: U32)
    requires IsPow2(m + 1)
    ensures Pad(pos, m) == (-(pos as int)) % (m + 1)
  {
    BitAndLow((WORD_MOD - pos) % WORD_MOD, m + 1);
    DividesWordMod(m + 1);
    NegateWord(pos, m + 1);
  }

  /** Moving a position by a multiple of the mask plus one, with 64-bit wrap-around, leaves its
      padding unchanged. */
  lemma PadShift(pos: Word, b: Word, m: U32)
    requires IsPow2(m + 1) && b % (m + 1) == 0
    ensures Pad((b + pos) % WORD_MOD, m) == Pad(pos, m)
  {
    DividesWordMod(m + 1);
    NegModWrap(pos, b, WORD_MOD, m + 1);
    PadIsNegMod((b + pos) % WORD_MOD, m);
    PadIsNegMod(pos, m);
  }

  /** A section is placed at the same offset from a base that is a multiple of its mask plus one
      as from address 0. */
  lemma StartAtShift(w: Walk, m: U32, b: Word)
    requires IsPow2(m + 1) && b % (m + 1) == 0
    ensures StartAt(w, m, b) == StartAt(w, m, 0)
  {
    PadShift(w.offset, b, m);
    ModSmall(w.offset, WORD_MOD);
  }

  /** `max_align` never decreases along a pass. */
  lemma {:induction false} MaxAlignGrows(e: seq<Section>, mem: Word, ptrDiff: Word, k1: nat, i1: nat, k2: nat, i2: nat)
    requires 1 <= i1 <= |e| && 1 <= i2 <= |e| && k1 < 2 && k2 < 2 && NoLater(k1, i1, k2, i2)
    ensures Before(e, mem, ptrDiff, k1, i1).maxAlign <= Before(e, mem, ptrDiff, k2, i2).maxAlign
    decreases k2, i2
  {
    if k1 == k2 && i1 == i2 {
    } else if i2 == 1 {
      MaxAlignGrows(e, mem, ptrDiff, k1, i1, 0, |e|);
    } else {
      MaxAlignGrows(e, mem, ptrDiff, k1, i1, k2, i2 - 1);
    }
  }

  /** The mask of every placed section is at most the final `max_align`. */
  lemma MaskWithinMax(e: seq<Section>, mem: Word, ptrDiff: Word, k: nat, i: nat)
    requires 1 <= i < |e| && k < 2 && Visited(e[i], k)
    ensures Mask(e[i], Before(e, mem, ptrDiff, k, i).f) <= End(e, mem, ptrDiff).maxAlign
  {
    MaxAlignGrows(e, mem, ptrDiff, k, i + 1, 1, |e|);
  }

  /** With power-of-two alignments, `max_align + 1` stays a power of two along a pass. */
  lemma {:induction false} MaxAlignPow2(e: seq<Section>, mem: Word, ptrDiff: Word, k: nat, i: nat)
    requires 1 <= i <= |e| && k < 2 && PowerOfTwoAligned(e)
    ensures IsPow2(Before(e, mem, ptrDiff, k, i).maxAlign + 1)
    decreases k, i
  {
    if i == 1 {
      if k == 1 {
        MaxAlignPow2(e, mem, ptrDiff, 0, |e|);
      }
    } else {
      MaxAlignPow2(e, mem, ptrDiff, k, i - 1);
      if Visited(e[i - 1], k) {
        MaskPow2(e[i - 1], Before(e, mem, ptrDiff, k, i - 1).f);
      }
    }
  }

  /** The base of either group of a pass with no `ptr_diff` is the buffer address itself. */
  lemma BaseNoDiff(mem: Word, k: nat)
    ensures Base(mem, 0, k) == mem
  {
    ModSmall(mem, WORD_MOD);
  }

  /** A base that is a multiple of the final `max_align + 1` is a multiple of every mask plus one
      that the pass uses. */
  lemma MaskDividesBase(e: seq<Section>, mem: Word, k: nat, i: nat)
    requires 1 <= i < |e| && k < 2 && Visited(e[i], k) && PowerOfTwoAligned(e)
    requires mem % (End(e, 0, 0).maxAlign + 1) == 0
    ensures mem % (Mask(e[i], Before(e, 0, 0, k, i).f) + 1) == 0
  {
    var m: nat := Mask(e[i], Before(e, 0, 0, k, i).f);
    var a: nat := End(e, 0, 0).maxAlign;
    assert m <= a && IsPow2(m + 1) && IsPow2(a + 1) by {
      MaskWithinMax(e, 0, 0, k, i);
      MaskPow2(e[i], Before(e, 0, 0, k, i).f);
      MaxAlignPow2(e, 0, 0, 1, |e|);
    }
    Pow2Divides(m + 1, a + 1);
    DividesTrans(mem, m + 1, a + 1);
  }

  /** The placement of a section from a base that is a multiple of the final `max_align + 1`
      equals its placement from address 0, in the same state. */
  lemma SameStart(e: seq<Section>, mem: Word, k: nat, j: nat)
    requires 1 <= j < |e| && k < 2 && Visited(e[j], k) && PowerOfTwoAligned(e)
    requires mem % (End(e, 0, 0).maxAlign + 1) == 0
    ensures var w := Before(e, 0, 0, k, j);
      StartAt(w, Mask(e[j], w.f), mem) == StartAt(w, Mask(e[j], w.f), 0)
  {
    var w := Before(e, 0, 0, k, j);
    var m := Mask(e[j], w.f);
    assert mem % (m + 1) == 0 && IsPow2(m + 1) by {
      MaskDividesBase(e, mem, k, j);
      MaskPow2(e[j], w.f);
    }
    StartAtShift(w, m, mem);
  }

  /** One visit of the second pass at base mem repeats the visit of the sizing pass. */
  lemma SameStep(e: seq<Section>, mem: Word, k: nat, j: nat)
    requires 1 <= j < |e| && k < 2 && PowerOfTwoAligned(e)
    requires mem % (End(e, 0, 0).maxAlign + 1) == 0
    requires Before(e, mem, 0, k, j) == Before(e, 0, 0, k, j)
    ensures Before(e, mem, 0, k, j + 1) == Before(e, 0, 0, k, j + 1)
  {
    var w := Before(e, 0, 0, k, j);
    BaseNoDiff(mem, k);
    BaseNoDiff(0, k);
    if Visited(e[j], k) {
      var m := Mask(e[j], w.f);
      assert StartAt(w, m, mem) == StartAt(w, m, 0) by {
        SameStart(e, mem, k, j);
      }
    }
    assert Visit(e[j], k, mem, w) == Visit(e[j], k, 0, w);
  }

  /** The second pass at a base that is a multiple of the final `max_align + 1` goes through the
      same states as the sizing pass at address 0. */
  lemma {:induction false} SameWalk(e: seq<Section>, mem: Word, k: nat, i: nat)
    requires 1 <= i <= |e| && k < 2 && PowerOfTwoAligned(e)
    requires mem % (End(e, 0, 0).maxAlign + 1) == 0
    ensures Before(e, mem, 0, k, i) == Before(e, 0, 0, k, i)
    decreases k, i
  {
    if i == 1 {
      if k == 1 {
        SameWalk(e, mem, 0, |e|);
      }
    } else {
      SameWalk(e, mem, k, i - 1);
      SameStep(e, mem, k, i - 1);
    }
  }

  /** The second pass ends with the same `offset` and `max_align` as the sizing pass, so the
      `offset + max_align` the sizing pass reports is the size it needs. */
  lemma SameEnd(e: seq<Section>, mem: Word)
    requires |e| >= 1 && PowerOfTwoAligned(e)
    requires mem % (End(e, 0, 0).maxAlign + 1) == 0
    ensures End(e, mem, 0) == End(e, 0, 0)
  {
    SameWalk(e, mem, 1, |e|);
  }

  /** The second pass places every section at its sizing offset. */
  lemma SamePlacement(e: seq<Section>, mem: Word, i: nat)
    requires |e| >= 1 && PowerOfTwoAligned(e)
    requires mem % (End(e, 0, 0).maxAlign + 1) == 0
    requires 1 <= i < |e| && e[i].alloc
    ensures Placement(e, mem, 0, i) == Placement(e, 0, 0, i)
  {
    var k := GroupOf(e[i]);
    var w := Before(e, 0, 0, k, i);
    var m := Mask(e[i], w.f);
    assert Before(e, mem, 0, k, i) == w by {
      SameWalk(e, mem, k, i);
    }
    assert StartAt(w, m, mem) == StartAt(w, m, 0) by {
      SameStart(e, mem, k, i);
    }
    BaseNoDiff(mem, k);
    BaseNoDiff(0, k);
  }

  /** Every section the second pass places at a nonzero buffer address mem (a multiple of the
      final `max_align + 1`) lies within `offset + max_align` bytes of mem. The request
      `tcc_malloc(offset + max_align)` is an `unsigned` sum: the section lies inside the bytes
      requested when that sum does not wrap 32 bits. */
  lemma BufferCovers(e: seq<Section>, mem: Word, i: nat)
    requires |e| >= 1 && PowerOfTwoAligned(e) && Fits(e, 0, 0)
    requires mem != 0 && mem + U32_MOD <= WORD_MOD
    requires mem % (End(e, 0, 0).maxAlign + 1) == 0
    requires 1 <= i < |e| && e[i].alloc
    ensures Laid(e, mem, 0)[i].addr == mem + Placement(e, 0, 0, i)
    ensures mem <= Laid(e, mem, 0)[i].addr
    ensures Laid(e, mem, 0)[i].addr + e[i].dataOffset
            <= mem + End(e, 0, 0).offset + End(e, 0, 0).maxAlign
    ensures End(e, 0, 0).offset + End(e, 0, 0).maxAlign < U32_MOD ==>
            Laid(e, mem, 0)[i].addr + e[i].dataOffset
            <= mem + (End(e, 0, 0).offset + End(e, 0, 0).maxAlign) % U32_MOD
  {
    var p := Placement(e, 0, 0, i);
    assert Placement(e, mem, 0, i) == p by {
      SamePlacement(e, mem, i);
    }
    assert p + e[i].dataOffset <= End(e, 0, 0).offset by {
      PlacedWithinEnd(e, 0, 0, i);
    }
    assert Laid(e, mem, 0)[i].addr == mem + p by {
      BaseNoDiff(mem, GroupOf(e[i]));
      LaidAddr(e, mem, 0, i, mem + p, 1);
    }
    if End(e, 0, 0).offset + End(e, 0, 0).maxAlign < U32_MOD {
      ModSmall(End(e, 0, 0).offset + End(e, 0, 0).maxAlign, U32_MOD);
    }
  }

  /** Two section tables that differ at most in `sh_addr`. */
  predicate SameShape(e1: seq<Section>, e2: seq<Section>)
  {
    |e1| == |e2| && forall j :: 0 <= j < |e1| ==> e1[j].(addr := 0) == e2[j].(addr := 0)
  }

  /** A pass reads no `sh_addr`: tables of the same shape go through the same states. */
  lemma {:induction false} ShapeWalk(e1: seq<Section>, e2: seq<Section>, mem: Word, ptrDiff: Word, k: nat, i: nat)
    requires SameShape(e1, e2) && 1 <= i <= |e1| && k < 2
    ensures Before(e1, mem, ptrDiff, k, i) == Before(e2, mem, ptrDiff, k, i)
    decreases k, i
  {
    if i == 1 {
      if k == 1 {
        ShapeWalk(e1, e2, mem, ptrDiff, 0, |e1|);
      }
    } else {
      ShapeWalk(e1, e2, mem, ptrDiff, k, i - 1);
      assert e1[i - 1].(addr := 0) == e2[i - 1].(addr := 0);
    }
  }

  /** A laid-out table has the shape of the original. */
  lemma LaidKeepsShape(e: seq<Section>, mem: Word, ptrDiff: Word)
    ensures SameShape(Laid(e, mem, ptrDiff), e)
  {
    forall j | 0 <= j < |e|
      ensures Laid(e, mem, ptrDiff)[j].(addr := 0) == e[j].(addr := 0)
    {
      assert Laid(e, mem, ptrDiff)[j] == LaidOut(e, mem, ptrDiff, j);
    }
  }

  /** Section j of a table laid out twice is section j of the table laid out once by the second
      pass. */
  lemma RelaidAt(e: seq<Section>, mem1: Word, ptrDiff1: Word, mem2: Word, ptrDiff2: Word, j: nat)
    requires j < |e|
    ensures Laid(Laid(e, mem1, ptrDiff1), mem2, ptrDiff2)[j] == Laid(e, mem2, ptrDiff2)[j]
  {
    var e1 := Laid(e, mem1, ptrDiff1);
    assert e1[j] == LaidOut(e, mem1, ptrDiff1, j);
    assert e1[j].(addr := 0) == e[j].(addr := 0);
    assert Laid(e1, mem2, ptrDiff2)[j] == LaidOut(e1, mem2, ptrDiff2, j);
    assert Laid(e, mem2, ptrDiff2)[j] == LaidOut(e, mem2, ptrDiff2, j);
    if 1 <= j && e[j].alloc {
      assert Placement(e1, mem2, ptrDiff2, j) == Placement(e, mem2, ptrDiff2, j) by {
        LaidKeepsShape(e, mem1, ptrDiff1);
        ShapeWalk(e1, e, mem2, ptrDiff2, GroupOf(e[j]), j);
      }
    }
  }

  /** The second pass overwrites every address the sizing pass wrote: laying out an already laid
      out table gives the same table as laying out the original. */
  lemma RelayoutOverwrites(e: seq<Section>, mem1: Word, ptrDiff1: Word, mem2: Word, ptrDiff2: Word)
    ensures Laid(Laid(e, mem1, ptrDiff1), mem2, ptrDiff2) == Laid(e, mem2, ptrDiff2)
  {
    forall j | 0 <= j < |e|
      ensures Laid(Laid(e, mem1, ptrDiff1), mem2, ptrDiff2)[j] == Laid(e, mem2, ptrDiff2)[j]
    {
      RelaidAt(e, mem1, ptrDiff1, mem2, ptrDiff2, j);
    }
  }
}
