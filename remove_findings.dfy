/** hash_table_remove exactly as help/hash_table.c:85-126 writes it, the inputs on which it
    agrees with HashTableSpec.RemoveSlots (the repaired removal the rest of the model uses), and
    four inputs on which it breaks the table. The fourth, removing a key whose slot is another
    key's home slot, is excluded by HashTableSpec.RemoveSafe; its corrected form is
    RemoveRebuilt. */
module RemoveFindings {
  import opened Common
  import opened HashTableSpec
  import Arith

  /** The as-written removal does not dereference NULL: when h sits in its home slot with a
      successor, that successor has a successor too (the source clears `entry->next` after
      the copy, which is then the successor's successor). */
  ghost predicate AsWrittenDefined(e: seq<Entry>, rank: seq<nat>, h: Word)
  {
    RemoveDefined(e, rank, h) &&
    ((e[Home(h, |e|)].filled && MatchWalk(e, rank, h, Home(h, |e|), Home(h, |e|)).1 == Home(h, |e|) &&
      e[Home(h, |e|)].next.Some?) ==> e[e[Home(h, |e|)].next.value].next.Some?)
  }

  /** hash_table_remove as written: the home-slot case copies the successor down and then
      clears the successor's successor; the chain case relinks the predecessor only when the
      removed slot has a successor. */
  function RemoveAsWritten(e: seq<Entry>, ghost rank: seq<nat>, h: Word): (r: seq<Entry>)
    requires AsWrittenDefined(e, rank, h)
    ensures |r| == |e|
  {
    var s := Home(h, |e|);
    if !e[s].filled then e
    else
      var (p, m) := MatchWalk(e, rank, h, s, s);
      if m == s then
        match e[s].next
        case Some(a) => e[s := e[a]][e[a].next.value := EMPTY]
        case None => e[s := EMPTY]
      else if e[m].next.Some? then e[p := e[p].(next := e[m].next)][m := EMPTY]
      else e[m := EMPTY]
  }

  /** The inputs on which hash_table_remove as written leaves a sound table: a key in its home
      slot has no successor, and a key further down a chain has one. */
  ghost predicate SourceSound(e: seq<Entry>, rank: seq<nat>, h: Word)
  {
    RemoveDefined(e, rank, h) &&
    (e[Home(h, |e|)].filled ==>
       var s := Home(h, |e|);
       var m := MatchWalk(e, rank, h, s, s).1;
       (m == s ==> e[s].next.None?) && (m != s ==> e[m].next.Some?))
  }

  /** Where the source is sound, the repaired removal is exactly the removal as written. */
  lemma RemoveMatchesSource(e: seq<Entry>, rank: seq<nat>, h: Word)
    requires SourceSound(e, rank, h)
    ensures AsWrittenDefined(e, rank, h)
    ensures RemoveAsWritten(e, rank, h) == RemoveSlots(e, rank, h)
  {
    var s := Home(h, |e|);
    if e[s].filled {
      var (p, m) := MatchWalk(e, rank, h, s, s);
      RemoveSlotsShape(e, rank, h, p, m);
    }
  }

  /** Capacity 5 after inserting keys 0, 5 and 10 (values 1, 2, 3): all three start probing at
      slot 0, so 5 lands in slot 1 and 10 in slot 4, and the chain is 0 -> 4 -> 1
      (ThreeKeysBuilt). */
  function ThreeKeys(): seq<Entry>
  {
    [Entry(0, true, 1, Some(4)), Entry(5, true, 2, None), EMPTY, EMPTY, Entry(10, true, 3, Some(1))]
  }

  ghost function ThreeKeysRank(): seq<nat>
  {
    [2, 0, 0, 0, 1]
  }

  lemma ThreeKeysLinked()
    ensures Linked(ThreeKeys(), ThreeKeysRank())
  {
    var e := ThreeKeys();
    var r := ThreeKeysRank();
    assert Home(0, 5) == 0 && Home(5, 5) == 0 && Home(10, 5) == 0;
    assert forall i :: 0 <= i < 5 && e[i].next.Some? ==> i == 0 || i == 4;
    assert Ranked(e, r);
  }

  lemma ThreeKeysInv()
    ensures TableInv(ThreeKeys(), ThreeKeysRank())
    ensures Lookup(ThreeKeys(), ThreeKeysRank(), 5) == Some(2)
  {
    var e := ThreeKeys();
    var r := ThreeKeysRank();
    ThreeKeysLinked();
    assert Home(0, 5) == 0 && Home(5, 5) == 0 && Home(10, 5) == 0;
    assert FindFrom(e, r, 5, 1) == Some(1);
    assert FindFrom(e, r, 5, 4) == Some(1);
    forall k | 0 <= k < 5 && e[k].filled
      ensures FindFrom(e, r, e[k].hash, Home(e[k].hash, 5)) == Some(k)
    {
      assert k == 0 || k == 1 || k == 4;
      if k == 4 {
        assert FindFrom(e, r, 10, 4) == Some(4);
      }
    }
  }

  /** Removing key 0 as written keeps key 10 twice and loses key 5, which is still counted. */
  lemma HomeRemovalLosesKey()
    ensures AsWrittenDefined(ThreeKeys(), ThreeKeysRank(), 0)
    ensures Ranked(RemoveAsWritten(ThreeKeys(), ThreeKeysRank(), 0), ThreeKeysRank())
    ensures Lookup(RemoveAsWritten(ThreeKeys(), ThreeKeysRank(), 0), ThreeKeysRank(), 5) == None
    ensures RemoveAsWritten(ThreeKeys(), ThreeKeysRank(), 0)[0].hash == 10
    ensures RemoveAsWritten(ThreeKeys(), ThreeKeysRank(), 0)[4].hash == 10
  {
    var e := ThreeKeys();
    var r := ThreeKeysRank();
    ThreeKeysInv();
    assert Present(e, 0) by { assert e[0].filled && e[0].hash == 0; }
    assert MatchWalk(e, r, 0, 0, 0) == (0, 0);
    var e' := RemoveAsWritten(e, r, 0);
    assert e' == e[0 := e[4]][1 := EMPTY];
    assert Ranked(e', r);
    assert FindFrom(e', r, 5, 1) == None;
    assert FindFrom(e', r, 5, 0) == None;
  }

  /** The repaired removal of key 0 keeps key 5 with its value. */
  lemma HomeRemovalRepaired()
    ensures RemoveSafe(ThreeKeys(), ThreeKeysRank(), 0)
    ensures Lookup(RemoveSlots(ThreeKeys(), ThreeKeysRank(), 0), ThreeKeysRank(), 5) == Some(2)
    ensures TableInv(RemoveSlots(ThreeKeys(), ThreeKeysRank(), 0), ThreeKeysRank())
  {
    var e := ThreeKeys();
    var r := ThreeKeysRank();
    ThreeKeysInv();
    assert Present(e, 0) by { assert e[0].filled && e[0].hash == 0; }
    assert MatchWalk(e, r, 0, 0, 0) == (0, 0);
    assert Vacated(e, r, 0) == 4;
    assert NoOtherHome(e, 4);
    RemovePreserves(e, r, 0);
  }

  /** Capacity 5 after inserting keys 0 and 5 (values 1, 2): chain 0 -> 1 (TwoKeysBuilt). */
  function TwoKeys(): seq<Entry>
  {
    [Entry(0, true, 1, Some(1)), Entry(5, true, 2, None), EMPTY, EMPTY, EMPTY]
  }

  ghost function TwoKeysRank(): seq<nat>
  {
    [1, 0, 0, 0, 0]
  }

  lemma TwoKeysInv()
    ensures TableInv(TwoKeys(), TwoKeysRank())
  {
    var e := TwoKeys();
    var r := TwoKeysRank();
    assert Home(0, 5) == 0 && Home(5, 5) == 0;
    assert forall i :: 0 <= i < 5 && e[i].next.Some? ==> i == 0;
    assert Ranked(e, r);
    assert Linked(e, r);
    forall k | 0 <= k < 5 && e[k].filled
      ensures FindFrom(e, r, e[k].hash, Home(e[k].hash, 5)) == Some(k)
    {
      assert k == 0 || k == 1;
      if k == 1 {
        assert FindFrom(e, r, 5, 1) == Some(1);
      }
    }
  }

  /** Removing key 5 as written leaves slot 0 linked to the cleared slot 1; inserting key 10
      then probes slot 1 and links it to itself, so no ranking exists and a lookup that
      reaches slot 1 without a match never ends. */
  lemma ChainRemovalMakesCycle()
    ensures AsWrittenDefined(TwoKeys(), TwoKeysRank(), 5)
    ensures var e := RemoveAsWritten(TwoKeys(), TwoKeysRank(), 5);
      FreeProbe(e, 10) == Some(1) && ProbeSlot(10, 5, 1) == 1 &&
      PlaceAt(e, 10, 3, 1)[1].next == Some(1)
    ensures var e := RemoveAsWritten(TwoKeys(), TwoKeysRank(), 5);
      forall r :: !Ranked(PlaceAt(e, 10, 3, 1), r)
  {
    var e := TwoKeys();
    var r := TwoKeysRank();
    TwoKeysInv();
    assert Present(e, 5) by { assert e[1].filled && e[1].hash == 5; }
    assert MatchWalk(e, r, 5, 0, 0) == (0, 1);
    var e' := RemoveAsWritten(e, r, 5);
    assert e' == e[1 := EMPTY];
    assert ProbeSlot(10, 5, 0) == 0;
    assert ProbeSlot(10, 5, 1) == 1;
    var e2 := PlaceAt(e', 10, 3, 1);
    assert e2[1].next == Some(1);
  }

  /** The repaired removal of key 5 unlinks slot 1, and inserting key 10 afterwards keeps the
      table sound. */
  lemma ChainRemovalRepaired()
    ensures RemoveSafe(TwoKeys(), TwoKeysRank(), 5)
    ensures var e := RemoveSlots(TwoKeys(), TwoKeysRank(), 5);
      e[0].next == None && PlaceableAt(e, 10, 1) &&
      TableInv(PlaceAt(e, 10, 3, 1), RankAfterPlace(TwoKeysRank(), 0, 1))
  {
    var e := TwoKeys();
    var r := TwoKeysRank();
    TwoKeysInv();
    assert Present(e, 5) by { assert e[1].filled && e[1].hash == 5; }
    assert MatchWalk(e, r, 5, 0, 0) == (0, 1);
    assert Vacated(e, r, 5) == 1;
    assert NoOtherHome(e, 1);
    RemovePreserves(e, r, 5);
    var e' := RemoveSlots(e, r, 5);
    assert e' == e[0 := e[0].(next := None)][1 := EMPTY];
    assert Lookup(e', r, 10) == None;
    LookupExact(e', r, 10);
    PlacePreserves(e', r, 10, 3, 1);
  }

  /** Removing key 0 as written copies slot 1 into slot 0, whose `next` is then NULL, and
      clears through that NULL pointer; the input is one the repaired removal accepts. */
  lemma HomeRemovalWritesNull()
    ensures RemoveSafe(TwoKeys(), TwoKeysRank(), 0)
    ensures !AsWrittenDefined(TwoKeys(), TwoKeysRank(), 0)
  {
    var e := TwoKeys();
    var r := TwoKeysRank();
    TwoKeysInv();
    assert Present(e, 0) by { assert e[0].filled && e[0].hash == 0; }
    assert MatchWalk(e, r, 0, 0, 0) == (0, 0);
    assert Vacated(e, r, 0) == 1;
    assert NoOtherHome(e, 1);
  }

  /** The repaired removal of key 0 moves key 5 into its home slot and keeps the table sound. */
  lemma HomeRemovalNullRepaired()
    ensures RemoveSafe(TwoKeys(), TwoKeysRank(), 0)
    ensures RemoveSlots(TwoKeys(), TwoKeysRank(), 0) == [Entry(5, true, 2, None), EMPTY, EMPTY, EMPTY, EMPTY]
    ensures TableInv(RemoveSlots(TwoKeys(), TwoKeysRank(), 0), TwoKeysRank())
    ensures Lookup(RemoveSlots(TwoKeys(), TwoKeysRank(), 0), TwoKeysRank(), 5) == Some(2)
    ensures Lookup(RemoveSlots(TwoKeys(), TwoKeysRank(), 0), TwoKeysRank(), 0) == None
  {
    var e := TwoKeys();
    var r := TwoKeysRank();
    HomeRemovalWritesNull();
    assert MatchWalk(e, r, 0, 0, 0) == (0, 0);
    RemovePreserves(e, r, 0);
    assert Lookup(e, r, 5) == Some(2) by {
      assert Home(5, 5) == 0;
      assert FindFrom(e, r, 5, 1) == Some(1);
    }
  }

  /** Capacity 5 after inserting key 0 (value 1). */
  function OneKey(): seq<Entry>
  {
    [Entry(0, true, 1, None), EMPTY, EMPTY, EMPTY, EMPTY]
  }

  /** Inserting key 0 into a zeroed table stores it in its home slot. */
  lemma OneKeyBuilt()
    ensures Offer(EmptyTable(5), 0, 1) == OneKey()
  {
    var e := EmptyTable(5);
    assert Home(0, 5) == 0;
    OfferAtHome(e, 0, 1);
    assert e[0 := e[0].(hash := 0, filled := true, value := 1)] == OneKey();
  }

  /** hash_table_change_value when the home slot is free: the first probe takes it. */
  lemma OfferAtHome(e: seq<Entry>, h: Word, v: Word)
    requires |e| > 0 && !e[Home(h, |e|)].filled
    ensures Offer(e, h, v) == e[Home(h, |e|) := e[Home(h, |e|)].(hash := h, filled := true, value := v)]
  {
    assert ProbeSlot(h, |e|, 0) == Home(h, |e|) by {
      Arith.ModSmall(Home(h, |e|), |e|);
    }
    FreeProbeAt(e, h, 0, 0);
  }

  /** Inserting key 5 after key 0 meets slot 0 taken, lands in slot 1 and is spliced after 0. */
  lemma TwoKeysBuilt()
    ensures Offer(OneKey(), 5, 2) == TwoKeys()
  {
    var e := OneKey();
    assert ProbeSlot(5, 5, 0) == 0 && ProbeSlot(5, 5, 1) == 1;
    FreeProbeAt(e, 5, 0, 1);
    assert PlaceAt(e, 5, 2, 1) == TwoKeys();
  }

  /** Inserting key 10 after keys 0 and 5 meets slots 0 and 1 taken and lands in slot 4. */
  lemma ThreeKeysBuilt()
    ensures Offer(TwoKeys(), 10, 3) == ThreeKeys()
  {
    var e := TwoKeys();
    assert ProbeSlot(10, 5, 0) == 0 && ProbeSlot(10, 5, 1) == 1 && ProbeSlot(10, 5, 2) == 4;
    FreeProbeAt(e, 10, 0, 2);
    assert PlaceAt(e, 10, 3, 4) == ThreeKeys();
  }

  // ---------------------------------------------------------------------------------------
  // Emptying another key's home slot

  /** Capacity 5 after inserting keys 0, 5 and 1 (values 1, 2, 3): 5 lands in slot 1, which is
      the home slot of 1; 1 lands in slot 2 and is spliced after slot 1, so the chain is
      0 -> 1 -> 2. */
  function HomeInChain(): seq<Entry>
  {
    [Entry(0, true, 1, Some(1)), Entry(5, true, 2, Some(2)), Entry(1, true, 3, None), EMPTY, EMPTY]
  }

  ghost function HomeInChainRank(): seq<nat>
  {
    [2, 1, 0, 0, 0]
  }

  /** Inserting key 1 after keys 0 and 5 meets its home slot 1 taken, lands in slot 2 and is
      spliced after slot 1. */
  lemma HomeInChainBuilt()
    ensures Offer(TwoKeys(), 1, 3) == HomeInChain()
  {
    var e := TwoKeys();
    assert ProbeSlot(1, 5, 0) == 1 && ProbeSlot(1, 5, 1) == 2;
    FreeProbeAt(e, 1, 0, 1);
    assert PlaceAt(e, 1, 3, 2) == HomeInChain();
  }

  lemma HomeInChainInv()
    ensures TableInv(HomeInChain(), HomeInChainRank())
    ensures Lookup(HomeInChain(), HomeInChainRank(), 0) == Some(1)
    ensures Lookup(HomeInChain(), HomeInChainRank(), 1) == Some(3)
  {
    var e := HomeInChain();
    var r := HomeInChainRank();
    assert Home(0, 5) == 0 && Home(5, 5) == 0 && Home(1, 5) == 1;
    assert forall i :: 0 <= i < 5 && e[i].next.Some? ==> i == 0 || i == 1;
    assert Ranked(e, r);
    assert Linked(e, r);
    assert FindFrom(e, r, 1, 1) == Some(2);
    forall k | 0 <= k < 5 && e[k].filled
      ensures FindFrom(e, r, e[k].hash, Home(e[k].hash, 5)) == Some(k)
    {
      assert k == 0 || k == 1 || k == 2;
      if k == 1 {
        assert FindFrom(e, r, 5, 1) == Some(1);
      }
    }
  }

  /** Removing key 5 as written relinks slot 0 to slot 2 and clears slot 1, the home slot of
      key 1: key 1 is still stored and counted but no longer found. The repaired removal does
      the same (SourceSound holds), which is why RemoveSafe excludes this input. */
  lemma OtherHomeRemovalLosesKey()
    ensures TableInv(HomeInChain(), HomeInChainRank())
    ensures Lookup(HomeInChain(), HomeInChainRank(), 1) == Some(3)
    ensures !RemoveSafe(HomeInChain(), HomeInChainRank(), 5)
    ensures SourceSound(HomeInChain(), HomeInChainRank(), 5)
    ensures AsWrittenDefined(HomeInChain(), HomeInChainRank(), 5)
    ensures RemoveAsWritten(HomeInChain(), HomeInChainRank(), 5) ==
            [Entry(0, true, 1, Some(2)), EMPTY, Entry(1, true, 3, None), EMPTY, EMPTY]
    ensures Ranked(RemoveAsWritten(HomeInChain(), HomeInChainRank(), 5), HomeInChainRank())
    ensures Lookup(RemoveAsWritten(HomeInChain(), HomeInChainRank(), 5), HomeInChainRank(), 1) == None
  {
    var e := HomeInChain();
    var r := HomeInChainRank();
    HomeInChainInv();
    assert Present(e, 5) by { assert e[1].filled && e[1].hash == 5; }
    assert MatchWalk(e, r, 5, 0, 0) == (0, 1);
    assert Vacated(e, r, 5) == 1;
    assert e[2].filled && Home(e[2].hash, 5) == 1;
    RemoveMatchesSource(e, r, 5);
    var e' := RemoveAsWritten(e, r, 5);
    assert e' == e[0 := e[0].(next := Some(2))][1 := EMPTY];
    assert Ranked(e', r);
    assert FindFrom(e', r, 1, 1) == None;
  }

  /** The stored keys other than h, in slot order. */
  function KeysBut(e: seq<Entry>, h: Word): (r: seq<Word>)
    ensures |r| <= |e|
    decreases |e|
  {
    if e == [] then []
    else
      var n := |e| - 1;
      KeysBut(e[..n], h) + (if e[n].filled && e[n].hash != h then [e[n].hash] else [])
  }

  /** A key is stored in e exactly when it is stored before the last slot or in the last slot. */
  lemma PresentSnoc(e: seq<Entry>, g: Word)
    requires e != []
    ensures Present(e, g) <==> Present(e[..|e| - 1], g) || (e[|e| - 1].filled && e[|e| - 1].hash == g)
  {
    var n := |e| - 1;
    if Present(e, g) {
      var k :| 0 <= k < |e| && e[k].filled && e[k].hash == g;
      if k < n {
        assert e[..n][k] == e[k];
      }
    }
    if Present(e[..n], g) {
      var k :| 0 <= k < n && e[..n][k].filled && e[..n][k].hash == g;
      assert e[k] == e[..n][k];
    }
  }

  /** KeysBut lists exactly the stored keys other than h. */
  lemma {:induction false} KeysButListed(e: seq<Entry>, h: Word)
    ensures forall g :: g in KeysBut(e, h) <==> g != h && Present(e, g)
    decreases |e|
  {
    if e != [] {
      KeysButListed(e[..|e| - 1], h);
      forall g ensures Present(e, g) <==> Present(e[..|e| - 1], g) || (e[|e| - 1].filled && e[|e| - 1].hash == g) {
        PresentSnoc(e, g);
      }
    }
  }

  /** No two filled slots hold the same key. */
  ghost predicate UniqueKeys(e: seq<Entry>)
  {
    forall i, j :: 0 <= i < |e| && 0 <= j < |e| && e[i].filled && e[j].filled && e[i].hash == e[j].hash ==> i == j
  }

  /** When no key is stored twice, KeysBut lists each key once, and it has one entry fewer than
      the filled slots exactly when h is stored. */
  lemma {:induction false} KeysButDistinct(e: seq<Entry>, h: Word)
    requires UniqueKeys(e)
    ensures Distinct(KeysBut(e, h))
    ensures |KeysBut(e, h)| + (if Present(e, h) then 1 else 0) == CountFilled(e)
    decreases |e|
  {
    if e != [] {
      var n := |e| - 1;
      var p := e[..n];
      assert UniqueKeys(p) by {
        forall i, j | 0 <= i < n && 0 <= j < n && p[i].filled && p[j].filled && p[i].hash == p[j].hash
          ensures i == j
        {
          assert p[i] == e[i] && p[j] == e[j];
        }
      }
      KeysButDistinct(p, h);
      KeysButListed(p, h);
      assert e[n].filled ==> !Present(p, e[n].hash);
      PresentSnoc(e, h);
    }
  }

  /** hash_table_remove corrected for every sound table: the table rebuilt at the same capacity
      from the stored keys other than h, each with its value, the way hash_table_maybe_grow
      rebuilds it. */
  ghost function RemoveRebuilt(e: seq<Entry>, rank: seq<nat>, h: Word): (r: seq<Entry>)
    requires Ranked(e, rank) && |e| > 0
    ensures |r| == |e|
  {
    Rehash(EmptyTable(|e|), KeysBut(e, h), ValuesOf(e, rank, KeysBut(e, h)))
  }

  ghost function RebuiltRank(e: seq<Entry>, rank: seq<nat>, h: Word): (r: seq<nat>)
    requires Ranked(e, rank) && |e| > 0
    ensures |r| == |e|
  {
    RehashRank(EmptyTable(|e|), ZeroRank(|e|), KeysBut(e, h), ValuesOf(e, rank, KeysBut(e, h)))
  }

  /** When every remaining key finds a slot again, the rebuilt table is sound, h is gone, every
      other key keeps its value (including keys whose home slot held h) and the count drops by
      one exactly when h was stored. */
  lemma RemoveRebuiltPreserves(e: seq<Entry>, rank: seq<nat>, h: Word)
    requires TableInv(e, rank)
    requires AllPlaced(EmptyTable(|e|), KeysBut(e, h), ValuesOf(e, rank, KeysBut(e, h)))
    ensures TableInv(RemoveRebuilt(e, rank, h), RebuiltRank(e, rank, h))
    ensures Lookup(RemoveRebuilt(e, rank, h), RebuiltRank(e, rank, h), h) == None
    ensures forall g :: g != h ==> Lookup(RemoveRebuilt(e, rank, h), RebuiltRank(e, rank, h), g) == Lookup(e, rank, g)
    ensures CountFilled(RemoveRebuilt(e, rank, h)) == CountFilled(e) - (if Present(e, h) then 1 else 0)
  {
    var keys := KeysBut(e, h);
    var vals := ValuesOf(e, rank, keys);
    assert UniqueKeys(e) by {
      forall i, j | 0 <= i < |e| && 0 <= j < |e| && e[i].filled && e[j].filled && e[i].hash == e[j].hash
        ensures i == j
      {
        KeysDistinct(e, rank, i, j);
      }
    }
    KeysButDistinct(e, h);
    KeysButListed(e, h);
    RehashFresh(|e|, keys, vals);
    var r := RemoveRebuilt(e, rank, h);
    var rr := RebuiltRank(e, rank, h);
    LookupExact(r, rr, h);
    forall g | g != h ensures Lookup(r, rr, g) == Lookup(e, rank, g) {
      LookupExact(r, rr, g);
      LookupExact(e, rank, g);
      if g in keys {
        var j :| 0 <= j < |keys| && keys[j] == g;
        assert Lookup(r, rr, keys[j]) == Some(vals[j]);
      }
    }
  }

  /** The stored keys other than 5 in HomeInChain, in slot order, and their values. */
  lemma HomeInChainKeysBut()
    ensures KeysBut(HomeInChain(), 5) == [0, 1]
    ensures ValuesOf(HomeInChain(), HomeInChainRank(), [0, 1]) == [1, 3]
  {
    var e := HomeInChain();
    HomeInChainInv();
    assert e[..1][..0] == [] && KeysBut(e[..1], 5) == [0];
    assert e[..2][..1] == e[..1] && KeysBut(e[..2], 5) == [0];
    assert e[..3][..2] == e[..2] && KeysBut(e[..3], 5) == [0, 1];
    assert e[..4][..3] == e[..3] && KeysBut(e[..4], 5) == [0, 1];
    assert e[..4] == e[..|e| - 1];
  }

  /** Rebuilding keys 0 and 1 (values 1, 3) at capacity 5 puts each in its home slot. */
  lemma RebuildZeroOne()
    ensures AllPlaced(EmptyTable(5), [0, 1], [1, 3])
    ensures Rehash(EmptyTable(5), [0, 1], [1, 3]) ==
            [Entry(0, true, 1, None), Entry(1, true, 3, None), EMPTY, EMPTY, EMPTY]
  {
    var e0 := EmptyTable(5);
    var keys: seq<Word> := [0, 1];
    var vals: seq<Word> := [1, 3];
    OneKeyBuilt();
    assert keys[..1] == [0] && vals[..1] == [1] && keys[..1][..0] == [] && vals[..1][..0] == [];
    assert Rehash(e0, keys[..1], vals[..1]) == OneKey();
    assert Home(0, 5) == 0 && Home(1, 5) == 1;
    assert FreeProbe(e0, 0).Some? by {
      OfferAtHome(e0, 0, 1);
      FreeProbeAt(e0, 0, 0, 0);
    }
    assert FreeProbe(OneKey(), 1).Some? by {
      assert ProbeSlot(1, 5, 0) == 1;
      FreeProbeAt(OneKey(), 1, 0, 0);
    }
    OfferAtHome(OneKey(), 1, 3);
    assert OneKey()[1 := OneKey()[1].(hash := 1, filled := true, value := 3)] ==
           [Entry(0, true, 1, None), Entry(1, true, 3, None), EMPTY, EMPTY, EMPTY];
  }

  /** The corrected removal of key 5 leaves key 0 alone in its home slot and key 1 in its own,
      both with their values. */
  lemma OtherHomeRemovalRebuilt()
    ensures RemoveRebuilt(HomeInChain(), HomeInChainRank(), 5) ==
            [Entry(0, true, 1, None), Entry(1, true, 3, None), EMPTY, EMPTY, EMPTY]
    ensures TableInv(RemoveRebuilt(HomeInChain(), HomeInChainRank(), 5), RebuiltRank(HomeInChain(), HomeInChainRank(), 5))
    ensures Lookup(RemoveRebuilt(HomeInChain(), HomeInChainRank(), 5), RebuiltRank(HomeInChain(), HomeInChainRank(), 5), 1) == Some(3)
    ensures Lookup(RemoveRebuilt(HomeInChain(), HomeInChainRank(), 5), RebuiltRank(HomeInChain(), HomeInChainRank(), 5), 0) == Some(1)
    ensures Lookup(RemoveRebuilt(HomeInChain(), HomeInChainRank(), 5), RebuiltRank(HomeInChain(), HomeInChainRank(), 5), 5) == None
  {
    var e := HomeInChain();
    var r := HomeInChainRank();
    HomeInChainInv();
    HomeInChainKeysBut();
    RebuildZeroOne();
    RemoveRebuiltPreserves(e, r, 5);
  }
}
