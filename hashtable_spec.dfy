/** Pure model of the open-addressed, chained hash table of help/hash_table.c, stated on the
    sequence of its slots. A slot's `next` is the index of the slot that follows it in the chain
    that lookups walk. */
module HashTableSpec {
  import opened Common
  import Arith

  const HASH_TABLE_SUCCESS: int := 0
  const HASH_TABLE_ERROR: int := 1
  const HASH_TABLE_DEFAULT_SIZE: nat := 10

  /** hash_table_entry_t; `next` is None where the source has a NULL pointer. */
  datatype Entry = Entry(hash: Word, filled: bool, value: Word, next: Option<nat>)

  /** A zeroed slot (calloc / memset). */
  const EMPTY: Entry := Entry(0, false, 0, None)

  /** The slot where probing for `h` starts: hash % capacity. */
  function Home(h: Word, cap: nat): (r: nat)
    requires cap > 0
    ensures r < cap
  {
    h % cap
  }

  /** The slot visited by the j-th probe: (start + j * j) % capacity. */
  function ProbeSlot(h: Word, cap: nat, j: nat): (r: nat)
    requires cap > 0
    ensures r < cap
  {
    (Home(h, cap) + j * j) % cap
  }

  /** The number of the first probe, from the i-th on and below the capacity, that meets an
      unfilled slot; None when every such probe meets a filled one. */
  function FreeProbeFrom(e: seq<Entry>, h: Word, i: nat): (r: Option<nat>)
    requires |e| > 0
    ensures r.Some? ==> i <= r.value < |e| && !e[ProbeSlot(h, |e|, r.value)].filled
    ensures r.Some? ==> forall j :: i <= j < r.value ==> e[ProbeSlot(h, |e|, j)].filled
    ensures r.None? <==> forall j :: i <= j < |e| ==> e[ProbeSlot(h, |e|, j)].filled
    decreases |e| - i
  {
    if i >= |e| then None
    else if !e[ProbeSlot(h, |e|, i)].filled then Some(i)
    else FreeProbeFrom(e, h, i + 1)
  }

  /** The first free probe from the i-th on is the k-th when probes i to k - 1 meet filled
      slots and the k-th an unfilled one. */
  lemma {:induction false} FreeProbeAt(e: seq<Entry>, h: Word, i: nat, k: nat)
    requires i <= k < |e| && !e[ProbeSlot(h, |e|, k)].filled
    requires forall j :: i <= j < k ==> e[ProbeSlot(h, |e|, j)].filled
    ensures FreeProbeFrom(e, h, i) == Some(k)
    decreases k - i
  {
    if i < k {
      FreeProbeAt(e, h, i + 1, k);
    }
  }

  /** The probe that hash_table_change_value settles on, if any. */
  function FreeProbe(e: seq<Entry>, h: Word): Option<nat>
    requires |e| > 0
  {
    FreeProbeFrom(e, h, 0)
  }

  /** `rank` strictly decreases along every `next` link, so chains are finite and acyclic. */
  ghost predicate Ranked(e: seq<Entry>, rank: seq<nat>)
  {
    |rank| == |e| &&
    forall i {:trigger e[i].next} :: 0 <= i < |e| && e[i].next.Some? ==>
      e[i].next.value < |e| && rank[e[i].next.value] < rank[i]
  }

  /** hash_table_find from slot i: the first slot on the chain that is filled and holds h. */
  function FindFrom(e: seq<Entry>, ghost rank: seq<nat>, h: Word, i: nat): (r: Option<nat>)
    requires Ranked(e, rank) && i < |e|
    ensures r.Some? ==> r.value < |e| && e[r.value].filled && e[r.value].hash == h
    decreases rank[i]
  {
    if e[i].hash == h && e[i].filled then Some(i)
    else
      match e[i].next
      case None => None
      case Some(j) => FindFrom(e, rank, h, j)
  }

  /** Some slot holds h. */
  ghost predicate Present(e: seq<Entry>, h: Word)
  {
    exists k :: 0 <= k < |e| && e[k].filled && e[k].hash == h
  }

  /** The shape the chains keep: links go from a filled slot to a filled slot that is not the
      home of the key it holds, and no slot has two predecessors. */
  ghost predicate Linked(e: seq<Entry>, rank: seq<nat>)
  {
    |e| > 0 && Ranked(e, rank) &&
    (forall i {:trigger e[i].next} :: 0 <= i < |e| && e[i].next.Some? ==>
       e[i].filled && e[e[i].next.value].filled &&
       Home(e[e[i].next.value].hash, |e|) != e[i].next.value) &&
    (forall i, j :: 0 <= i < |e| && 0 <= j < |e| && e[i].next.Some? && e[i].next == e[j].next ==> i == j)
  }

  /** Every stored key is found by walking from its home slot. */
  ghost predicate Findable(e: seq<Entry>, rank: seq<nat>)
    requires Ranked(e, rank)
  {
    forall k {:trigger FindFrom(e, rank, e[k].hash, Home(e[k].hash, |e|))} ::
      0 <= k < |e| && e[k].filled ==> FindFrom(e, rank, e[k].hash, Home(e[k].hash, |e|)) == Some(k)
  }

  ghost predicate TableInv(e: seq<Entry>, rank: seq<nat>)
  {
    Linked(e, rank) && Findable(e, rank)
  }

  /** hash_table_get_by_hash: the value stored under h, None for NULL. */
  function Lookup(e: seq<Entry>, ghost rank: seq<nat>, h: Word): Option<Word>
    requires Ranked(e, rank) && |e| > 0
  {
    match FindFrom(e, rank, h, Home(h, |e|))
    case None => None
    case Some(k) => Some(e[k].value)
  }

  /** The number of filled slots. */
  function CountFilled(e: seq<Entry>): (c: nat)
    ensures c <= |e|
    decreases |e|
  {
    if e == [] then 0 else CountFilled(e[..|e| - 1]) + (if e[|e| - 1].filled then 1 else 0)
  }

  /** A freshly calloc'd slot array. */
  function EmptyTable(cap: nat): (e: seq<Entry>)
    ensures |e| == cap && forall k :: 0 <= k < cap ==> e[k] == EMPTY
  {
    seq(cap, _ => EMPTY)
  }

  ghost function ZeroRank(cap: nat): (r: seq<nat>)
    ensures |r| == cap
  {
    seq(cap, _ => 0)
  }

  // ---------------------------------------------------------------------------------------
  // Basic facts

  /** A walk from any slot only ever finds a key that is stored. */
  lemma FindAbsent(e: seq<Entry>, rank: seq<nat>, h: Word, i: nat)
    requires Ranked(e, rank) && i < |e| && !Present(e, h)
    ensures FindFrom(e, rank, h, i) == None
  {
  }

  /** The result of a walk does not depend on which ranking witnesses termination. */
  lemma {:induction false} FindRankFree(e: seq<Entry>, r1: seq<nat>, r2: seq<nat>, h: Word, i: nat)
    requires Ranked(e, r1) && Ranked(e, r2) && i < |e|
    ensures FindFrom(e, r1, h, i) == FindFrom(e, r2, h, i)
    decreases r1[i]
  {
    if !(e[i].hash == h && e[i].filled) && e[i].next.Some? {
      FindRankFree(e, r1, r2, h, e[i].next.value);
    }
  }

  lemma LookupRankFree(e: seq<Entry>, r1: seq<nat>, r2: seq<nat>)
    requires Ranked(e, r1) && Ranked(e, r2) && |e| > 0
    ensures forall h :: Lookup(e, r1, h) == Lookup(e, r2, h)
  {
    forall h ensures Lookup(e, r1, h) == Lookup(e, r2, h) {
      FindRankFree(e, r1, r2, h, Home(h, |e|));
    }
  }

  /** An unfilled slot has no successor, so a walk from it finds nothing. */
  lemma FindFromUnfilled(e: seq<Entry>, rank: seq<nat>, h: Word, i: nat)
    requires Linked(e, rank) && i < |e| && !e[i].filled
    ensures FindFrom(e, rank, h, i) == None
  {
  }

  /** Under the invariant, a key is found exactly when it is stored, with its stored value. */
  lemma LookupExact(e: seq<Entry>, rank: seq<nat>, h: Word)
    requires TableInv(e, rank)
    ensures Lookup(e, rank, h).Some? <==> Present(e, h)
    ensures forall k :: 0 <= k < |e| && e[k].filled && e[k].hash == h ==> Lookup(e, rank, h) == Some(e[k].value)
  {
  }

  /** Under the invariant no two filled slots hold the same key. */
  lemma KeysDistinct(e: seq<Entry>, rank: seq<nat>, k1: nat, k2: nat)
    requires TableInv(e, rank) && k1 < |e| && k2 < |e| && e[k1].filled && e[k2].filled
    ensures e[k1].hash == e[k2].hash ==> k1 == k2
  {
    assert FindFrom(e, rank, e[k1].hash, Home(e[k1].hash, |e|)) == Some(k1);
    assert FindFrom(e, rank, e[k2].hash, Home(e[k2].hash, |e|)) == Some(k2);
  }

  /** init_hash_table / hash_table_clear: a zeroed table satisfies the invariant and is empty. */
  lemma EmptyTableInv(cap: nat)
    requires cap > 0
    ensures TableInv(EmptyTable(cap), ZeroRank(cap))
    ensures CountFilled(EmptyTable(cap)) == 0
    ensures forall h :: Lookup(EmptyTable(cap), ZeroRank(cap), h) == None
  {
    CountNoneFilled(EmptyTable(cap));
  }

  lemma {:induction false} CountNoneFilled(e: seq<Entry>)
    requires forall k :: 0 <= k < |e| ==> !e[k].filled
    ensures CountFilled(e) == 0
    decreases |e|
  {
    if e != [] {
      CountNoneFilled(e[..|e| - 1]);
    }
  }

  /** Replacing one slot changes the count by the change in that slot's fill flag. */
  lemma {:induction false} CountUpdate(e: seq<Entry>, k: nat, x: Entry)
    requires k < |e|
    ensures CountFilled(e[k := x]) ==
            CountFilled(e) - (if e[k].filled then 1 else 0) + (if x.filled then 1 else 0)
    decreases |e|
  {
    var l := |e| - 1;
    if k == l {
      assert e[k := x][..l] == e[..l];
    } else {
      assert e[k := x][..l] == e[..l][k := x];
      CountUpdate(e[..l], k, x);
    }
  }

  /** A table whose count equals its capacity has no unfilled slot. */
  lemma {:induction false} CountFull(e: seq<Entry>)
    requires CountFilled(e) == |e|
    ensures forall k :: 0 <= k < |e| ==> e[k].filled
    decreases |e|
  {
    if e != [] {
      var l := |e| - 1;
      CountFull(e[..l]);
      forall k | 0 <= k < |e| ensures e[k].filled {
        if k < l { assert e[k] == e[..l][k]; }
      }
    }
  }

  /** A successful probe means the table was not full. */
  lemma FreeProbeNotFull(e: seq<Entry>, h: Word)
    requires |e| > 0 && FreeProbe(e, h).Some?
    ensures CountFilled(e) < |e|
  {
    if CountFilled(e) == |e| {
      CountFull(e);
    }
  }

  // ---------------------------------------------------------------------------------------
  // hash_table_change_value: placing a key

  /** The slots after hash_table_change_value stores h with value v in the unfilled slot k: k
      takes the key, and when k is not the home slot it is spliced into the chain right after
      the home slot. */
  function PlaceAt(e: seq<Entry>, h: Word, v: Word, k: nat): (r: seq<Entry>)
    requires k < |e|
    ensures |r| == |e|
  {
    var s := Home(h, |e|);
    if k == s then e[k := e[k].(hash := h, filled := true, value := v)]
    else e[k := Entry(h, true, v, e[s].next)][s := e[s].(next := Some(k))]
  }

  /** A ranking for the chains after PlaceAt: the new slot takes the home slot's rank and every
      slot ranked at or above the home slot moves one up. */
  ghost function RankAfterPlace(rank: seq<nat>, s: nat, k: nat): (r: seq<nat>)
    requires s < |rank| && k < |rank|
    ensures |r| == |rank|
  {
    if k == s then rank
    else seq(|rank|, x requires 0 <= x < |rank| =>
               if x == k then rank[s] else if rank[x] >= rank[s] then rank[x] + 1 else rank[x])
  }

  /** Where the source may place a key: an unfilled slot, which is the home slot unless that
      one is taken. */
  ghost predicate PlaceableAt(e: seq<Entry>, h: Word, k: nat)
    requires |e| > 0
  {
    k < |e| && !e[k].filled && (k == Home(h, |e|) || e[Home(h, |e|)].filled)
  }

  /** The probe hash_table_change_value settles on is a place it may put the key. */
  lemma FreeProbePlaceable(e: seq<Entry>, h: Word)
    requires |e| > 0 && FreeProbe(e, h).Some?
    ensures PlaceableAt(e, h, ProbeSlot(h, |e|, FreeProbe(e, h).value))
  {
    var j := FreeProbe(e, h).value;
    Arith.ModSmall(Home(h, |e|), |e|);
    assert ProbeSlot(h, |e|, 0) == Home(h, |e|);
    if j > 0 {
      assert e[ProbeSlot(h, |e|, 0)].filled;
    }
  }

  lemma PlaceLinked(e: seq<Entry>, rank: seq<nat>, h: Word, v: Word, k: nat)
    requires Linked(e, rank) && PlaceableAt(e, h, k) && !Present(e, h)
    ensures Linked(PlaceAt(e, h, v, k), RankAfterPlace(rank, Home(h, |e|), k))
  {
    if k != Home(h, |e|) {
      PlaceSplicedRanked(e, rank, h, v, k);
      PlaceSplicedLinks(e, rank, h, v, k);
      PlaceSplicedUnique(e, rank, h, v, k);
    } else {
      PlaceHomeLinked(e, rank, h, v, k);
    }
  }

  lemma PlaceHomeLinked(e: seq<Entry>, rank: seq<nat>, h: Word, v: Word, k: nat)
    requires Linked(e, rank) && PlaceableAt(e, h, k) && k == Home(h, |e|)
    ensures Linked(PlaceAt(e, h, v, k), rank)
  {
    var e' := PlaceAt(e, h, v, k);
    assert e'[k].next == None;
    forall i | 0 <= i < |e| && i != k
      ensures e'[i] == e[i]
      ensures e[i].next.Some? ==> e[i].next.value != k
    {
    }
  }

  lemma PlaceSplicedRanked(e: seq<Entry>, rank: seq<nat>, h: Word, v: Word, k: nat)
    requires Linked(e, rank) && PlaceableAt(e, h, k) && k != Home(h, |e|)
    ensures Ranked(PlaceAt(e, h, v, k), RankAfterPlace(rank, Home(h, |e|), k))
  {
    var s := Home(h, |e|);
    var e' := PlaceAt(e, h, v, k);
    var r' := RankAfterPlace(rank, s, k);
    forall i | 0 <= i < |e'| && e'[i].next.Some?
      ensures e'[i].next.value < |e'| && r'[e'[i].next.value] < r'[i]
    {
      var j := e'[i].next.value;
      if i == s {
        assert j == k;
      } else if i == k {
        assert e[s].next == Some(j);
        assert rank[j] < rank[s];
        assert j != k;
      } else {
        assert e'[i] == e[i];
        assert e[j].filled;
        assert j != k;
        assert rank[j] < rank[i];
      }
    }
  }

  lemma PlaceSplicedLinks(e: seq<Entry>, rank: seq<nat>, h: Word, v: Word, k: nat)
    requires Linked(e, rank) && PlaceableAt(e, h, k) && k != Home(h, |e|)
    ensures var e' := PlaceAt(e, h, v, k);
      forall i :: 0 <= i < |e'| && e'[i].next.Some? ==>
        e'[i].next.value < |e'| && e'[i].filled && e'[e'[i].next.value].filled &&
        Home(e'[e'[i].next.value].hash, |e'|) != e'[i].next.value
  {
    var s := Home(h, |e|);
    var e' := PlaceAt(e, h, v, k);
    forall i | 0 <= i < |e'| && e'[i].next.Some?
      ensures e'[i].next.value < |e'| && e'[i].filled && e'[e'[i].next.value].filled
      ensures Home(e'[e'[i].next.value].hash, |e'|) != e'[i].next.value
    {
      var j := e'[i].next.value;
      if i == s {
        assert j == k;
      } else if i == k {
        assert e[s].next == Some(j);
        assert j != k && j != s;
      } else {
        assert e'[i] == e[i];
        assert e[j].filled;
        assert j != k;
      }
    }
  }

  lemma PlaceSplicedUnique(e: seq<Entry>, rank: seq<nat>, h: Word, v: Word, k: nat)
    requires Linked(e, rank) && PlaceableAt(e, h, k) && k != Home(h, |e|)
    ensures var e' := PlaceAt(e, h, v, k);
      forall i, j :: 0 <= i < |e'| && 0 <= j < |e'| && e'[i].next.Some? && e'[i].next == e'[j].next ==> i == j
  {
    var s := Home(h, |e|);
    var e' := PlaceAt(e, h, v, k);
    forall i, j | 0 <= i < |e'| && 0 <= j < |e'| && e'[i].next.Some? && e'[i].next == e'[j].next
      ensures i == j
    {
      if i != s && i != k {
        assert e'[i] == e[i];
        assert e[e[i].next.value].filled;
      }
      if j != s && j != k {
        assert e'[j] == e[j];
        assert e[e[j].next.value].filled;
      }
      if i != s && i != k && j != s && j != k {
        assert e[i].next == e[j].next;
      }
    }
  }

  /** For a key other than h, a walk from any slot but the new one gives the same answer
      before and after PlaceAt. */
  lemma {:induction false} PlaceWalk(e: seq<Entry>, rank: seq<nat>, h: Word, v: Word, k: nat, g: Word, i: nat)
    requires Linked(e, rank) && PlaceableAt(e, h, k) && !Present(e, h)
    requires Linked(PlaceAt(e, h, v, k), RankAfterPlace(rank, Home(h, |e|), k))
    requires g != h && i < |e| && i != k
    ensures FindFrom(PlaceAt(e, h, v, k), RankAfterPlace(rank, Home(h, |e|), k), g, i) == FindFrom(e, rank, g, i)
    decreases rank[i]
  {
    var s := Home(h, |e|);
    var e' := PlaceAt(e, h, v, k);
    var r' := RankAfterPlace(rank, s, k);
    if e[i].hash == g && e[i].filled {
      assert e'[i].hash == g && e'[i].filled;
    } else if i == s {
      assert e'[s].next == Some(k);
      assert e'[k].hash == h && e'[k].next == e[s].next;
      match e[s].next {
        case None =>
        case Some(t) =>
          PlaceWalk(e, rank, h, v, k, g, t);
      }
    } else {
      assert e'[i] == e[i];
      match e[i].next {
        case None =>
        case Some(t) =>
          assert e[t].filled;
          PlaceWalk(e, rank, h, v, k, g, t);
      }
    }
  }

  /** hash_table_change_value on an absent key keeps the invariant, maps h to v, leaves every
      other key's lookup as it was and fills one more slot. */
  lemma PlacePreserves(e: seq<Entry>, rank: seq<nat>, h: Word, v: Word, k: nat)
    requires TableInv(e, rank) && PlaceableAt(e, h, k) && !Present(e, h)
    ensures TableInv(PlaceAt(e, h, v, k), RankAfterPlace(rank, Home(h, |e|), k))
    ensures Lookup(PlaceAt(e, h, v, k), RankAfterPlace(rank, Home(h, |e|), k), h) == Some(v)
    ensures forall g :: g != h ==>
      Lookup(PlaceAt(e, h, v, k), RankAfterPlace(rank, Home(h, |e|), k), g) == Lookup(e, rank, g)
    ensures CountFilled(PlaceAt(e, h, v, k)) == CountFilled(e) + 1
  {
    PlaceLinked(e, rank, h, v, k);
    PlaceFindsNew(e, rank, h, v, k);
    PlaceFindable(e, rank, h, v, k);
    PlaceOtherLookups(e, rank, h, v, k);
    PlaceCount(e, h, v, k);
  }

  lemma PlaceFindsNew(e: seq<Entry>, rank: seq<nat>, h: Word, v: Word, k: nat)
    requires Linked(e, rank) && PlaceableAt(e, h, k) && !Present(e, h)
    requires Linked(PlaceAt(e, h, v, k), RankAfterPlace(rank, Home(h, |e|), k))
    ensures FindFrom(PlaceAt(e, h, v, k), RankAfterPlace(rank, Home(h, |e|), k), h, Home(h, |e|)) == Some(k)
  {
    var s := Home(h, |e|);
    var e' := PlaceAt(e, h, v, k);
    if k != s {
      assert e'[s].hash == e[s].hash && e'[s].filled && e'[s].next == Some(k);
    }
  }

  lemma PlaceFindable(e: seq<Entry>, rank: seq<nat>, h: Word, v: Word, k: nat)
    requires TableInv(e, rank) && PlaceableAt(e, h, k) && !Present(e, h)
    requires Linked(PlaceAt(e, h, v, k), RankAfterPlace(rank, Home(h, |e|), k))
    requires FindFrom(PlaceAt(e, h, v, k), RankAfterPlace(rank, Home(h, |e|), k), h, Home(h, |e|)) == Some(k)
    ensures Findable(PlaceAt(e, h, v, k), RankAfterPlace(rank, Home(h, |e|), k))
  {
    var e' := PlaceAt(e, h, v, k);
    var r' := RankAfterPlace(rank, Home(h, |e|), k);
    forall m | 0 <= m < |e'| && e'[m].filled
      ensures FindFrom(e', r', e'[m].hash, Home(e'[m].hash, |e'|)) == Some(m)
    {
      if m != k {
        var g := e[m].hash;
        assert e'[m].hash == g && e[m].filled;
        assert FindFrom(e, rank, g, Home(g, |e|)) == Some(m);
        if Home(g, |e|) == k {
          FindFromUnfilled(e, rank, g, k);
        }
        PlaceWalk(e, rank, h, v, k, g, Home(g, |e|));
      }
    }
  }

  lemma PlaceOtherLookups(e: seq<Entry>, rank: seq<nat>, h: Word, v: Word, k: nat)
    requires TableInv(e, rank) && PlaceableAt(e, h, k) && !Present(e, h)
    requires Linked(PlaceAt(e, h, v, k), RankAfterPlace(rank, Home(h, |e|), k))
    ensures forall g :: g != h ==>
      Lookup(PlaceAt(e, h, v, k), RankAfterPlace(rank, Home(h, |e|), k), g) == Lookup(e, rank, g)
  {
    var e' := PlaceAt(e, h, v, k);
    var r' := RankAfterPlace(rank, Home(h, |e|), k);
    forall g | g != h
      ensures Lookup(e', r', g) == Lookup(e, rank, g)
    {
      var u := Home(g, |e|);
      if u != k {
        PlaceWalk(e, rank, h, v, k, g, u);
      } else {
        FindFromUnfilled(e, rank, g, k);
        assert !Present(e', g);
        FindAbsent(e', r', g, u);
      }
    }
  }

  lemma PlaceCount(e: seq<Entry>, h: Word, v: Word, k: nat)
    requires |e| > 0 && PlaceableAt(e, h, k)
    ensures CountFilled(PlaceAt(e, h, v, k)) == CountFilled(e) + 1
  {
    var s := Home(h, |e|);
    if k != s {
      var e1 := e[k := Entry(h, true, v, e[s].next)];
      CountUpdate(e, k, e1[k]);
      CountUpdate(e1, s, e[s].(next := Some(k)));
    } else {
      CountUpdate(e, k, e[k].(hash := h, filled := true, value := v));
    }
  }

  // ---------------------------------------------------------------------------------------
  // hash_table_set / hash_table_set_by_hash on a stored key: the value is overwritten

  lemma {:induction false} SetValueWalk(e: seq<Entry>, rank: seq<nat>, m: nat, v: Word, g: Word, i: nat)
    requires Ranked(e, rank) && m < |e| && i < |e|
    ensures Ranked(e[m := e[m].(value := v)], rank)
    ensures FindFrom(e[m := e[m].(value := v)], rank, g, i) == FindFrom(e, rank, g, i)
    decreases rank[i]
  {
    var e' := e[m := e[m].(value := v)];
    assert forall j :: 0 <= j < |e| ==> e'[j].next == e[j].next;
    if !(e[i].hash == g && e[i].filled) && e[i].next.Some? {
      SetValueWalk(e, rank, m, v, g, e[i].next.value);
    }
  }

  /** Overwriting the value of a stored key keeps the invariant and the count, maps that key
      to the new value and leaves every other lookup as it was. */
  lemma SetValuePreserves(e: seq<Entry>, rank: seq<nat>, m: nat, v: Word)
    requires TableInv(e, rank) && m < |e| && e[m].filled
    ensures TableInv(e[m := e[m].(value := v)], rank)
    ensures CountFilled(e[m := e[m].(value := v)]) == CountFilled(e)
    ensures Lookup(e[m := e[m].(value := v)], rank, e[m].hash) == Some(v)
    ensures forall g :: g != e[m].hash ==> Lookup(e[m := e[m].(value := v)], rank, g) == Lookup(e, rank, g)
  {
    var e' := e[m := e[m].(value := v)];
    SetValueLinked(e, rank, m, v);
    forall k | 0 <= k < |e'| && e'[k].filled
      ensures FindFrom(e', rank, e'[k].hash, Home(e'[k].hash, |e'|)) == Some(k)
    {
      SetValueWalk(e, rank, m, v, e[k].hash, Home(e[k].hash, |e|));
    }
    forall g
      ensures Lookup(e', rank, g) == (if g == e[m].hash then Some(v) else Lookup(e, rank, g))
    {
      SetValueWalk(e, rank, m, v, g, Home(g, |e|));
    }
    CountUpdate(e, m, e'[m]);
  }

  lemma SetValueLinked(e: seq<Entry>, rank: seq<nat>, m: nat, v: Word)
    requires Linked(e, rank) && m < |e|
    ensures Linked(e[m := e[m].(value := v)], rank)
  {
    var e' := e[m := e[m].(value := v)];
    assert forall j :: 0 <= j < |e| ==> e'[j].next == e[j].next && e'[j].hash == e[j].hash && e'[j].filled == e[j].filled;
  }

  // ---------------------------------------------------------------------------------------
  // hash_table_remove

  /** The walk of hash_table_remove from `cur`, whose predecessor is `prev`: the slot holding
      h and the slot before it on the chain (`prev` itself when h is at `cur`). */
  function MatchWalk(e: seq<Entry>, ghost rank: seq<nat>, h: Word, prev: nat, cur: nat): (r: (nat, nat))
    requires Linked(e, rank) && prev < |e| && cur < |e| && e[cur].filled
    requires FindFrom(e, rank, h, cur).Some?
    ensures r.1 == FindFrom(e, rank, h, cur).value
    ensures r.0 < |e| && (r.1 == cur ==> r.0 == prev) && (r.1 != cur ==> e[r.0].next == Some(r.1))
    decreases rank[cur]
  {
    if e[cur].hash == h then (prev, cur)
    else MatchWalk(e, rank, h, cur, e[cur].next.value)
  }

  /** One step of the removal walk past a slot that does not hold h. */
  lemma MatchWalkStep(e: seq<Entry>, rank: seq<nat>, h: Word, prev: nat, cur: nat)
    requires Linked(e, rank) && prev < |e| && cur < |e| && e[cur].filled && e[cur].hash != h
    requires FindFrom(e, rank, h, cur).Some?
    ensures e[cur].next.Some? && e[cur].next.value < |e| && rank[e[cur].next.value] < rank[cur]
    ensures e[e[cur].next.value].filled
    ensures FindFrom(e, rank, h, e[cur].next.value) == FindFrom(e, rank, h, cur)
    ensures MatchWalk(e, rank, h, cur, e[cur].next.value) == MatchWalk(e, rank, h, prev, cur)
  {
  }

  /** When a stored h is found from a filled home slot, the walk there is defined. */
  lemma MatchWalkStart(e: seq<Entry>, rank: seq<nat>, h: Word)
    requires TableInv(e, rank) && e[Home(h, |e|)].filled && Present(e, h)
    ensures FindFrom(e, rank, h, Home(h, |e|)).Some?
  {
    LookupExact(e, rank, h);
  }

  /** The removal is defined: the walk from a filled home slot reaches h before running off the
      end of the chain (the source dereferences NULL otherwise). */
  ghost predicate RemoveDefined(e: seq<Entry>, rank: seq<nat>, h: Word)
  {
    TableInv(e, rank) && (e[Home(h, |e|)].filled ==> Present(e, h))
  }

  /** The slot the removal empties: the one holding h, or, when h sits in its home slot with a
      successor, that successor (whose entry moves into the home slot). */
  ghost function Vacated(e: seq<Entry>, rank: seq<nat>, h: Word): (c: nat)
    requires RemoveDefined(e, rank, h) && e[Home(h, |e|)].filled
    ensures c < |e|
  {
    var s := Home(h, |e|);
    var m := MatchWalk(e, rank, h, s, s).1;
    if m == s && e[s].next.Some? then e[s].next.value else m
  }

  /** No stored key other than the one in slot c has c as its home slot. */
  ghost predicate NoOtherHome(e: seq<Entry>, c: nat)
    requires |e| > 0
  {
    forall k :: 0 <= k < |e| && e[k].filled && k != c ==> Home(e[k].hash, |e|) != c
  }

  /** The removals whose result is proved to keep the table sound: the slot emptied is not the
      home slot of another stored key. The source empties such a slot anyway, and that key is
      then no longer found (RemoveFindings.OtherHomeRemovalLosesKey); RemoveFindings.RemoveRebuilt
      is a removal that keeps it. */
  ghost predicate RemoveSafe(e: seq<Entry>, rank: seq<nat>, h: Word)
  {
    RemoveDefined(e, rank, h) &&
    (e[Home(h, |e|)].filled ==> NoOtherHome(e, Vacated(e, rank, h)))
  }

  /** hash_table_remove with its two repairs (see RemoveAsWritten): when h sits in its home slot
      with a successor, the successor's entry moves into the home slot and the successor's slot
      is cleared; when h sits further down a chain, its predecessor is linked past it whether
      or not it has a successor. */
  function RemoveSlots(e: seq<Entry>, ghost rank: seq<nat>, h: Word): (r: seq<Entry>)
    requires RemoveDefined(e, rank, h)
    ensures |r| == |e|
  {
    var s := Home(h, |e|);
    if !e[s].filled then e
    else
      var (p, m) := MatchWalk(e, rank, h, s, s);
      if m == s then
        match e[s].next
        case Some(a) => e[s := e[a]][a := EMPTY]
        case None => e[s := EMPTY]
      else e[p := e[p].(next := e[m].next)][m := EMPTY]
  }

  /** RemoveSlots when the home slot of h is unfilled: nothing is stored under h and nothing
      changes. */
  lemma RemoveSlotsUnfilled(e: seq<Entry>, rank: seq<nat>, h: Word)
    requires RemoveDefined(e, rank, h) && !e[Home(h, |e|)].filled
    ensures RemoveSlots(e, rank, h) == e && !Present(e, h)
  {
    LookupExact(e, rank, h);
  }

  /** RemoveSlots spelled out for the walk result (p, m) of a filled home slot. */
  lemma RemoveSlotsShape(e: seq<Entry>, rank: seq<nat>, h: Word, p: nat, m: nat)
    requires RemoveDefined(e, rank, h) && e[Home(h, |e|)].filled
    requires FindFrom(e, rank, h, Home(h, |e|)).Some?
    requires MatchWalk(e, rank, h, Home(h, |e|), Home(h, |e|)) == (p, m)
    ensures p < |e| && m < |e| && e[m].filled && e[m].hash == h && Present(e, h)
    ensures m == Home(h, |e|) && e[m].next.Some? ==>
      (e[m].next.value < |e| &&
       RemoveSlots(e, rank, h) == e[m := e[e[m].next.value]][e[m].next.value := EMPTY])
    ensures m == Home(h, |e|) && e[m].next.None? ==> RemoveSlots(e, rank, h) == e[m := EMPTY]
    ensures m != Home(h, |e|) ==> RemoveSlots(e, rank, h) == e[p := e[p].(next := e[m].next)][m := EMPTY]
  {
  }

  /** A walk result after the home slot takes over its successor a's entry. */
  function Redirect(r: Option<nat>, a: nat, s: nat): Option<nat>
  {
    if r == Some(a) then Some(s) else r
  }

  // Removal of a key that sits alone in its home slot.

  lemma RemoveAloneLinked(e: seq<Entry>, rank: seq<nat>, s: nat)
    requires Linked(e, rank) && s < |e| && e[s].filled && Home(e[s].hash, |e|) == s && e[s].next.None?
    ensures Linked(e[s := EMPTY], rank)
    ensures forall i :: 0 <= i < |e| && e[i].next.Some? ==> e[i].next.value != s
  {
    var e' := e[s := EMPTY];
    forall i | 0 <= i < |e| && e[i].next.Some?
      ensures e[i].next.value != s
    {
    }
    forall i | 0 <= i < |e| && i != s
      ensures e'[i] == e[i]
    {
    }
  }

  lemma {:induction false} RemoveAloneWalk(e: seq<Entry>, rank: seq<nat>, s: nat, g: Word, i: nat)
    requires Linked(e, rank) && s < |e| && e[s].filled && Home(e[s].hash, |e|) == s && e[s].next.None?
    requires Ranked(e[s := EMPTY], rank)
    requires forall j :: 0 <= j < |e| && e[j].next.Some? ==> e[j].next.value != s
    requires i < |e| && i != s
    ensures FindFrom(e[s := EMPTY], rank, g, i) == FindFrom(e, rank, g, i)
    decreases rank[i]
  {
    var e' := e[s := EMPTY];
    assert e'[i] == e[i];
    if !(e[i].hash == g && e[i].filled) && e[i].next.Some? {
      RemoveAloneWalk(e, rank, s, g, e[i].next.value);
    }
  }

  lemma RemoveAlonePreserves(e: seq<Entry>, rank: seq<nat>, s: nat)
    requires TableInv(e, rank) && s < |e| && e[s].filled && Home(e[s].hash, |e|) == s && e[s].next.None?
    requires NoOtherHome(e, s)
    ensures TableInv(e[s := EMPTY], rank)
    ensures CountFilled(e[s := EMPTY]) == CountFilled(e) - 1
    ensures Lookup(e[s := EMPTY], rank, e[s].hash) == None
    ensures forall g :: g != e[s].hash ==> Lookup(e[s := EMPTY], rank, g) == Lookup(e, rank, g)
  {
    RemoveAloneLinked(e, rank, s);
    RemoveAloneFindable(e, rank, s);
    RemoveAloneLookups(e, rank, s);
    CountUpdate(e, s, EMPTY);
  }

  lemma RemoveAloneFindable(e: seq<Entry>, rank: seq<nat>, s: nat)
    requires TableInv(e, rank) && s < |e| && e[s].filled && Home(e[s].hash, |e|) == s && e[s].next.None?
    requires Linked(e[s := EMPTY], rank)
    requires forall i :: 0 <= i < |e| && e[i].next.Some? ==> e[i].next.value != s
    ensures Findable(e[s := EMPTY], rank)
  {
    var e' := e[s := EMPTY];
    forall k | 0 <= k < |e'| && e'[k].filled
      ensures FindFrom(e', rank, e'[k].hash, Home(e'[k].hash, |e'|)) == Some(k)
    {
      assert k != s && e'[k] == e[k];
      assert FindFrom(e, rank, e[k].hash, Home(e[k].hash, |e|)) == Some(k);
      RemoveAloneWalk(e, rank, s, e[k].hash, Home(e[k].hash, |e|));
    }
  }

  lemma RemoveAloneLookups(e: seq<Entry>, rank: seq<nat>, s: nat)
    requires TableInv(e, rank) && s < |e| && e[s].filled && Home(e[s].hash, |e|) == s && e[s].next.None?
    requires NoOtherHome(e, s)
    requires Linked(e[s := EMPTY], rank)
    requires forall i :: 0 <= i < |e| && e[i].next.Some? ==> e[i].next.value != s
    ensures Lookup(e[s := EMPTY], rank, e[s].hash) == None
    ensures forall g :: g != e[s].hash ==> Lookup(e[s := EMPTY], rank, g) == Lookup(e, rank, g)
  {
    var e' := e[s := EMPTY];
    var h := e[s].hash;
    forall g | g != h
      ensures Lookup(e', rank, g) == Lookup(e, rank, g)
    {
      if Home(g, |e|) != s {
        RemoveAloneWalk(e, rank, s, g, Home(g, |e|));
      } else {
        assert !Present(e, g);
        assert !Present(e', g);
        FindAbsent(e', rank, g, s);
        FindAbsent(e, rank, g, s);
      }
    }
    assert !Present(e', h) by {
      forall k | 0 <= k < |e'| && e'[k].filled
        ensures e'[k].hash != h
      {
        KeysDistinct(e, rank, k, s);
      }
    }
    FindAbsent(e', rank, h, s);
  }

  // Removal of a key that sits in its home slot with a successor a: a's entry moves up.

  lemma RemoveHeadLinked(e: seq<Entry>, rank: seq<nat>, s: nat)
    requires Linked(e, rank) && s < |e| && e[s].filled && Home(e[s].hash, |e|) == s && e[s].next.Some?
    ensures var a := e[s].next.value; Linked(e[s := e[a]][a := EMPTY], rank)
    ensures forall i :: 0 <= i < |e| && e[i].next.Some? ==> e[i].next.value != s
    ensures forall i :: 0 <= i < |e| && i != s && e[i].next.Some? ==> e[i].next.value != e[s].next.value
  {
    var a := e[s].next.value;
    var e' := e[s := e[a]][a := EMPTY];
    assert a != s;
    forall i | 0 <= i < |e| && e[i].next.Some?
      ensures e[i].next.value != s
      ensures i != s ==> e[i].next.value != a
    {
    }
    forall i | 0 <= i < |e| && i != s && i != a
      ensures e'[i] == e[i]
    {
    }
    assert e'[s] == e[a] && e'[a] == EMPTY;
    forall i | 0 <= i < |e'| && e'[i].next.Some?
      ensures e'[i].next.value < |e'| && rank[e'[i].next.value] < rank[i]
      ensures e'[i].filled && e'[e'[i].next.value].filled
      ensures Home(e'[e'[i].next.value].hash, |e'|) != e'[i].next.value
    {
      var j := e'[i].next.value;
      if i == s {
        assert e[a].next == Some(j);
        assert j != a && j != s;
      } else {
        assert e[i].next == Some(j);
        assert j != a && j != s;
      }
    }
    forall i, j | 0 <= i < |e'| && 0 <= j < |e'| && e'[i].next.Some? && e'[i].next == e'[j].next
      ensures i == j
    {
      if i != s && j != s {
        assert e[i].next == e[j].next;
      }
    }
  }

  lemma {:induction false} RemoveHeadWalk(e: seq<Entry>, e': seq<Entry>, rank: seq<nat>, s: nat, a: nat, g: Word, i: nat)
    requires Linked(e, rank) && s < |e| && e[s].filled && Home(e[s].hash, |e|) == s && e[s].next == Some(a)
    requires e' == e[s := e[a]][a := EMPTY] && Ranked(e', rank)
    requires forall j :: 0 <= j < |e| && j != s && e[j].next.Some? ==> e[j].next.value != a
    requires g != e[s].hash && i < |e| && i != a
    ensures FindFrom(e', rank, g, i) == Redirect(FindFrom(e, rank, g, i), a, s)
    decreases rank[i]
  {
    if i == s {
      assert e'[s] == e[a];
      if !(e[a].hash == g) && e[a].next.Some? {
        RemoveHeadWalk(e, e', rank, s, a, g, e[a].next.value);
      }
    } else {
      assert e'[i] == e[i];
      if !(e[i].hash == g && e[i].filled) && e[i].next.Some? {
        RemoveHeadWalk(e, e', rank, s, a, g, e[i].next.value);
      }
    }
  }

  lemma RemoveHeadPreserves(e: seq<Entry>, rank: seq<nat>, s: nat)
    requires TableInv(e, rank) && s < |e| && e[s].filled && Home(e[s].hash, |e|) == s && e[s].next.Some?
    requires NoOtherHome(e, e[s].next.value)
    ensures var a := e[s].next.value; TableInv(e[s := e[a]][a := EMPTY], rank)
    ensures var a := e[s].next.value; CountFilled(e[s := e[a]][a := EMPTY]) == CountFilled(e) - 1
    ensures var a := e[s].next.value; Lookup(e[s := e[a]][a := EMPTY], rank, e[s].hash) == None
    ensures var a := e[s].next.value; forall g :: g != e[s].hash ==>
      Lookup(e[s := e[a]][a := EMPTY], rank, g) == Lookup(e, rank, g)
  {
    var a := e[s].next.value;
    var e' := e[s := e[a]][a := EMPTY];
    RemoveHeadLinked(e, rank, s);
    assert e[a].filled && a != s;
    forall k | 0 <= k < |e'| && e'[k].filled
      ensures FindFrom(e', rank, e'[k].hash, Home(e'[k].hash, |e'|)) == Some(k)
    {
      RemoveHeadFinds(e, e', rank, s, a, k);
    }
    forall g | g != e[s].hash
      ensures Lookup(e', rank, g) == Lookup(e, rank, g)
    {
      RemoveHeadLookup(e, e', rank, s, a, g);
    }
    RemoveHeadGone(e, e', rank, s, a);
    CountUpdate(e, s, e[a]);
    CountUpdate(e[s := e[a]], a, EMPTY);
  }

  lemma RemoveHeadFinds(e: seq<Entry>, e': seq<Entry>, rank: seq<nat>, s: nat, a: nat, k: nat)
    requires TableInv(e, rank) && s < |e| && e[s].filled && Home(e[s].hash, |e|) == s && e[s].next == Some(a)
    requires NoOtherHome(e, a)
    requires e' == e[s := e[a]][a := EMPTY] && Linked(e', rank)
    requires forall j :: 0 <= j < |e| && j != s && e[j].next.Some? ==> e[j].next.value != a
    requires k < |e'| && e'[k].filled
    ensures FindFrom(e', rank, e'[k].hash, Home(e'[k].hash, |e'|)) == Some(k)
  {
    assert a != s;
    if k == s {
      var g := e[a].hash;
      KeysDistinct(e, rank, a, s);
      assert FindFrom(e, rank, g, Home(g, |e|)) == Some(a);
      RemoveHeadWalk(e, e', rank, s, a, g, Home(g, |e|));
    } else {
      assert k != a && e'[k] == e[k];
      var g := e[k].hash;
      KeysDistinct(e, rank, k, s);
      assert FindFrom(e, rank, g, Home(g, |e|)) == Some(k);
      RemoveHeadWalk(e, e', rank, s, a, g, Home(g, |e|));
    }
  }

  lemma RemoveHeadLookup(e: seq<Entry>, e': seq<Entry>, rank: seq<nat>, s: nat, a: nat, g: Word)
    requires TableInv(e, rank) && s < |e| && e[s].filled && Home(e[s].hash, |e|) == s && e[s].next == Some(a)
    requires NoOtherHome(e, a)
    requires e' == e[s := e[a]][a := EMPTY] && Linked(e', rank)
    requires forall j :: 0 <= j < |e| && j != s && e[j].next.Some? ==> e[j].next.value != a
    requires g != e[s].hash
    ensures Lookup(e', rank, g) == Lookup(e, rank, g)
  {
    assert a != s && e'[s] == e[a];
    var u := Home(g, |e|);
    if u != a {
      RemoveHeadWalk(e, e', rank, s, a, g, u);
    } else {
      HeadSuccessorHomeAbsent(e, e', rank, s, a, g);
      FindAbsent(e', rank, g, u);
      FindAbsent(e, rank, g, u);
    }
  }

  /** A key whose home is the successor slot a is stored nowhere, before or after. */
  lemma HeadSuccessorHomeAbsent(e: seq<Entry>, e': seq<Entry>, rank: seq<nat>, s: nat, a: nat, g: Word)
    requires Linked(e, rank) && s < |e| && e[s].next == Some(a) && NoOtherHome(e, a)
    requires e' == e[s := e[a]][a := EMPTY] && Home(g, |e|) == a
    ensures !Present(e, g) && !Present(e', g)
  {
    assert e[a].filled && Home(e[a].hash, |e|) != a;
    forall k | 0 <= k < |e| && e[k].filled
      ensures e[k].hash != g
    {
    }
    forall k | 0 <= k < |e'| && e'[k].filled
      ensures e'[k].hash != g
    {
      if k == s {
        assert e'[k] == e[a];
      } else {
        assert k != a && e'[k] == e[k];
      }
    }
  }

  lemma RemoveHeadGone(e: seq<Entry>, e': seq<Entry>, rank: seq<nat>, s: nat, a: nat)
    requires TableInv(e, rank) && s < |e| && e[s].filled && Home(e[s].hash, |e|) == s && e[s].next == Some(a)
    requires e' == e[s := e[a]][a := EMPTY] && Ranked(e', rank)
    ensures Lookup(e', rank, e[s].hash) == None
  {
    assert a != s && e'[s] == e[a];
    forall k | 0 <= k < |e'| && e'[k].filled
      ensures e'[k].hash != e[s].hash
    {
      if k == s {
        KeysDistinct(e, rank, a, s);
      } else {
        KeysDistinct(e, rank, k, s);
      }
    }
    FindAbsent(e', rank, e[s].hash, s);
  }

  // Removal of a key m further down a chain, after slot p: p is linked past m.

  lemma RemoveMidLinked(e: seq<Entry>, e': seq<Entry>, rank: seq<nat>, p: nat, m: nat)
    requires Linked(e, rank) && p < |e| && m < |e| && e[p].next == Some(m)
    requires e' == e[p := e[p].(next := e[m].next)][m := EMPTY]
    ensures Linked(e', rank)
    ensures forall i :: 0 <= i < |e| && i != p && e[i].next.Some? ==> e[i].next.value != m
  {
    assert p != m && e[m].filled;
    forall i | 0 <= i < |e| && i != p && e[i].next.Some?
      ensures e[i].next.value != m
    {
    }
    forall i | 0 <= i < |e| && i != p && i != m
      ensures e'[i] == e[i]
    {
    }
    forall i | 0 <= i < |e'| && e'[i].next.Some?
      ensures e'[i].next.value < |e'| && rank[e'[i].next.value] < rank[i]
      ensures e'[i].filled && e'[e'[i].next.value].filled
      ensures Home(e'[e'[i].next.value].hash, |e'|) != e'[i].next.value
    {
      var j := e'[i].next.value;
      if i == p {
        assert e[m].next == Some(j);
        assert j != m && j != p;
      } else {
        assert e[i].next == Some(j);
        assert j != m;
      }
    }
    forall i, j | 0 <= i < |e'| && 0 <= j < |e'| && e'[i].next.Some? && e'[i].next == e'[j].next
      ensures i == j
    {
      if i != p && j != p {
        assert e[i].next == e[j].next;
      }
    }
  }

  lemma {:induction false} RemoveMidWalk(e: seq<Entry>, e': seq<Entry>, rank: seq<nat>, p: nat, m: nat, g: Word, i: nat)
    requires Linked(e, rank) && p < |e| && m < |e| && e[p].next == Some(m)
    requires e' == e[p := e[p].(next := e[m].next)][m := EMPTY] && Ranked(e', rank)
    requires forall j :: 0 <= j < |e| && j != p && e[j].next.Some? ==> e[j].next.value != m
    requires g != e[m].hash && i < |e| && i != m
    ensures FindFrom(e', rank, g, i) == FindFrom(e, rank, g, i)
    decreases rank[i]
  {
    if i == p {
      assert e'[p].hash == e[p].hash && e'[p].filled == e[p].filled;
      if !(e[p].hash == g && e[p].filled) && e[m].next.Some? {
        RemoveMidWalk(e, e', rank, p, m, g, e[m].next.value);
      }
    } else {
      assert e'[i] == e[i];
      if !(e[i].hash == g && e[i].filled) && e[i].next.Some? {
        RemoveMidWalk(e, e', rank, p, m, g, e[i].next.value);
      }
    }
  }

  lemma RemoveMidPreserves(e: seq<Entry>, rank: seq<nat>, p: nat, m: nat)
    requires TableInv(e, rank) && p < |e| && m < |e| && e[p].next == Some(m)
    requires NoOtherHome(e, m)
    ensures TableInv(e[p := e[p].(next := e[m].next)][m := EMPTY], rank)
    ensures CountFilled(e[p := e[p].(next := e[m].next)][m := EMPTY]) == CountFilled(e) - 1
    ensures Lookup(e[p := e[p].(next := e[m].next)][m := EMPTY], rank, e[m].hash) == None
    ensures forall g :: g != e[m].hash ==>
      Lookup(e[p := e[p].(next := e[m].next)][m := EMPTY], rank, g) == Lookup(e, rank, g)
  {
    var e' := e[p := e[p].(next := e[m].next)][m := EMPTY];
    RemoveMidLinked(e, e', rank, p, m);
    forall k | 0 <= k < |e'| && e'[k].filled
      ensures FindFrom(e', rank, e'[k].hash, Home(e'[k].hash, |e'|)) == Some(k)
    {
      RemoveMidFinds(e, e', rank, p, m, k);
    }
    forall g | g != e[m].hash
      ensures Lookup(e', rank, g) == Lookup(e, rank, g)
    {
      RemoveMidLookup(e, e', rank, p, m, g);
    }
    RemoveMidGone(e, e', rank, p, m);
    CountUpdate(e, p, e[p].(next := e[m].next));
    CountUpdate(e[p := e[p].(next := e[m].next)], m, EMPTY);
  }

  lemma RemoveMidFinds(e: seq<Entry>, e': seq<Entry>, rank: seq<nat>, p: nat, m: nat, k: nat)
    requires TableInv(e, rank) && p < |e| && m < |e| && e[p].next == Some(m)
    requires NoOtherHome(e, m)
    requires e' == e[p := e[p].(next := e[m].next)][m := EMPTY] && Linked(e', rank)
    requires forall j :: 0 <= j < |e| && j != p && e[j].next.Some? ==> e[j].next.value != m
    requires k < |e'| && e'[k].filled
    ensures FindFrom(e', rank, e'[k].hash, Home(e'[k].hash, |e'|)) == Some(k)
  {
    assert k != m && p != m && e[m].filled;
    assert e'[k].hash == e[k].hash && e[k].filled;
    var g := e[k].hash;
    KeysDistinct(e, rank, k, m);
    assert FindFrom(e, rank, g, Home(g, |e|)) == Some(k);
    RemoveMidWalk(e, e', rank, p, m, g, Home(g, |e|));
  }

  lemma RemoveMidLookup(e: seq<Entry>, e': seq<Entry>, rank: seq<nat>, p: nat, m: nat, g: Word)
    requires TableInv(e, rank) && p < |e| && m < |e| && e[p].next == Some(m)
    requires NoOtherHome(e, m)
    requires e' == e[p := e[p].(next := e[m].next)][m := EMPTY] && Linked(e', rank)
    requires forall j :: 0 <= j < |e| && j != p && e[j].next.Some? ==> e[j].next.value != m
    requires g != e[m].hash
    ensures Lookup(e', rank, g) == Lookup(e, rank, g)
  {
    assert p != m && e[m].filled;
    var u := Home(g, |e|);
    if u != m {
      RemoveMidWalk(e, e', rank, p, m, g, u);
    } else {
      forall k | 0 <= k < |e| && e[k].filled
        ensures e[k].hash != g
      {
      }
      forall k | 0 <= k < |e'| && e'[k].filled
        ensures e'[k].hash != g
      {
        assert k != m && e'[k].hash == e[k].hash && e[k].filled;
      }
      FindAbsent(e', rank, g, u);
      FindAbsent(e, rank, g, u);
    }
  }

  lemma RemoveMidGone(e: seq<Entry>, e': seq<Entry>, rank: seq<nat>, p: nat, m: nat)
    requires TableInv(e, rank) && p < |e| && m < |e| && e[p].next == Some(m)
    requires e' == e[p := e[p].(next := e[m].next)][m := EMPTY] && Ranked(e', rank)
    ensures Lookup(e', rank, e[m].hash) == None
  {
    assert p != m && e[m].filled;
    forall k | 0 <= k < |e'| && e'[k].filled
      ensures e'[k].hash != e[m].hash
    {
      assert e'[k].hash == e[k].hash && e[k].filled;
      KeysDistinct(e, rank, k, m);
    }
    FindAbsent(e', rank, e[m].hash, Home(e[m].hash, |e|));
  }

  /** hash_table_remove (with its repairs) keeps the invariant, makes h absent, leaves every
      other key's lookup as it was, and lowers the count by one exactly when h was stored. */
  lemma RemovePreserves(e: seq<Entry>, rank: seq<nat>, h: Word)
    requires RemoveSafe(e, rank, h)
    ensures TableInv(RemoveSlots(e, rank, h), rank)
    ensures Lookup(RemoveSlots(e, rank, h), rank, h) == None
    ensures forall g :: g != h ==> Lookup(RemoveSlots(e, rank, h), rank, g) == Lookup(e, rank, g)
    ensures CountFilled(RemoveSlots(e, rank, h)) == CountFilled(e) - (if Present(e, h) then 1 else 0)
  {
    var s := Home(h, |e|);
    if !e[s].filled {
      LookupExact(e, rank, h);
    } else {
      assert FindFrom(e, rank, h, s).Some?;
      var (p, m) := MatchWalk(e, rank, h, s, s);
      assert e[m].hash == h && e[m].filled;
      if m == s {
        if e[s].next.Some? {
          RemoveHeadPreserves(e, rank, s);
        } else {
          RemoveAlonePreserves(e, rank, s);
        }
      } else {
        RemoveMidPreserves(e, rank, p, m);
      }
    }
  }

  // ---------------------------------------------------------------------------------------
  // The rehash loop of hash_table_maybe_grow

  /** The slots after hash_table_change_value(h, v): unchanged when probing fails. */
  function Offer(e: seq<Entry>, h: Word, v: Word): (r: seq<Entry>)
    requires |e| > 0
    ensures |r| == |e|
  {
    match FreeProbe(e, h)
    case None => e
    case Some(j) => PlaceAt(e, h, v, ProbeSlot(h, |e|, j))
  }

  /** The ranking after Offer. */
  ghost function OfferRank(e: seq<Entry>, rank: seq<nat>, h: Word): (r: seq<nat>)
    requires |e| > 0 && |rank| == |e|
    ensures |r| == |e|
  {
    match FreeProbe(e, h)
    case None => rank
    case Some(j) => RankAfterPlace(rank, Home(h, |e|), ProbeSlot(h, |e|, j))
  }

  /** hash_table_change_value on an absent key: when probing succeeds the key is stored with
      its value and nothing else changes; when it fails the table is untouched. */
  lemma OfferPreserves(e: seq<Entry>, rank: seq<nat>, h: Word, v: Word)
    requires TableInv(e, rank) && !Present(e, h)
    ensures TableInv(Offer(e, h, v), OfferRank(e, rank, h))
    ensures FreeProbe(e, h).Some? ==> Lookup(Offer(e, h, v), OfferRank(e, rank, h), h) == Some(v)
    ensures FreeProbe(e, h).None? ==> Offer(e, h, v) == e
    ensures forall g :: g != h ==> Lookup(Offer(e, h, v), OfferRank(e, rank, h), g) == Lookup(e, rank, g)
    ensures CountFilled(Offer(e, h, v)) == CountFilled(e) + (if FreeProbe(e, h).Some? then 1 else 0)
  {
    match FreeProbe(e, h) {
      case None =>
      case Some(j) =>
        FreeProbePlaceable(e, h);
        PlacePreserves(e, rank, h, v, ProbeSlot(h, |e|, j));
    }
  }

  /** The slots after keys[0], keys[1], ... have been offered in turn, with the values in vals,
      to hash_table_change_value on `e`; a key whose probing fails is dropped, since the
      source ignores the result. */
  function Rehash(e: seq<Entry>, keys: seq<Word>, vals: seq<Word>): (r: seq<Entry>)
    requires |e| > 0 && |keys| == |vals|
    ensures |r| == |e|
    decreases |keys|
  {
    if keys == [] then e
    else Offer(Rehash(e, keys[..|keys| - 1], vals[..|keys| - 1]), keys[|keys| - 1], vals[|keys| - 1])
  }

  /** Rehashing one more key offers it to the table rehashed so far. */
  lemma RehashSnoc(e: seq<Entry>, rank: seq<nat>, keys: seq<Word>, vals: seq<Word>, i: nat)
    requires |e| > 0 && |rank| == |e| && |keys| == |vals| && i < |keys|
    ensures Rehash(e, keys[..i + 1], vals[..i + 1]) == Offer(Rehash(e, keys[..i], vals[..i]), keys[i], vals[i])
    ensures RehashRank(e, rank, keys[..i + 1], vals[..i + 1]) ==
            OfferRank(Rehash(e, keys[..i], vals[..i]), RehashRank(e, rank, keys[..i], vals[..i]), keys[i])
  {
    assert keys[..i + 1][..i] == keys[..i] && vals[..i + 1][..i] == vals[..i];
  }

  /** A ranking for the chains Rehash builds. */
  ghost function RehashRank(e: seq<Entry>, rank: seq<nat>, keys: seq<Word>, vals: seq<Word>): (r: seq<nat>)
    requires |e| > 0 && |keys| == |vals| && |rank| == |e|
    ensures |r| == |e|
    decreases |keys|
  {
    if keys == [] then rank
    else
      var n := |keys| - 1;
      OfferRank(Rehash(e, keys[..n], vals[..n]), RehashRank(e, rank, keys[..n], vals[..n]), keys[n])
  }

  /** Every key found a free slot during the rehash. */
  ghost predicate AllPlaced(e: seq<Entry>, keys: seq<Word>, vals: seq<Word>)
    requires |e| > 0 && |keys| == |vals|
    decreases |keys|
  {
    keys == [] ||
    (AllPlaced(e, keys[..|keys| - 1], vals[..|keys| - 1]) &&
     FreeProbe(Rehash(e, keys[..|keys| - 1], vals[..|keys| - 1]), keys[|keys| - 1]).Some?)
  }

  ghost predicate Distinct(keys: seq<Word>)
  {
    forall i, j :: 0 <= i < j < |keys| ==> keys[i] != keys[j]
  }

  /** When every key is placed, the rehashed table keeps the invariant, maps each key to its
      value, leaves other lookups as they were and holds |keys| more entries. */
  lemma {:induction false} RehashPreserves(e: seq<Entry>, rank: seq<nat>, keys: seq<Word>, vals: seq<Word>)
    requires TableInv(e, rank) && |keys| == |vals| && Distinct(keys)
    requires forall i :: 0 <= i < |keys| ==> !Present(e, keys[i])
    requires AllPlaced(e, keys, vals)
    ensures TableInv(Rehash(e, keys, vals), RehashRank(e, rank, keys, vals))
    ensures forall i :: 0 <= i < |keys| ==>
      Lookup(Rehash(e, keys, vals), RehashRank(e, rank, keys, vals), keys[i]) == Some(vals[i])
    ensures forall g :: g !in keys ==>
      Lookup(Rehash(e, keys, vals), RehashRank(e, rank, keys, vals), g) == Lookup(e, rank, g)
    ensures CountFilled(Rehash(e, keys, vals)) == CountFilled(e) + |keys|
    decreases |keys|
  {
    if keys != [] {
      var n := |keys| - 1;
      var ks := keys[..n];
      var vs := vals[..n];
      assert Distinct(ks);
      assert forall i :: 0 <= i < |ks| ==> !Present(e, ks[i]) by {
        assert forall i :: 0 <= i < |ks| ==> ks[i] == keys[i];
      }
      RehashPreserves(e, rank, ks, vs);
      RehashExtend(e, rank, keys, vals, ks, vs, Rehash(e, ks, vs), RehashRank(e, rank, ks, vs));
    }
  }

  lemma RehashExtend(e: seq<Entry>, rank: seq<nat>, keys: seq<Word>, vals: seq<Word>,
                     ks: seq<Word>, vs: seq<Word>, e0: seq<Entry>, r0: seq<nat>)
    requires TableInv(e, rank) && |keys| == |vals| && |keys| > 0 && Distinct(keys)
    requires ks == keys[..|keys| - 1] && vs == vals[..|keys| - 1]
    requires forall i :: 0 <= i < |keys| ==> !Present(e, keys[i])
    requires AllPlaced(e, keys, vals)
    requires e0 == Rehash(e, ks, vs) && r0 == RehashRank(e, rank, ks, vs)
    requires TableInv(e0, r0)
    requires forall i :: 0 <= i < |ks| ==> Lookup(e0, r0, ks[i]) == Some(vs[i])
    requires forall g :: g !in ks ==> Lookup(e0, r0, g) == Lookup(e, rank, g)
    requires CountFilled(e0) == CountFilled(e) + |ks|
    ensures TableInv(Rehash(e, keys, vals), RehashRank(e, rank, keys, vals))
    ensures forall i :: 0 <= i < |keys| ==>
      Lookup(Rehash(e, keys, vals), RehashRank(e, rank, keys, vals), keys[i]) == Some(vals[i])
    ensures forall g :: g !in keys ==>
      Lookup(Rehash(e, keys, vals), RehashRank(e, rank, keys, vals), g) == Lookup(e, rank, g)
    ensures CountFilled(Rehash(e, keys, vals)) == CountFilled(e) + |keys|
  {
    var n := |keys| - 1;
    var h := keys[n];
    var e1 := Offer(e0, h, vals[n]);
    var r1 := OfferRank(e0, r0, h);
    assert Rehash(e, keys, vals) == e1 && RehashRank(e, rank, keys, vals) == r1;
    assert FreeProbe(e0, h).Some?;
    assert !Present(e0, h) by {
      assert h !in ks;
      LookupExact(e, rank, h);
      LookupExact(e0, r0, h);
    }
    assert TableInv(e1, r1) && CountFilled(e1) == CountFilled(e0) + 1
        && Lookup(e1, r1, h) == Some(vals[n])
        && forall g :: g != h ==> Lookup(e1, r1, g) == Lookup(e0, r0, g)
    by {
      OfferPreserves(e0, r0, h, vals[n]);
    }
    assert (forall i :: 0 <= i < |keys| ==> Lookup(e1, r1, keys[i]) == Some(vals[i]))
        && forall g :: g !in keys ==> Lookup(e1, r1, g) == Lookup(e, rank, g)
    by {
      RehashStep(e, rank, keys, vals, ks, vs, e0, r0, e1, r1);
    }
  }

  lemma RehashStep(e: seq<Entry>, rank: seq<nat>, keys: seq<Word>, vals: seq<Word>, ks: seq<Word>, vs: seq<Word>,
                   e0: seq<Entry>, r0: seq<nat>, e1: seq<Entry>, r1: seq<nat>)
    requires |keys| == |vals| && |keys| > 0 && Distinct(keys)
    requires ks == keys[..|keys| - 1] && vs == vals[..|keys| - 1]
    requires Ranked(e, rank) && Ranked(e0, r0) && Ranked(e1, r1) && |e| > 0 && |e0| > 0 && |e1| > 0
    requires forall i :: 0 <= i < |ks| ==> Lookup(e0, r0, ks[i]) == Some(vs[i])
    requires forall g :: g !in ks ==> Lookup(e0, r0, g) == Lookup(e, rank, g)
    requires Lookup(e1, r1, keys[|keys| - 1]) == Some(vals[|keys| - 1])
    requires forall g :: g != keys[|keys| - 1] ==> Lookup(e1, r1, g) == Lookup(e0, r0, g)
    ensures forall i :: 0 <= i < |keys| ==> Lookup(e1, r1, keys[i]) == Some(vals[i])
    ensures forall g :: g !in keys ==> Lookup(e1, r1, g) == Lookup(e, rank, g)
  {
    var n := |keys| - 1;
    forall i | 0 <= i < |keys|
      ensures Lookup(e1, r1, keys[i]) == Some(vals[i])
    {
      if i < n {
        assert ks[i] == keys[i] && vs[i] == vals[i];
        assert keys[i] != keys[n];
      }
    }
    forall g | g !in keys
      ensures Lookup(e1, r1, g) == Lookup(e, rank, g)
    {
      assert g != keys[n];
      assert g !in ks;
    }
  }

  /** After hash_table_change_value on an absent key, the stored keys are the old ones plus
      that key exactly when probing succeeded. */
  lemma OfferPresent(e: seq<Entry>, rank: seq<nat>, h: Word, v: Word)
    requires TableInv(e, rank) && !Present(e, h)
    ensures forall g :: Present(Offer(e, h, v), g) <==> Present(e, g) || (FreeProbe(e, h).Some? && g == h)
  {
    OfferPreserves(e, rank, h, v);
    forall g ensures Present(Offer(e, h, v), g) <==> Present(e, g) || (FreeProbe(e, h).Some? && g == h) {
      LookupExact(e, rank, g);
      LookupExact(Offer(e, h, v), OfferRank(e, rank, h), g);
    }
  }

  /** When h is placed, a list of the stored keys, each once, stays one with h appended. */
  lemma OfferListed(e: seq<Entry>, rank: seq<nat>, keys: seq<Word>, h: Word, v: Word)
    requires TableInv(e, rank) && !Present(e, h) && FreeProbe(e, h).Some?
    requires Distinct(keys) && forall g :: Present(e, g) <==> g in keys
    ensures Distinct(keys + [h])
    ensures forall g :: Present(Offer(e, h, v), g) <==> g in keys + [h]
  {
    OfferPresent(e, rank, h, v);
    assert h !in keys;
  }

  /** The value each of `keys` maps to (0 for a key that is not stored). */
  ghost function ValuesOf(e: seq<Entry>, rank: seq<nat>, keys: seq<Word>): (r: seq<Word>)
    requires Ranked(e, rank) && |e| > 0
    ensures |r| == |keys|
    ensures forall i :: 0 <= i < |keys| && Lookup(e, rank, keys[i]).Some? ==> Some(r[i]) == Lookup(e, rank, keys[i])
  {
    seq(|keys|, i requires 0 <= i < |keys| => Lookup(e, rank, keys[i]).GetOr(0))
  }

  /** Rehashing distinct keys into a zeroed table of capacity cap, when every key is placed,
      gives a sound table that holds exactly those keys, each with its value. */
  lemma RehashFresh(cap: nat, keys: seq<Word>, vals: seq<Word>)
    requires cap > 0 && |keys| == |vals| && Distinct(keys)
    requires AllPlaced(EmptyTable(cap), keys, vals)
    ensures TableInv(Rehash(EmptyTable(cap), keys, vals), RehashRank(EmptyTable(cap), ZeroRank(cap), keys, vals))
    ensures forall i :: 0 <= i < |keys| ==>
      Lookup(Rehash(EmptyTable(cap), keys, vals), RehashRank(EmptyTable(cap), ZeroRank(cap), keys, vals), keys[i]) == Some(vals[i])
    ensures forall g :: Present(Rehash(EmptyTable(cap), keys, vals), g) <==> g in keys
    ensures CountFilled(Rehash(EmptyTable(cap), keys, vals)) == |keys|
  {
    var e := EmptyTable(cap);
    EmptyTableInv(cap);
    RehashPreserves(e, ZeroRank(cap), keys, vals);
    var r := Rehash(e, keys, vals);
    var rr := RehashRank(e, ZeroRank(cap), keys, vals);
    forall g ensures Present(r, g) <==> g in keys {
      LookupExact(r, rr, g);
      if g in keys {
        var i :| 0 <= i < |keys| && keys[i] == g;
        assert Lookup(r, rr, keys[i]) == Some(vals[i]);
      }
    }
  }

  /** hash_table_maybe_grow when it grows: rehashing the listed keys of a sound table into a
      zeroed table of capacity cap, when every key is placed, gives a sound table with the
      same keys, the same lookups and the same count. */
  lemma GrowPreserves(e: seq<Entry>, rank: seq<nat>, keys: seq<Word>, cap: nat)
    requires TableInv(e, rank) && Distinct(keys) && cap > 0
    requires forall g :: Present(e, g) <==> g in keys
    requires AllPlaced(EmptyTable(cap), keys, ValuesOf(e, rank, keys))
    ensures TableInv(Rehash(EmptyTable(cap), keys, ValuesOf(e, rank, keys)),
                     RehashRank(EmptyTable(cap), ZeroRank(cap), keys, ValuesOf(e, rank, keys)))
    ensures CountFilled(Rehash(EmptyTable(cap), keys, ValuesOf(e, rank, keys))) == |keys|
    ensures forall g :: Present(Rehash(EmptyTable(cap), keys, ValuesOf(e, rank, keys)), g) <==> g in keys
    ensures forall g :: Lookup(Rehash(EmptyTable(cap), keys, ValuesOf(e, rank, keys)),
                               RehashRank(EmptyTable(cap), ZeroRank(cap), keys, ValuesOf(e, rank, keys)), g) ==
                        Lookup(e, rank, g)
  {
    var vals := ValuesOf(e, rank, keys);
    RehashFresh(cap, keys, vals);
    var r := Rehash(EmptyTable(cap), keys, vals);
    var rr := RehashRank(EmptyTable(cap), ZeroRank(cap), keys, vals);
    forall g ensures Lookup(r, rr, g) == Lookup(e, rank, g) {
      LookupExact(r, rr, g);
      LookupExact(e, rank, g);
      if g in keys {
        var j :| 0 <= j < |keys| && keys[j] == g;
        assert Lookup(r, rr, keys[j]) == Some(vals[j]);
      }
    }
  }

  /** Probes j and cap - j meet the same slot: (cap - j)^2 and j^2 agree modulo cap. */
  lemma ProbeMirror(h: Word, cap: nat, j: nat)
    requires 0 < j < cap
    ensures ProbeSlot(h, cap, cap - j) == ProbeSlot(h, cap, j)
  {
    var x := Home(h, cap) + j * j;
    assert (cap - j) * (cap - j) == cap * (cap - 2 * j) + j * j;
    Arith.ModShift(x, cap, cap - 2 * j);
  }

  /** The `capacity` probes of hash_table_change_value meet only the slots of the first
      capacity / 2 + 1 of them, so the probe can give up while other slots are unfilled. */
  lemma {:induction false} ProbeHalf(e: seq<Entry>, h: Word)
    requires |e| > 0
    ensures FreeProbe(e, h).None? <==>
      forall j :: 0 <= j <= |e| / 2 ==> e[ProbeSlot(h, |e|, j)].filled
  {
    if forall j :: 0 <= j <= |e| / 2 ==> e[ProbeSlot(h, |e|, j)].filled {
      forall j | 0 <= j < |e| ensures e[ProbeSlot(h, |e|, j)].filled {
        if j > |e| / 2 {
          ProbeMirror(h, |e|, j);
          assert e[ProbeSlot(h, |e|, |e| - j)].filled;
        }
      }
    }
  }

  /** A table of capacity 10 in which only the six slots 0, 1, 4, 5, 6 and 9 are filled
      turns away every key whose home slot is 0, although four slots are unfilled. */
  lemma HalfFilledMiss(e: seq<Entry>, h: Word)
    requires |e| == 10 && h % 10 == 0
    requires e[0].filled && e[1].filled && e[4].filled && e[5].filled && e[6].filled && e[9].filled
    ensures FreeProbe(e, h).None?
  {
    ProbeHalf(e, h);
    forall j | 0 <= j <= 5 ensures e[ProbeSlot(h, 10, j)].filled {
      assert Home(h, 10) == 0;
      assert ProbeSlot(h, 10, j) == (j * j) % 10;
      if j == 0 {
      } else if j == 1 {
      } else if j == 2 {
      } else if j == 3 {
        assert (j * j) % 10 == 9;
      } else if j == 4 {
        assert (j * j) % 10 == 6;
      } else {
        assert (j * j) % 10 == 5;
      }
    }
  }
}
