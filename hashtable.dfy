/** hash_table_t of help/hash_table.c: a slot array and an array of the inserted hashes, both
    updated in place. Slot `next` pointers are slot indices; the values, which the source keeps
    as `void *`, are words. */
module HashTables {
  import opened Common
  import opened StringHash
  import opened HashTableSpec
  import Arith

  /** The capacity hash_table_maybe_grow moves to when newN entries do not fit in cap: twice the
      larger of cap and newN, unless doubling cap already exceeds newN. */
  function GrownCapacity(cap: nat, newN: nat): (r: nat)
    requires cap < newN
    ensures newN < r && 2 * cap <= r
    ensures r == 2 * cap || r == 2 * newN
  {
    2 * (if 2 * cap > newN then cap else newN)
  }

  /** The realloc of hash_table_maybe_grow: a fresh array of length c starting with the
      contents of a; the rest, which realloc leaves unspecified, is zero here. */
  method Realloc(a: array<Word>, c: nat) returns (b: array<Word>)
    ensures fresh(b) && b.Length == c
    ensures a.Length <= c ==> b[..a.Length] == a[..]
  {
    var kept := a[..];
    b := new Word[c](i => if 0 <= i < |kept| then kept[i] else 0);
    if a.Length <= c {
      assert b[..a.Length] == kept;
    }
  }

  class HashTable {
    var hashes: array<Word>
    var entries: array<Entry>
    var capacity: nat
    var n: nat
    /** Witnesses that every chain of `next` links ends. */
    ghost var rank: seq<nat>

    /** The slots form sound chains and n counts the filled ones. */
    ghost predicate Valid()
      reads this, entries
    {
      entries.Length == capacity && hashes.Length == capacity && capacity > 0 &&
      TableInv(entries[..], rank) && n == CountFilled(entries[..])
    }

    /** hashes[..n] lists the stored keys, each once; the rehash of hash_table_maybe_grow
        walks this list. */
    ghost predicate Listed()
      reads this, entries, hashes
      requires Valid()
    {
      Distinct(hashes[..n]) && forall g :: Present(entries[..], g) <==> g in hashes[..n]
    }

    /** The chains can be walked: what hash_table_find needs. */
    ghost predicate Walkable()
      reads this, entries
    {
      entries.Length == capacity && capacity > 0 && Ranked(entries[..], rank)
    }

    /** The value stored under h, None when h is not stored. */
    ghost function ValueOf(h: Word): Option<Word>
      reads this, entries
      requires Valid()
    {
      Lookup(entries[..], rank, h)
    }

    /** Growing to room for newN entries rehashes every listed key into the new table. */
    ghost predicate GrowFits(newN: nat)
      reads this, entries, hashes
      requires Valid() && Listed()
    {
      newN > capacity && n == capacity &&
      AllPlaced(EmptyTable(GrownCapacity(capacity, newN)), hashes[..capacity],
                ValuesOf(entries[..], rank, hashes[..capacity]))
    }

    /** The slots after hash_table_maybe_grow(newN). */
    ghost function AfterGrow(newN: nat): (r: seq<Entry>)
      reads this, entries, hashes
      requires Valid() && Listed() && (newN > capacity ==> GrowFits(newN))
    {
      if newN <= capacity then entries[..]
      else Rehash(EmptyTable(GrownCapacity(capacity, newN)), hashes[..capacity],
                  ValuesOf(entries[..], rank, hashes[..capacity]))
    }

    /** hash_table_set stores h on its first pass: h is stored already, or the probe after
        the growth finds a free slot. */
    ghost predicate SetFits(h: Word)
      reads this, entries, hashes
      requires Valid() && Listed()
    {
      Present(entries[..], h) ||
      ((n + 1 > capacity ==> GrowFits(n + 1)) && FreeProbe(AfterGrow(n + 1), h).Some?)
    }

    /** init_hash_table: a capacity below 1 becomes HASH_TABLE_DEFAULT_SIZE; all slots are
        zeroed and nothing is stored. */
    constructor Init(startCapacity: nat)
      ensures Valid() && Listed()
      ensures capacity == (if startCapacity < 1 then HASH_TABLE_DEFAULT_SIZE else startCapacity)
      ensures n == 0 && entries[..] == EmptyTable(capacity)
      ensures forall h :: ValueOf(h) == None
      ensures fresh(entries) && fresh(hashes)
    {
      var cap := if startCapacity < 1 then HASH_TABLE_DEFAULT_SIZE else startCapacity;
      hashes := new Word[cap];
      entries := new Entry[cap](_ => EMPTY);
      capacity := cap;
      n := 0;
      rank := ZeroRank(cap);
      new;
      assert entries[..] == EmptyTable(cap);
      EmptyTableInv(cap);
    }

    /** The new_hash_table of hash_table_maybe_grow: a zeroed slot array of capacity cap, with
        the hash array and the count carried over. */
    constructor Blank(hashArray: array<Word>, cap: nat, count: nat)
      requires cap > 0
      ensures hashes == hashArray && capacity == cap && n == count
      ensures entries.Length == cap && entries[..] == EmptyTable(cap) && rank == ZeroRank(cap)
      ensures fresh(entries)
    {
      hashes := hashArray;
      entries := new Entry[cap](_ => EMPTY);
      capacity := cap;
      n := count;
      rank := ZeroRank(cap);
      new;
      assert entries[..] == EmptyTable(cap);
    }

    /** hash_table_clear: zeroes every slot and the count; the hash array is left as it is. */
    method Clear()
      requires Valid()
      modifies this`n, this`rank, entries
      ensures Valid() && Listed() && n == 0
      ensures entries[..] == EmptyTable(capacity)
      ensures forall h :: ValueOf(h) == None
    {
      forall k | 0 <= k < entries.Length {
        entries[k] := EMPTY;
      }
      n := 0;
      rank := ZeroRank(capacity);
      assert entries[..] == EmptyTable(capacity);
      EmptyTableInv(capacity);
    }

    /** The probing loop of hash_table_change_value: slots (home + i*i) % capacity for
        i = 0, 1, ..., giving up when i reaches `capacity`; the index of the first unfilled
        slot, if any. */
    method ProbeFree(h: Word) returns (found: bool, index: nat)
      requires entries.Length == capacity && capacity > 0
      ensures found <==> FreeProbe(entries[..], h).Some?
      ensures found ==> index == ProbeSlot(h, capacity, FreeProbe(entries[..], h).value)
    {
      ghost var e := entries[..];
      var start := h % capacity;
      index := start;
      assert index == ProbeSlot(h, capacity, 0) by {
        Arith.ModSmall(start, capacity);
      }
      var i := 1;
      while entries[index].filled
        invariant 1 <= i <= capacity
        invariant index == ProbeSlot(h, capacity, i - 1)
        invariant forall j :: 0 <= j < i - 1 ==> e[ProbeSlot(h, capacity, j)].filled
        decreases capacity - i
      {
        if i >= capacity {
          assert FreeProbe(e, h).None? by {
            assert forall j :: 0 <= j < capacity ==> e[ProbeSlot(h, capacity, j)].filled;
          }
          return false, index;
        }
        index := (start + i * i) % capacity;
        assert index == ProbeSlot(h, capacity, i);
        i := i + 1;
      }
      assert FreeProbe(e, h) == Some(i - 1) by {
        FreeProbeAt(e, h, 0, i - 1);
      }
      found := true;
    }

    /** The write of hash_table_change_value: the slot found takes (h, filled, v) and, when it
        is not the home slot, is linked in right after the home slot. */
    method PlaceEntry(h: Word, v: Word, index: nat)
      requires entries.Length == capacity && index < capacity
      modifies entries
      ensures entries[..] == PlaceAt(old(entries[..]), h, v, index)
    {
      var start := h % capacity;
      entries[index] := entries[index].(hash := h, filled := true, value := v);
      if index != start {
        entries[index] := entries[index].(next := entries[start].next);
        entries[start] := entries[start].(next := Some(index));
      }
    }

    /** hash_table_change_value: quadratic probing from the home slot for an unfilled slot,
        giving up after `capacity` probes; the key goes into the slot found and, when that is
        not the home slot, is linked in right after it. */
    method ChangeValue(h: Word, v: Word) returns (status: int)
      requires entries.Length == capacity && capacity > 0 && |rank| == capacity
      modifies this`rank, entries
      ensures entries[..] == Offer(old(entries[..]), h, v)
      ensures rank == OfferRank(old(entries[..]), old(rank), h)
      ensures status == HASH_TABLE_SUCCESS <==> FreeProbe(old(entries[..]), h).Some?
      ensures status == HASH_TABLE_SUCCESS || status == HASH_TABLE_ERROR
    {
      ghost var e := entries[..];
      var found, index := ProbeFree(h);
      if !found {
        return HASH_TABLE_ERROR;
      }
      PlaceEntry(h, v, index);
      rank := OfferRank(e, rank, h);
      return HASH_TABLE_SUCCESS;
    }

    /** hash_table_insert: hash_table_change_value, and on success h is appended to the hash
        array and counted. */
    method Insert(h: Word, v: Word) returns (status: int)
      requires Valid() && ValueOf(h) == None
      modifies this`rank, this`n, entries, hashes
      ensures Valid()
      ensures status == HASH_TABLE_SUCCESS <==> FreeProbe(old(entries[..]), h).Some?
      ensures status == HASH_TABLE_SUCCESS ==>
        ValueOf(h) == Some(v) && n == old(n) + 1 && hashes[..n] == old(hashes[..n]) + [h]
      ensures status != HASH_TABLE_SUCCESS ==>
        status == HASH_TABLE_ERROR && entries[..] == old(entries[..]) && rank == old(rank) &&
        n == old(n) && hashes[..] == old(hashes[..]) && ValueOf(h) == None
      ensures forall g :: g != h ==> ValueOf(g) == old(ValueOf(g))
      ensures old(Listed()) ==> Listed()
    {
      ghost var e := entries[..];
      ghost var r := rank;
      ghost var keys := hashes[..n];
      ghost var listed := Listed();
      LookupExact(e, r, h);
      status := ChangeValue(h, v);
      ghost var e2 := entries[..];
      OfferPreserves(e, r, h, v);
      if status == HASH_TABLE_SUCCESS {
        FreeProbeNotFull(e, h);
        if listed {
          OfferListed(e, r, keys, h, v);
        }
        hashes[n] := h;
        n := n + 1;
        assert hashes[..n] == keys + [h];
        assert entries[..] == e2;
      }
    }

    /** hash_table_find: walks the chain from h's home slot to the slot holding h, None for
        NULL. */
    method Find(h: Word) returns (r: Option<nat>)
      requires Walkable()
      ensures r == FindFrom(entries[..], rank, h, Home(h, capacity))
    {
      ghost var e := entries[..];
      var cur: Option<nat> := Some(h % capacity);
      while cur.Some?
        invariant cur.Some? ==>
          (cur.value < capacity && FindFrom(e, rank, h, cur.value) == FindFrom(e, rank, h, Home(h, capacity)))
        invariant cur.None? ==> FindFrom(e, rank, h, Home(h, capacity)) == None
        decreases if cur.Some? then rank[cur.value] + 1 else 0
      {
        if entries[cur.value].hash == h && entries[cur.value].filled {
          return cur;
        }
        cur := entries[cur.value].next;
      }
      return None;
    }

    /** The walk of hash_table_remove: from h's home slot along the chain until an unfilled
        slot (only the home slot can be one) or the slot holding h, with the slot before it. */
    method RemoveWalk(h: Word) returns (prev: nat, cur: nat)
      requires Valid() && RemoveDefined(entries[..], rank, h)
      ensures !entries[Home(h, capacity)].filled ==> cur == Home(h, capacity)
      ensures entries[Home(h, capacity)].filled ==>
        FindFrom(entries[..], rank, h, Home(h, capacity)).Some? &&
        (prev, cur) == MatchWalk(entries[..], rank, h, Home(h, capacity), Home(h, capacity))
    {
      ghost var e := entries[..];
      assert Linked(e, rank);
      var start := h % capacity;
      prev, cur := start, start;
      while true
        invariant cur < capacity && prev < capacity
        invariant (cur == start && prev == start) ||
          (e[start].filled && FindFrom(e, rank, h, start).Some? && e[cur].filled &&
           FindFrom(e, rank, h, cur).Some? && MatchWalk(e, rank, h, prev, cur) == MatchWalk(e, rank, h, start, start))
        decreases rank[cur]
      {
        if !entries[cur].filled {
          return;
        }
        if cur == start {
          MatchWalkStart(e, rank, h);
        }
        if entries[cur].hash != h {
          MatchWalkStep(e, rank, h, prev, cur);
          prev := cur;
          cur := entries[cur].next.value;
          continue;
        }
        break;
      }
    }

    /** hash_table_remove, with the two repairs listed under Findings: when the walk stops at
        an unfilled slot nothing changes; otherwise the slot holding h is cleared and unlinked,
        and the count drops by one. */
    method Remove(h: Word) returns (status: int)
      requires Valid() && RemoveSafe(entries[..], rank, h)
      modifies this`n, entries
      ensures entries[..] == RemoveSlots(old(entries[..]), rank, h)
      ensures status == HASH_TABLE_SUCCESS && Valid()
      ensures n == old(n) - (if old(Present(entries[..], h)) then 1 else 0)
      ensures ValueOf(h) == None
      ensures forall g :: g != h ==> ValueOf(g) == old(ValueOf(g))
    {
      ghost var e := entries[..];
      var start := h % capacity;
      var prev, cur := RemoveWalk(h);
      if !entries[cur].filled {
        RemoveSlotsUnfilled(e, rank, h);
        FindFromUnfilled(e, rank, h, start);
        return HASH_TABLE_SUCCESS;
      }
      RemoveSlotsShape(e, rank, h, prev, cur);
      if cur == start {
        if entries[start].next.Some? {
          var a := entries[start].next.value;
          entries[start] := entries[a];
          entries[a] := EMPTY;
          assert entries[..] == e[start := e[a]][a := EMPTY];
        } else {
          entries[start] := EMPTY;
          assert entries[..] == e[start := EMPTY];
        }
      } else {
        entries[prev] := entries[prev].(next := entries[cur].next);
        entries[cur] := EMPTY;
        assert entries[..] == e[prev := e[prev].(next := e[cur].next)][cur := EMPTY];
      }
      RemovePreserves(e, rank, h);
      n := n - 1;
      return HASH_TABLE_SUCCESS;
    }

    /** The rehash loop of hash_table_maybe_grow: each listed key is looked up here and
        offered, with its value, to hash_table_change_value on `grown`, whose result is
        ignored. */
    method RehashInto(grown: HashTable)
      requires Walkable() && hashes.Length >= capacity
      requires forall j :: 0 <= j < capacity ==> Lookup(entries[..], rank, hashes[j]).Some?
      requires grown != this && grown.entries != entries
      requires grown.entries.Length == grown.capacity && grown.capacity > 0 && |grown.rank| == grown.capacity
      modifies grown`rank, grown.entries
      ensures grown.entries[..] ==
        Rehash(old(grown.entries[..]), hashes[..capacity], ValuesOf(entries[..], rank, hashes[..capacity]))
      ensures grown.rank ==
        RehashRank(old(grown.entries[..]), old(grown.rank), hashes[..capacity], ValuesOf(entries[..], rank, hashes[..capacity]))
    {
      ghost var keys := hashes[..capacity];
      ghost var vals := ValuesOf(entries[..], rank, keys);
      ghost var e0 := grown.entries[..];
      ghost var r0 := grown.rank;
      var i := 0;
      while i < capacity
        invariant 0 <= i <= capacity
        invariant grown.entries[..] == Rehash(e0, keys[..i], vals[..i])
        invariant grown.rank == RehashRank(e0, r0, keys[..i], vals[..i])
      {
        var slot := Find(hashes[i]);
        var value := entries[slot.value].value;
        assert value == vals[i];
        RehashSnoc(e0, r0, keys, vals, i);
        var _ := grown.ChangeValue(hashes[i], value);
        i := i + 1;
      }
      assert keys[..capacity] == keys && vals[..capacity] == vals;
    }

    /** hash_table_maybe_grow: nothing when newN fits; otherwise the table is rebuilt at the
        grown capacity with every listed key and its value, and stays valid and listed. */
    method MaybeGrow(newN: nat)
      requires Valid() && Listed()
      requires newN > capacity ==> GrowFits(newN)
      modifies this
      ensures Valid() && Listed() && n == old(n) && hashes[..n] == old(hashes[..n])
      ensures entries[..] == old(AfterGrow(newN))
      ensures forall g :: ValueOf(g) == old(ValueOf(g))
      ensures newN <= old(capacity) ==>
        capacity == old(capacity) && entries == old(entries) && hashes == old(hashes)
      ensures newN > old(capacity) ==>
        capacity == GrownCapacity(old(capacity), newN) && fresh(entries) && fresh(hashes)
    {
      if newN <= capacity {
        return;
      }
      ghost var e := entries[..];
      ghost var r := rank;
      ghost var keys := hashes[..capacity];
      ghost var target := AfterGrow(newN);
      assert keys == hashes[..n];
      assert forall j :: 0 <= j < capacity ==> Lookup(e, r, hashes[j]).Some? by {
        forall j | 0 <= j < capacity ensures Lookup(e, r, hashes[j]).Some? {
          assert hashes[j] in keys;
          LookupExact(e, r, hashes[j]);
        }
      }
      Grow(newN);
      GrowPreserves(e, r, keys, capacity);
    }

    /** The growing branch of hash_table_maybe_grow: the hash array is resized to the grown
        capacity, a zeroed slot array of that capacity is filled by RehashInto with the first
        `capacity` hashes, and the table takes it over. */
    method Grow(newN: nat)
      requires Walkable() && hashes.Length == capacity && newN > capacity
      requires forall j :: 0 <= j < capacity ==> Lookup(entries[..], rank, hashes[j]).Some?
      modifies this
      ensures capacity == GrownCapacity(old(capacity), newN) && n == old(n)
      ensures fresh(entries) && fresh(hashes) && entries.Length == capacity && hashes.Length == capacity
      ensures hashes[..old(capacity)] == old(hashes[..capacity])
      ensures entries[..] == Rehash(EmptyTable(capacity), old(hashes[..capacity]),
                                    old(ValuesOf(entries[..], rank, hashes[..capacity])))
      ensures rank == RehashRank(EmptyTable(capacity), ZeroRank(capacity), old(hashes[..capacity]),
                                 old(ValuesOf(entries[..], rank, hashes[..capacity])))
    {
      var newCapacity := GrownCapacity(capacity, newN);
      var grown := new HashTable.Blank(hashes, newCapacity, n);
      RehashInto(grown);
      var newHashes := Realloc(hashes, newCapacity);
      hashes := newHashes;
      entries := grown.entries;
      capacity := newCapacity;
      rank := grown.rank;
    }

    /** hash_table_exists: whether the name's djb2 hash is stored. */
    method Exists(name: CString) returns (r: bool)
      requires Valid()
      ensures r <==> Present(entries[..], Djb2(name))
    {
      var hash := HashDjb2(name);
      var slot := Find(hash);
      return slot.Some?;
    }

    /** hash_table_get_by_hash: the value stored under h, None for NULL. */
    method GetByHash(h: Word) returns (r: Option<Word>)
      requires Valid()
      ensures r == ValueOf(h)
    {
      var slot := Find(h);
      r := if slot.Some? then Some(entries[slot.value].value) else None;
    }

    /** hash_table_get: the value stored under the name's djb2 hash, None for NULL. */
    method Get(name: CString) returns (r: Option<Word>)
      requires Valid()
      ensures r == ValueOf(Djb2(name))
    {
      var hash := HashDjb2(name);
      var slot := Find(hash);
      r := if slot.Some? then Some(entries[slot.value].value) else None;
    }

    /** The update of a stored key in hash_table_set and hash_table_set_by_hash: the value of
        the filled slot m is overwritten and nothing else changes. */
    method SetSlotValue(m: nat, v: Word)
      requires Valid() && m < capacity && entries[m].filled
      modifies entries
      ensures Valid() && n == old(n) && entries[..] == old(entries[..])[m := old(entries[m]).(value := v)]
      ensures (old(Listed()) ==> Listed()) && ValueOf(entries[m].hash) == Some(v)
      ensures forall g :: g != entries[m].hash ==> ValueOf(g) == old(ValueOf(g))
      ensures forall g :: Present(entries[..], g) <==> old(Present(entries[..], g))
    {
      ghost var e := entries[..];
      SetValuePreserves(e, rank, m, v);
      LookupExact(e, rank, entries[m].hash);
      entries[m] := entries[m].(value := v);
      assert entries[..] == e[m := e[m].(value := v)];
      forall g ensures Present(entries[..], g) <==> Present(e, g) {
        LookupExact(e, rank, g);
        LookupExact(entries[..], rank, g);
      }
    }

    /** hash_table_set: a stored key gets the new value in place; otherwise the table grows
        for n + 1 entries and the key is inserted, and the loop repeats with a larger target
        until an insertion succeeds. Under SetFits the first pass succeeds. */
    method Set(name: CString, v: Word)
      requires Valid() && Listed() && SetFits(Djb2(name))
      modifies this, entries, hashes
      ensures Valid() && Listed()
      ensures ValueOf(Djb2(name)) == Some(v)
      ensures forall g :: g != Djb2(name) ==> ValueOf(g) == old(ValueOf(g))
      ensures n == old(n) + (if old(Present(entries[..], Djb2(name))) then 0 else 1)
    {
      var hash := HashDjb2(name);
      var slot := Find(hash);
      LookupExact(entries[..], rank, hash);
      if slot.Some? {
        SetSlotValue(slot.value, v);
        return;
      }
      var nex := n + 1;
      var status := HASH_TABLE_ERROR;
      while status != HASH_TABLE_SUCCESS
        invariant Valid() && Listed()
        invariant entries == old(entries) || fresh(entries)
        invariant hashes == old(hashes) || fresh(hashes)
        invariant status != HASH_TABLE_SUCCESS ==>
          nex == n + 1 && n == old(n) && ValueOf(hash) == None &&
          (nex > capacity ==> GrowFits(nex)) && FreeProbe(AfterGrow(nex), hash).Some? &&
          forall g :: ValueOf(g) == old(ValueOf(g))
        invariant status == HASH_TABLE_SUCCESS ==>
          ValueOf(hash) == Some(v) && n == old(n) + 1 &&
          forall g :: g != hash ==> ValueOf(g) == old(ValueOf(g))
        decreases if status == HASH_TABLE_SUCCESS then 0 else 1
      {
        status := GrowAndInsert(hash, v, nex);
        nex := nex + 1;
      }
    }

    /** One pass of the insertion loop of hash_table_set and hash_table_set_by_hash: grow for
        nex entries, then insert; the insertion succeeds exactly when the probe in the grown
        table finds an unfilled slot. */
    method GrowAndInsert(h: Word, v: Word, nex: nat) returns (status: int)
      requires Valid() && Listed() && ValueOf(h) == None
      requires nex > capacity ==> GrowFits(nex)
      modifies this, entries, hashes
      ensures Valid() && Listed()
      ensures status == HASH_TABLE_SUCCESS <==> old(FreeProbe(AfterGrow(nex), h)).Some?
      ensures status == HASH_TABLE_SUCCESS ==> ValueOf(h) == Some(v) && n == old(n) + 1
      ensures status != HASH_TABLE_SUCCESS ==> ValueOf(h) == None && n == old(n)
      ensures forall g :: g != h ==> ValueOf(g) == old(ValueOf(g))
      ensures entries == old(entries) || fresh(entries)
      ensures hashes == old(hashes) || fresh(hashes)
    {
      ghost var target := AfterGrow(nex);
      MaybeGrow(nex);
      assert entries[..] == target && ValueOf(h) == None;
      ghost var grownTable := entries;
      status := Insert(h, v);
      assert entries == grownTable;
    }

    /** hash_table_set_by_hash: like hash_table_set, but its loop returns after the first
        insertion attempt, so when that fails the key is silently not stored. */
    method SetByHash(h: Word, v: Word)
      requires Valid() && Listed()
      requires !Present(entries[..], h) && n + 1 > capacity ==> GrowFits(n + 1)
      modifies this, entries, hashes
      ensures Valid() && Listed()
      ensures old(Present(entries[..], h)) ==> ValueOf(h) == Some(v)
      ensures !old(Present(entries[..], h)) ==>
        (ValueOf(h) == Some(v) <==> old(FreeProbe(AfterGrow(n + 1), h)).Some?) &&
        (ValueOf(h) == Some(v) || ValueOf(h) == None)
      ensures forall g :: g != h ==> ValueOf(g) == old(ValueOf(g))
    {
      var slot := Find(h);
      assert slot.Some? <==> Present(entries[..], h) by {
        LookupExact(entries[..], rank, h);
      }
      if slot.Some? {
        SetSlotValue(slot.value, v);
        return;
      }
      ghost var placed := FreeProbe(AfterGrow(n + 1), h).Some?;
      var status := GrowAndInsert(h, v, n + 1);
      assert status == HASH_TABLE_SUCCESS <==> placed;
    }
  }
}
