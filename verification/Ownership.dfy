/**
 Who owns which allocation: destroying a tree, and the allocations reachable from a
 dictionary seen as a map rather than as buckets, so that moving buckets does not matter.
 */
module Ownership {
  import opened ProbeTable
  import opened Store
  import opened Serialize

  // ---- Destroying ----

  /** free_bucket: releases everything the value owns; an attached child is emptied in place. */
  method FreeValue(region: seq<Cell>, used: nat, p: Payload, h: Heap) returns (h': Heap)
    requires ValidPayload(region, used, p)
    ensures Balanced(ValueOwns(region, used, p), h, multiset{}, h')
    decreases Load(region, used, p), 2
  {
    h' := h;
    match p.value {
      case External(_, id, _) =>
        h' := h'.(freed := h'.freed + multiset{id});
        BalancedFree(multiset{id}, h, id);
      case ExternalObj(id, obj) =>
        h' := FreeBuckets(obj, h');
        FreedWithBlock(OwnsFrom(obj, 0), id, h, h');
        h' := h'.(freed := h'.freed + multiset{id});
      case AttachedObj(_, _) =>
        h' := FreeBuckets(Child(region, used, p), h');
      case _ =>
    }
  }

  /** The block of an object goes after what its buckets own. */
  lemma FreedWithBlock(own: multiset<nat>, id: nat, h: Heap, h': Heap)
    requires Balanced(own, h, multiset{}, h')
    ensures Balanced(multiset{id} + own, h, multiset{}, h'.(freed := h'.freed + multiset{id}))
  {
    assert own + multiset{id} == multiset{id} + own && multiset{} + multiset{id} == multiset{id};
    BalancedFrame(own, h, multiset{}, h', multiset{id});
    BalancedFree(multiset{id}, h', id);
    BalancedTransitive(multiset{id} + own, h, multiset{id}, h', multiset{}, h'.(freed := h'.freed + multiset{id}));
  }

  /** The loop of im_destroy_hashtable and im_destroy_vector over an object's buckets. */
  method FreeBuckets(o: Obj, h: Heap) returns (h': Heap)
    requires Valid(o)
    ensures Balanced(OwnsFrom(o, 0), h, multiset{}, h')
    decreases Weight(o), 1
  {
    h' := h;
    for i := 0 to Bound(o)
      invariant Balanced(OwnsFrom(o, 0), h, OwnsFrom(o, i), h')
    {
      ghost var h0 := h';
      h' := FreeBucket(o, i, h');
      BalancedTransitive(OwnsFrom(o, 0), h, OwnsFrom(o, i), h0, OwnsFrom(o, i + 1), h');
    }
    UnusedOwnNothing(o, Bound(o));
  }

  method FreeBucket(o: Obj, i: nat, h: Heap) returns (h': Heap)
    requires Valid(o) && i < |o.slots|
    ensures Balanced(OwnsFrom(o, i), h, OwnsFrom(o, i + 1), h')
    decreases Weight(o), 0
  {
    h' := h;
    ghost var rest := OwnsFrom(o, i + 1);
    assert OwnsFrom(o, i) == SlotOwns(o, i) + rest;
    if o.slots[i].Live? {
      SlotUnfolds(o, i);
      if IsNested(o.slots[i].value.value) {
        ChildIsLighter(o, i);
      }
      h' := FreeValue(o.region, o.used, o.slots[i].value, h');
      BalancedFrame(SlotOwns(o, i), h, multiset{}, h', rest);
    }
    assert multiset{} + rest == rest;
  }

  lemma {:induction false} UnusedOwnNothing(o: Obj, i: nat)
    requires Valid(o) && Bound(o) <= i <= |o.slots|
    ensures OwnsFrom(o, i) == multiset{}
    decreases |o.slots| - i
  {
    if i < |o.slots| {
      UnusedOwnNothing(o, i + 1);
    }
  }

  // ---- Ownership and meaning of a map of values ----

  ghost predicate ValidMap(m: map<string, Payload>, region: seq<Cell>, used: nat) {
    forall k :: k in m ==> ValidPayload(region, used, m[k])
  }

  ghost function MapOwns(m: map<string, Payload>, region: seq<Cell>, used: nat): multiset<nat>
    requires ValidMap(m, region, used)
    decreases |m|
  {
    if m == map[] then multiset{} else
    var k :| k in m;
    ValueOwns(region, used, m[k]) + MapOwns(m - {k}, region, used)
  }

  ghost function MapMeaning(m: map<string, Payload>, region: seq<Cell>, used: nat): map<string, Meaning>
    requires ValidMap(m, region, used)
  {
    map k | k in m :: ValueMeaning(region, used, m[k])
  }

  /** The sum does not depend on the order in which keys are taken out. */
  lemma {:induction false} MapOwnsSplit(m: map<string, Payload>, region: seq<Cell>, used: nat, key: string)
    requires ValidMap(m, region, used) && key in m
    ensures MapOwns(m, region, used) == ValueOwns(region, used, m[key]) + MapOwns(m - {key}, region, used)
    decreases |m|
  {
    var k :| k in m && MapOwns(m, region, used) == ValueOwns(region, used, m[k]) + MapOwns(m - {k}, region, used);
    if k != key {
      MapOwnsSplit(m - {k}, region, used, key);
      MapOwnsSplit(m - {key}, region, used, k);
      assert m - {k} - {key} == m - {key} - {k};
      Exchange(ValueOwns(region, used, m[k]), ValueOwns(region, used, m[key]), MapOwns(m - {k} - {key}, region, used));
    }
  }

  lemma Exchange(a: multiset<nat>, b: multiset<nat>, c: multiset<nat>)
    ensures a + (b + c) == b + (a + c)
  {
  }

  lemma MapOwnsInsert(m: map<string, Payload>, region: seq<Cell>, used: nat, key: string, p: Payload)
    requires ValidMap(m, region, used) && key !in m && ValidPayload(region, used, p)
    ensures ValidMap(m[key := p], region, used)
    ensures MapOwns(m[key := p], region, used) == MapOwns(m, region, used) + ValueOwns(region, used, p)
  {
    MapOwnsSplit(m[key := p], region, used, key);
    assert m[key := p] - {key} == m;
  }

  /** Cutting the region to its used part, as a rehash does, changes nothing the values can see. */
  lemma {:induction false} MapFrame(m: map<string, Payload>, region: seq<Cell>, used: nat)
    requires ValidMap(m, region, used) && used <= |region|
    ensures ValidMap(m, region[..used], used)
    ensures MapOwns(m, region[..used], used) == MapOwns(m, region, used)
    ensures MapMeaning(m, region[..used], used) == MapMeaning(m, region, used)
    decreases |m|
  {
    forall k | k in m ensures SameInCut(region, used, m[k]) {
      CutKeepsValue(region, used, m[k]);
    }
    if m != map[] {
      var k :| k in m;
      assert SameInCut(region, used, m[k]);
      MapFrame(m - {k}, region, used);
      MapOwnsSplit(m, region, used, k);
      MapOwnsSplit(m, region[..used], used, k);
    }
  }

  ghost predicate SameInCut(region: seq<Cell>, used: nat, p: Payload)
    requires used <= |region| && ValidPayload(region, used, p)
  {
    && ValidPayload(region[..used], used, p)
    && ValueOwns(region[..used], used, p) == ValueOwns(region, used, p)
    && ValueMeaning(region[..used], used, p) == ValueMeaning(region, used, p)
  }

  lemma CutKeepsValue(region: seq<Cell>, used: nat, p: Payload)
    requires used <= |region| && ValidPayload(region, used, p)
    ensures SameInCut(region, used, p)
  {
    if p.value.Attached? || p.value.AttachedObj? {
      SubSlice(region, used, p.value.off, p.value.off + p.length);
    }
    SameSlice(region, used, region[..used], used, p);
  }

  /** A table block, seen as buckets or as its map: valid together, same allocations, same meaning. */
  lemma BlockAsMap(o: Obj)
    requires o.kind.Hash? && o.used <= |o.region| && DistinctKeys(o.slots)
    ensures Valid(o) <==> ValidMap(Contents(o.slots), o.region, o.used)
    ensures Valid(o) ==> OwnsFrom(o, 0) == MapOwns(Contents(o.slots), o.region, o.used)
    ensures Valid(o) ==> DistinctKeys(ObjMeaning(o).entries)
    ensures Valid(o) ==> Contents(ObjMeaning(o).entries) == MapMeaning(Contents(o.slots), o.region, o.used)
  {
    var m := Contents(o.slots);
    if ValidMap(m, o.region, o.used) {
      forall i | 0 <= i < |o.slots| && o.slots[i].Live? ensures ValidSlot(o, i) {
        assert o.slots[i].key in m;
      }
    }
    if Valid(o) {
      forall i | 0 <= i < |o.slots| && o.slots[i].Live?
        ensures ValidPayload(o.region, o.used, o.slots[i].value)
        ensures SlotMeaning(o, i) == Live(o.slots[i].key, ValueMeaning(o.region, o.used, o.slots[i].value))
      {
        SlotUnfolds(o, i);
      }
      OwnsByPrefix(o, 0);
      assert o.slots[..0] == [];
      assert Contents(o.slots[..0]) == map[];
      EntriesAreMeanings(o);
    }
  }

  lemma PrefixIsValid(o: Obj, i: nat)
    requires DistinctKeys(o.slots) && i <= |o.slots|
    requires ValidMap(Contents(o.slots), o.region, o.used)
    ensures ValidMap(Contents(o.slots[..i]), o.region, o.used)
  {
    var prefix := o.slots[..i];
    forall k | k in Contents(prefix) ensures ValidPayload(o.region, o.used, Contents(prefix)[k]) {
      var j :| 0 <= j < |prefix| && prefix[j].Live? && prefix[j].key == k;
      assert o.slots[j] == prefix[j];
      assert k in Contents(o.slots) && Contents(o.slots)[k] == prefix[j].value;
    }
  }

  lemma PrefixStep(o: Obj, i: nat)
    requires Valid(o) && DistinctKeys(o.slots) && i < |o.slots|
    requires ValidMap(Contents(o.slots[..i]), o.region, o.used)
    requires ValidMap(Contents(o.slots[..i + 1]), o.region, o.used)
    ensures MapOwns(Contents(o.slots[..i + 1]), o.region, o.used)
            == MapOwns(Contents(o.slots[..i]), o.region, o.used) + SlotOwns(o, i)
  {
    ExtendByOne(o.slots, i);
    if o.slots[i].Live? {
      SlotUnfolds(o, i);
      MapOwnsInsert(Contents(o.slots[..i]), o.region, o.used, o.slots[i].key, o.slots[i].value);
    }
  }

  lemma {:induction false} OwnsByPrefix(o: Obj, i: nat)
    requires Valid(o) && DistinctKeys(o.slots) && i <= |o.slots|
    requires ValidMap(Contents(o.slots), o.region, o.used)
    ensures ValidMap(Contents(o.slots[..i]), o.region, o.used)
    ensures OwnsFrom(o, i) + MapOwns(Contents(o.slots[..i]), o.region, o.used)
            == MapOwns(Contents(o.slots), o.region, o.used)
    decreases |o.slots| - i
  {
    PrefixIsValid(o, i);
    if i == |o.slots| {
      assert o.slots[..i] == o.slots;
    } else {
      OwnsByPrefix(o, i + 1);
      PrefixStep(o, i);
      Rearrange(SlotOwns(o, i), OwnsFrom(o, i + 1), MapOwns(Contents(o.slots[..i]), o.region, o.used));
    }
  }

  lemma Rearrange(a: multiset<nat>, b: multiset<nat>, c: multiset<nat>)
    ensures (a + b) + c == b + (c + a)
  {
  }

  lemma EntriesAreMeanings(o: Obj)
    requires Valid(o) && DistinctKeys(o.slots)
    requires ValidMap(Contents(o.slots), o.region, o.used)
    ensures DistinctKeys(ObjMeaning(o).entries)
    ensures Contents(ObjMeaning(o).entries) == MapMeaning(Contents(o.slots), o.region, o.used)
  {
    var es, m := ObjMeaning(o).entries, MapMeaning(Contents(o.slots), o.region, o.used);
    forall i | 0 <= i < |es|
      ensures es[i].Empty? <==> o.slots[i].Empty?
      ensures es[i].Live? <==> o.slots[i].Live?
      ensures !es[i].Empty? ==> es[i].key == o.slots[i].key
      ensures es[i].Live? ==> es[i].key in m && m[es[i].key] == es[i].value
    {
      EntryIsMeaning(o, i);
    }
    forall key | key in m ensures exists i :: 0 <= i < |es| && es[i].Live? && es[i].key == key {
      var i :| 0 <= i < |o.slots| && o.slots[i].Live? && o.slots[i].key == key;
      assert es[i].Live?;
    }
    SameContents(es, m);
  }

  lemma EntryIsMeaning(o: Obj, i: nat)
    requires Valid(o) && DistinctKeys(o.slots) && i < |o.slots|
    requires ValidMap(Contents(o.slots), o.region, o.used)
    ensures var e, m := ObjMeaning(o).entries[i], MapMeaning(Contents(o.slots), o.region, o.used);
            && (e.Empty? <==> o.slots[i].Empty?) && (e.Live? <==> o.slots[i].Live?)
            && (!e.Empty? ==> e.key == o.slots[i].key)
            && (e.Live? ==> e.key in m && m[e.key] == e.value)
  {
    assert ObjMeaning(o).entries[i] == SlotMeaning(o, i);
    if o.slots[i].Live? {
      SlotUnfolds(o, i);
      assert o.slots[i].key in Contents(o.slots);
    }
  }

  // ---- Exactly once ----

  lemma {:induction false} IdsOnce(n: nat, x: nat)
    ensures Ids(n)[x] == if x < n then 1 else 0
  {
    if n > 0 {
      IdsOnce(n - 1, x);
    }
  }

  /**
   From a state where everything ever allocated is owned once or was freed once, a
   balanced run leads to such a state again.
   */
  lemma OwnedOrFreedOnce(own: multiset<nat>, h: Heap, own': multiset<nat>, h': Heap, x: nat)
    requires own + h.freed == Ids(h.next)
    requires Balanced(own, h, own', h')
    ensures own' + h'.freed == Ids(h'.next)
    ensures if x < h'.next
            then (own'[x] == 1 && h'.freed[x] == 0) || (own'[x] == 0 && h'.freed[x] == 1)
            else own'[x] == 0 && h'.freed[x] == 0
  {
    forall y: nat
      ensures (own' + h'.freed)[y] == Ids(h'.next)[y]
    {
      assert (own' + h'.freed + Ids(h.next))[y] == (own + h.freed + Ids(h'.next))[y];
    }
    IdsOnce(h'.next, x);
    assert (own' + h'.freed)[x] == Ids(h'.next)[x];
  }
}
