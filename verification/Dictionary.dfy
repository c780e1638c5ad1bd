/**
 The dictionary handle: a probe table of values, the trailing region its attached
 values live in, and the account of the allocations it owns.
 */
module Dictionary {
  import opened Primes
  import opened ProbeTable
  import opened Store
  import opened Serialize
  import opened Ownership

  const KEY_MAX: nat := 102
  const SIZE_LIMIT: nat := 1048576

  /** Keys are stored, hashed and compared by their first KEY_MAX characters. */
  function Clip(key: string): string {
    if |key| <= KEY_MAX then key else key[..KEY_MAX]
  }

  /** What a setter is given. A nested handle comes with the allocation it lives in. */
  datatype Item =
    | NumberItem(n: int)
    | BytesItem(tag: Tag, bytes: seq<Octet>)
    | NestedItem(id: nat, obj: Obj)

  ghost predicate ValidItem(item: Item) {
    item.NestedItem? ==> Valid(item.obj)
  }

  /** The value_length a setter checks against the limit; numbers are not checked. */
  function ItemLength(item: Item): nat {
    match item
    case NumberItem(_) => 4
    case BytesItem(_, bytes) => |bytes|
    case NestedItem(_, obj) => HEADER + Span(obj.kind, |obj.slots|) + obj.used
  }

  function ItemMeaning(item: Item): Meaning
    requires ValidItem(item)
  {
    match item
    case NumberItem(n) => Number(n)
    case BytesItem(tag, bytes) => Data(tag, bytes)
    case NestedItem(_, obj) => ObjMeaning(obj)
  }

  ghost function ItemOwns(item: Item): multiset<nat>
    requires ValidItem(item)
  {
    if item.NestedItem? then multiset{item.id} + OwnsFrom(item.obj, 0) else multiset{}
  }

  predicate Accepted(item: Item) {
    ItemLength(item) <= SIZE_LIMIT
  }

  datatype Option<T> = None | Some(value: T)

  class Dict {
    const table: Table<string, Payload>
    var used: nat
    var region: seq<Cell>
    var block: nat
    var heap: Heap

    ghost predicate Valid()
      reads this, table, table.buckets
    {
      table.Valid() && used <= |region| && ValidMap(table.Map(), region, used)
    }

    /** The dictionary's block of memory as an object of the store. */
    ghost function Block(): Obj
      reads this, table, table.buckets
    {
      Obj(Hash, table.inuse, table.empty, table.buckets[..], used, region)
    }

    ghost function View(): map<string, Meaning>
      requires Valid()
      reads this, table, table.buckets
    {
      MapMeaning(table.Map(), region, used)
    }

    ghost function Owns(): multiset<nat>
      requires Valid()
      reads this, table, table.buckets
    {
      multiset{block} + MapOwns(table.Map(), region, used)
    }

    ghost function Seen(): State
      requires Valid()
      reads this, table, table.buckets
    {
      State(View(), Owns(), heap)
    }

    lemma EntriesAreCounted()
      requires Valid()
      ensures table.inuse == |View()|
    {
      ContentsSize(table.buckets[..]);
      assert View().Keys == table.Map().Keys;
    }

    constructor (hash: string -> nat, primes: seq<nat>, capacity: nat, h: Heap)
      requires PrimeTable(primes)
      ensures Valid() && fresh(table) && fresh(table.buckets)
      ensures table.hash == hash && table.primes == primes && table.inuse == 0
      ensures View() == map[] && used == 0 && region == []
      ensures table.buckets.Length > 2 * capacity || table.buckets.Length == primes[|primes| - 1]
      ensures forall i :: 1 <= i < |primes| && primes[i] > 2 * capacity ==> table.buckets.Length <= primes[i]
      ensures Balanced(multiset{}, h, Owns(), heap)
    {
      table := new Table<string, Payload>(hash, primes, capacity);
      used, region := 0, [];
      block := h.next;
      heap := Heap(h.next + 1, h.freed);
      new;
      BalancedAlloc(multiset{}, h);
    }

    /** What is stored under a key, whatever its representation. */
    method Get(key: string) returns (r: Option<Meaning>)
      requires Valid()
      ensures r == if Clip(key) in View() then Some(View()[Clip(key)]) else None
    {
      var found, pos := table.Retrieve(Clip(key));
      if !found {
        return None;
      }
      return Some(ValueMeaning(region, used, table.buckets[pos].value));
    }

    /** GetDictBlock: as many bytes of a block as the caller has room for, wherever the bytes are. */
    method GetBlock(key: string, size: int) returns (r: Option<seq<Octet>>)
      requires Valid()
      ensures r.Some? <==> size > 0 && Clip(key) in View() && View()[Clip(key)].Data? && View()[Clip(key)].tag.Blk?
      ensures r.Some? ==> r.value <= View()[Clip(key)].bytes
      ensures r.Some? ==> |r.value| == if size < |View()[Clip(key)].bytes| then size else |View()[Clip(key)].bytes|
    {
      if size <= 0 {
        return None;
      }
      var m := Get(key);
      if m.None? || !m.value.Data? || !m.value.tag.Blk? {
        return None;
      }
      var bytes := m.value.bytes;
      return Some(if size < |bytes| then bytes[..size] else bytes);
    }

    /** GetDictDict and GetDictArray: the nested object of the asked kind, in its allocation or in the region. */
    method GetNested(key: string, kind: Kind) returns (r: Option<Obj>)
      requires Valid()
      ensures r.Some? <==> Clip(key) in View() && View()[Clip(key)].Tree? && View()[Clip(key)].kind == kind
      ensures r.Some? ==> Store.Valid(r.value) && ObjMeaning(r.value) == View()[Clip(key)]
    {
      var found, pos := table.Retrieve(Clip(key));
      if !found {
        return None;
      }
      var p := table.buckets[pos].value;
      assert View()[Clip(key)] == ValueMeaning(region, used, p);
      r := NestedValue(region, used, p, kind);
    }

    /** Finds the key's bucket and, if it is live, frees its value and leaves a tombstone. */
    method Remove(key: string) returns (result: int)
      requires Valid()
      modifies this`heap, table`inuse, table.buckets
      ensures Valid() && table.inuse <= old(table.inuse)
      ensures old(table.HasRoom()) ==> table.HasRoom()
      ensures View() == old(View()) - {key}
      ensures result >= 0 <==> key in old(View())
      ensures Balanced(old(Owns()), old(heap), Owns(), heap)
    {
      ghost var m := table.Map();
      var pos, collision := table.Find(key);
      if !table.buckets[pos].Live? {
        NothingToRemove(View(), key);
        return -1;
      }
      heap := FreeValue(region, used, table.buckets[pos].value, heap);
      RemovedEntry(m, region, used, key, block, old(heap), heap);
      result := table.DeleteAt(pos);
    }

    /** im_insert_element for a key that is absent; a rehash moves to a new block and drops the slack of the region. */
    method Put(key: string, p: Payload) returns (result: int)
      requires Valid() && table.HasRoom()
      requires key !in View()
      requires ValidPayload([], 0, p)
      modifies this, table, table.buckets
      ensures Valid() && table.inuse == old(table.inuse) + 1
      ensures table.buckets == old(table.buckets) || fresh(table.buckets)
      ensures View() == old(View())[key := ValueMeaning([], 0, p)]
      ensures result >= 0
      ensures used == old(used) && region == if old(table.NeedsRehash()) then old(region[..used]) else old(region)
      ensures Balanced(old(Owns()) + ValueOwns([], 0, p), old(heap), Owns(), heap)
    {
      ghost var m := table.Map();
      var former := block;
      if table.NeedsRehash() {
        MapFrame(m, region, used);
        region := region[..used];
        block := heap.next;
        heap := Heap(heap.next + 1, heap.freed + multiset{former});
      }
      AddedEntry(m, region, used, key, p, former, old(heap), block, heap);
      result := table.Insert(key, p);
    }

    /**
     The setters. The old value goes first, so a value over the limit leaves the key
     absent; a nested handle becomes the dictionary's only when it is accepted.
     */
    method Set(key: string, item: Item) returns (result: int)
      requires Valid() && table.HasRoom() && ValidItem(item)
      modifies this, table, table.buckets
      ensures Valid() && table.inuse <= old(table.inuse) + 1
      ensures table.buckets == old(table.buckets) || fresh(table.buckets)
      ensures View() == if Accepted(item) then old(View())[Clip(key) := ItemMeaning(item)]
                        else old(View()) - {Clip(key)}
      ensures result >= 0 <==> Accepted(item)
      ensures Balanced(old(Owns()) + (if Accepted(item) then ItemOwns(item) else multiset{}), old(heap), Owns(), heap)
    {
      ghost var before := Seen();
      assert before.owns + multiset{} == before.owns;
      var removed := Remove(Clip(key));
      ghost var between := Seen();
      if !Accepted(item) {
        return -1;
      }
      result := PutItem(Clip(key), item);
      RemoveThenAdd(before.view, Clip(key), ItemMeaning(item));
      RunBalance(before.owns, before.heap, multiset{}, between.owns, between.heap, ItemOwns(item), Owns(), heap);
      assert multiset{} + ItemOwns(item) == ItemOwns(item);
    }

    /** The second half of a setter: builds the bucket and inserts it. */
    method PutItem(key: string, item: Item) returns (result: int)
      requires Valid() && table.HasRoom() && ValidItem(item) && key !in View()
      modifies this, table, table.buckets
      ensures Valid() && table.inuse == old(table.inuse) + 1
      ensures table.buckets == old(table.buckets) || fresh(table.buckets)
      ensures View() == old(View())[key := ItemMeaning(item)]
      ensures result >= 0
      ensures Balanced(old(Owns()) + ItemOwns(item), old(heap), Owns(), heap)
    {
      ghost var own := Owns();
      var p, h := MakePayload(item, heap);
      heap := h;
      result := Put(key, p);
      PutBalance(own, old(heap), ItemOwns(item), ValueOwns([], 0, p), h, Owns(), heap);
    }

    method Delete(key: string) returns (result: int)
      requires Valid()
      modifies this`heap, table`inuse, table.buckets
      ensures Valid() && table.inuse <= old(table.inuse)
      ensures View() == old(View()) - {Clip(key)}
      ensures result >= 0 <==> Clip(key) in old(View())
      ensures Balanced(old(Owns()), old(heap), Owns(), heap)
    {
      result := Remove(Clip(key));
    }

    method Clear()
      requires Valid()
      modifies this, table, table.buckets
      ensures Valid() && table.inuse == 0 && table.buckets == old(table.buckets) && used == 0
      ensures View() == map[]
      ensures Balanced(old(Owns()), old(heap), Owns(), heap)
    {
      BlockAsMap(Block());
      ghost var own := MapOwns(table.Map(), region, used);
      heap := FreeBuckets(Obj(Hash, table.inuse, table.empty, table.buckets[..], used, region), heap);
      ClearBalance(block, own, old(heap), heap);
      table.Clear();
      used := 0;
      NothingLeft(region);
    }

    /** Releases every allocation of the tree and the dictionary's own block. */
    method Destroy() returns (h: Heap)
      requires Valid()
      ensures Balanced(Owns(), heap, multiset{}, h)
    {
      BlockAsMap(Block());
      ghost var own := MapOwns(table.Map(), region, used);
      ghost var h1;
      h := FreeBuckets(Obj(Hash, table.inuse, table.empty, table.buckets[..], used, region), heap);
      h1 := h;
      h := Heap(h.next, h.freed + multiset{block});
      ClearBalance(block, own, heap, h1);
      BalancedFree(multiset{block}, h1, block);
      BalancedTransitive(Owns(), heap, multiset{block}, h1, multiset{}, h);
    }

    /** SerializeDict: one packed block, the same dictionary to every reader. */
    method SerializeDict() returns (length: nat)
      requires Valid()
      modifies this, table.buckets
      ensures Valid() && Store.Valid(Block()) && Packed(Block()) && table.buckets == old(table.buckets)
      ensures View() == old(View())
      ensures length == BlockSize(Block())
      ensures Owns() == multiset{block}
      ensures Balanced(old(Owns()), old(heap), Owns(), heap)
      ensures old(Store.Valid(Block()) && Packed(Block())) ==> Block() == old(Block())
    {
      BlockAsMap(Block());
      var o := Obj(Hash, table.inuse, table.empty, table.buckets[..], used, region);
      var o';
      o', length, heap := SerializeObj(o, heap);
      PackedBlock(o, o', block, old(heap), heap);
      table.Relabel(o'.slots);
      used, region := o'.used, o'.region;
      assert Block() == o';
    }

    /** GetDictKeyv: at most limit live keys, each once. */
    method Keys(limit: int) returns (keys: seq<string>)
      requires Valid()
      ensures |keys| == (if limit < 0 then 0 else if limit < |View()| then limit else |View()|)
      ensures forall i :: 0 <= i < |keys| ==> keys[i] in View()
      ensures forall i, j :: 0 <= i < j < |keys| ==> keys[i] != keys[j]
    {
      EntriesAreCounted();
      assert View().Keys == table.Map().Keys;
      keys := table.Keys(limit);
    }
  }

  /** The handle of a nested value of the given kind. */
  method NestedValue(region: seq<Cell>, used: nat, p: Payload, kind: Kind) returns (r: Option<Obj>)
    requires ValidPayload(region, used, p)
    ensures r.Some? <==> ValueMeaning(region, used, p).Tree? && ValueMeaning(region, used, p).kind == kind
    ensures r.Some? ==> Valid(r.value) && ObjMeaning(r.value) == ValueMeaning(region, used, p)
  {
    if !IsNested(p.value) {
      return None;
    }
    var child := Child(region, used, p);
    return if child.kind == kind then Some(child) else None;
  }

  /** The bucket a setter builds: short data inline, long data in a new allocation, a nested handle as it is. */
  method MakePayload(item: Item, h: Heap) returns (p: Payload, h': Heap)
    requires ValidItem(item)
    ensures ValidPayload([], 0, p) && ValueMeaning([], 0, p) == ItemMeaning(item)
    ensures p.length == ItemLength(item)
    ensures item.BytesItem? ==> if |item.bytes| <= 16 then p.value.Inline? else p.value.External?
    ensures Balanced(ItemOwns(item), h, ValueOwns([], 0, p), h')
  {
    h' := h;
    match item {
      case NumberItem(n) =>
        p := Payload(4, Scalar(n));
      case BytesItem(tag, bytes) =>
        if |bytes| <= INLINE_SIZE {
          p := Payload(|bytes|, Inline(tag, bytes));
        } else {
          p := Payload(|bytes|, External(tag, h.next, bytes));
          h' := Heap(h.next + 1, h.freed);
          BalancedAlloc(multiset{}, h);
        }
      case NestedItem(id, obj) =>
        p := Payload(ItemLength(item), ExternalObj(id, obj));
    }
  }

  lemma ClearBalance(block: nat, own: multiset<nat>, h: Heap, h': Heap)
    requires Balanced(own, h, multiset{}, h')
    ensures Balanced(multiset{block} + own, h, multiset{block}, h')
    ensures multiset{block} + multiset{} == multiset{block}
  {
    BalancedFrame(own, h, multiset{}, h', multiset{block});
    assert own + multiset{block} == multiset{block} + own;
    assert multiset{} + multiset{block} == multiset{block};
  }

  lemma NothingLeft(region: seq<Cell>)
    ensures ValidMap(map[], region, 0)
    ensures MapOwns(map[], region, 0) == multiset{} && MapMeaning(map[], region, 0) == map[]
  {
  }

  lemma NothingToRemove<V>(m: map<string, V>, key: string)
    requires key !in m
    ensures m - {key} == m
  {
  }

  lemma RemoveThenAdd<V>(m: map<string, V>, key: string, v: V)
    ensures (m - {key})[key := v] == m[key := v]
  {
  }

  lemma PutBalance(own: multiset<nat>, h: Heap, given: multiset<nat>, added: multiset<nat>, h1: Heap,
                   own': multiset<nat>, h': Heap)
    requires Balanced(given, h, added, h1)
    requires Balanced(own + added, h1, own', h')
    ensures Balanced(own + given, h, own', h')
  {
    BalancedFrame(given, h, added, h1, own);
    assert given + own == own + given && added + own == own + added;
    BalancedTransitive(own + given, h, own + added, h1, own', h');
  }

  /** Buckets that mean the same have the same status and key. */
  lemma SameMeaningSameShape(o: Obj, o': Obj)
    requires Store.Valid(o) && Store.Valid(o') && ObjMeaning(o) == ObjMeaning(o')
    ensures SameShape(o.slots, o'.slots)
  {
    assert |o.slots| == |ObjMeaning(o).entries| == |ObjMeaning(o').entries| == |o'.slots|;
    forall i | 0 <= i < |o.slots|
      ensures SlotMeaning(o, i) == SlotMeaning(o', i)
      ensures (o.slots[i].Empty? <==> o'.slots[i].Empty?) && (o.slots[i].Live? <==> o'.slots[i].Live?)
      ensures !o.slots[i].Empty? ==> o.slots[i].key == o'.slots[i].key
    {
      assert ObjMeaning(o).entries[i] == SlotMeaning(o, i);
      assert ObjMeaning(o').entries[i] == SlotMeaning(o', i);
    }
  }

  /** A packed table block in place of another one with the same meaning, in terms of their maps. */
  lemma PackedBlock(o: Obj, o': Obj, block: nat, h: Heap, h': Heap)
    requires Store.Valid(o) && Store.Valid(o') && o.kind.Hash? && o'.kind.Hash? && Packed(o')
    requires DistinctKeys(o.slots) && ObjMeaning(o) == ObjMeaning(o')
    requires Balanced(OwnsFrom(o, 0), h, multiset{}, h')
    ensures SameShape(o.slots, o'.slots) && DistinctKeys(o'.slots)
    ensures ValidMap(Contents(o.slots), o.region, o.used) && ValidMap(Contents(o'.slots), o'.region, o'.used)
    ensures MapMeaning(Contents(o'.slots), o'.region, o'.used) == MapMeaning(Contents(o.slots), o.region, o.used)
    ensures multiset{block} + MapOwns(Contents(o'.slots), o'.region, o'.used) == multiset{block}
    ensures Balanced(multiset{block} + MapOwns(Contents(o.slots), o.region, o.used), h, multiset{block}, h')
  {
    SameMeaningSameShape(o, o');
    BlockAsMap(o);
    BlockAsMap(o');
    PackedOwnsNothingFrom(o', 0);
    ClearBalance(block, OwnsFrom(o, 0), h, h');
  }

  lemma RemovedEntry(m: map<string, Payload>, region: seq<Cell>, used: nat, key: string, block: nat, h: Heap, h': Heap)
    requires ValidMap(m, region, used) && key in m
    requires Balanced(ValueOwns(region, used, m[key]), h, multiset{}, h')
    ensures ValidMap(m - {key}, region, used)
    ensures MapMeaning(m - {key}, region, used) == MapMeaning(m, region, used) - {key}
    ensures Balanced(multiset{block} + MapOwns(m, region, used), h,
                     multiset{block} + MapOwns(m - {key}, region, used), h')
  {
    MapOwnsSplit(m, region, used, key);
    var gone, kept := ValueOwns(region, used, m[key]), MapOwns(m - {key}, region, used);
    BalancedFrame(gone, h, multiset{}, h', multiset{block} + kept);
    assert gone + (multiset{block} + kept) == multiset{block} + (gone + kept);
    assert multiset{} + (multiset{block} + kept) == multiset{block} + kept;
  }

  lemma AddedEntry(m: map<string, Payload>, region: seq<Cell>, used: nat, key: string, p: Payload,
                   b: nat, h: Heap, b': nat, h': Heap)
    requires used <= |region| && ValidMap(m, region, used) && key !in m && ValidPayload([], 0, p)
    requires (b' == b && h' == h) || (b' == h.next && h' == Heap(h.next + 1, h.freed + multiset{b}))
    ensures ValidMap(m[key := p], region, used)
    ensures MapMeaning(m[key := p], region, used) == MapMeaning(m, region, used)[key := ValueMeaning([], 0, p)]
    ensures Balanced(multiset{b} + MapOwns(m, region, used) + ValueOwns([], 0, p), h,
                     multiset{b'} + MapOwns(m[key := p], region, used), h')
  {
    AddedMeaning(m, region, used, key, p);
    SameSlice([], 0, region, used, p);
    MapOwnsInsert(m, region, used, key, p);
    AddedBalance(b, h, b', h', MapOwns(m, region, used), ValueOwns([], 0, p));
  }

  lemma AddedMeaning(m: map<string, Payload>, region: seq<Cell>, used: nat, key: string, p: Payload)
    requires used <= |region| && ValidMap(m, region, used) && key !in m && ValidPayload([], 0, p)
    ensures ValidMap(m[key := p], region, used)
    ensures MapMeaning(m[key := p], region, used) == MapMeaning(m, region, used)[key := ValueMeaning([], 0, p)]
  {
    SameSlice([], 0, region, used, p);
  }

  lemma AddedBalance(b: nat, h: Heap, b': nat, h': Heap, own: multiset<nat>, added: multiset<nat>)
    requires (b' == b && h' == h) || (b' == h.next && h' == Heap(h.next + 1, h.freed + multiset{b}))
    ensures Balanced(multiset{b} + own + added, h, multiset{b'} + (own + added), h')
  {
    BlockBalance(b, h, b', h', own + added);
    assert multiset{b} + (own + added) == multiset{b} + own + added;
  }

  lemma BlockBalance(b: nat, h: Heap, b': nat, h': Heap, own: multiset<nat>)
    requires (b' == b && h' == h) || (b' == h.next && h' == Heap(h.next + 1, h.freed + multiset{b}))
    ensures Balanced(multiset{b} + own, h, multiset{b'} + own, h')
  {
  }

  // ---- Whole runs ----

  datatype Op =
    | SetOp(key: string, item: Item)
    | DeleteOp(key: string)
    | ClearOp
    | SerializeOp
    | GetOp(key: string)

  datatype Outcome = Success | Failure | Answer(value: Option<Meaning>)

  ghost predicate ValidOps(ops: seq<Op>) {
    forall i :: 0 <= i < |ops| && ops[i].SetOp? ==> ValidItem(ops[i].item)
  }

  /** What an operation does to a plain map, and what it answers. Serializing does nothing to it. */
  function ModelStep(m: map<string, Meaning>, op: Op): (map<string, Meaning>, Outcome)
    requires op.SetOp? ==> ValidItem(op.item)
  {
    match op
    case SetOp(key, item) =>
      if Accepted(item) then (m[Clip(key) := ItemMeaning(item)], Success) else (m - {Clip(key)}, Failure)
    case DeleteOp(key) => (m - {Clip(key)}, if Clip(key) in m then Success else Failure)
    case ClearOp => (map[], Success)
    case SerializeOp => (m, Success)
    case GetOp(key) => (m, Answer(if Clip(key) in m then Some(m[Clip(key)]) else None))
  }

  function ModelRun(m: map<string, Meaning>, ops: seq<Op>): (r: (map<string, Meaning>, seq<Outcome>))
    requires ValidOps(ops)
  {
    if ops == [] then (m, []) else
    var before := ModelRun(m, ops[..|ops| - 1]);
    var step := ModelStep(before.0, ops[|ops| - 1]);
    (step.0, before.1 + [step.1])
  }

  /** The allocations handed over by the setters of a run that accept their value. */
  ghost function Given(ops: seq<Op>): multiset<nat>
    requires ValidOps(ops)
  {
    if ops == [] then multiset{} else
    Given(ops[..|ops| - 1]) + GivenBy(ops[|ops| - 1])
  }

  ghost function GivenBy(op: Op): multiset<nat>
    requires op.SetOp? ==> ValidItem(op.item)
  {
    if op.SetOp? && Accepted(op.item) then ItemOwns(op.item) else multiset{}
  }

  lemma OneMoreOp(m: map<string, Meaning>, ops: seq<Op>, i: nat)
    requires ValidOps(ops) && i < |ops|
    ensures var before := ModelRun(m, ops[..i]); var step := ModelStep(before.0, ops[i]);
            ModelRun(m, ops[..i + 1]) == (step.0, before.1 + [step.1])
    ensures Given(ops[..i + 1]) == Given(ops[..i]) + GivenBy(ops[i])
  {
    assert ops[..i + 1][..i] == ops[..i] && ops[..i + 1][i] == ops[i];
  }

  method Apply(d: Dict, op: Op) returns (outcome: Outcome)
    requires d.Valid() && (op.SetOp? ==> ValidItem(op.item) && d.table.HasRoom())
    modifies d, d.table, d.table.buckets
    ensures d.Valid() && (d.table.buckets == old(d.table.buckets) || fresh(d.table.buckets))
    ensures Did(op, old(d.Seen()), outcome, d.Seen())
  {
    ghost var before := d.Seen();
    match op {
      case SetOp(key, item) =>
        var r := d.Set(key, item);
        outcome := if r >= 0 then Success else Failure;
        SetDid(key, item, before, outcome, d.Seen());
      case DeleteOp(key) =>
        var r := d.Delete(key);
        outcome := if r >= 0 then Success else Failure;
        NothingGiven(op, before, outcome, d.Seen());
      case ClearOp =>
        d.Clear();
        outcome := Success;
        NothingGiven(op, before, outcome, d.Seen());
      case SerializeOp =>
        var length := d.SerializeDict();
        outcome := Success;
        NothingGiven(op, before, outcome, d.Seen());
      case GetOp(key) =>
        var r := d.Get(key);
        outcome := Answer(r);
        NothingGiven(op, before, outcome, d.Seen());
    }
  }

  /** One operation as its users see it: what it does to a plain map, and to the account. */
  ghost predicate Did(op: Op, before: State, outcome: Outcome, after: State)
    requires op.SetOp? ==> ValidItem(op.item)
  {
    && (after.view, outcome) == ModelStep(before.view, op)
    && Balanced(before.owns + GivenBy(op), before.heap, after.owns, after.heap)
  }

  lemma SetDid(key: string, item: Item, before: State, outcome: Outcome, after: State)
    requires ValidItem(item) && (after.view, outcome) == ModelStep(before.view, SetOp(key, item))
    requires var given := if Accepted(item) then ItemOwns(item) else multiset{};
             Balanced(before.owns + given, before.heap, after.owns, after.heap)
    ensures Did(SetOp(key, item), before, outcome, after)
  {
  }

  lemma NothingGiven(op: Op, before: State, outcome: Outcome, after: State)
    requires !op.SetOp? && (after.view, outcome) == ModelStep(before.view, op)
    requires Balanced(before.owns, before.heap, after.owns, after.heap)
    ensures Did(op, before, outcome, after)
  {
    assert before.owns + multiset{} == before.owns;
  }

  lemma RunBalance(own0: multiset<nat>, h0: Heap, given: multiset<nat>, own: multiset<nat>, h: Heap,
                   added: multiset<nat>, own': multiset<nat>, h': Heap)
    requires Balanced(own0 + given, h0, own, h)
    requires Balanced(own + added, h, own', h')
    ensures Balanced(own0 + (given + added), h0, own', h')
  {
    BalancedFrame(own0 + given, h0, own, h, added);
    assert own0 + given + added == own0 + (given + added);
    BalancedTransitive(own0 + (given + added), h0, own + added, h, own', h');
  }

  /** A dictionary as its users see it: the map, the allocations it owns and the allocator's account. */
  datatype State = State(view: map<string, Meaning>, owns: multiset<nat>, heap: Heap)

  /** The first n operations led from one state to another with these answers. */
  ghost predicate Reached(start: State, ops: seq<Op>, n: nat, outcomes: seq<Outcome>, now: State)
    requires ValidOps(ops) && n <= |ops|
  {
    && (now.view, outcomes) == ModelRun(start.view, ops[..n])
    && Balanced(start.owns + Given(ops[..n]), start.heap, now.owns, now.heap)
  }

  lemma NothingReached(start: State, ops: seq<Op>)
    requires ValidOps(ops)
    ensures Reached(start, ops, 0, [], start)
  {
    assert start.owns + multiset{} == start.owns;
  }

  lemma OneMoreReached(start: State, ops: seq<Op>, i: nat, outcomes: seq<Outcome>, now: State,
                       outcome: Outcome, next: State)
    requires ValidOps(ops) && i < |ops| && Reached(start, ops, i, outcomes, now)
    requires Did(ops[i], now, outcome, next)
    ensures Reached(start, ops, i + 1, outcomes + [outcome], next)
  {
    OneMoreOp(start.view, ops, i);
    RunBalance(start.owns, start.heap, Given(ops[..i]), now.owns, now.heap, GivenBy(ops[i]), next.owns, next.heap);
  }

  /**
   Whenever a run sets a value, the entries that are live then, with the new one, are fewer
   than half of the last tabled prime. How long the run is does not matter.
   */
  ghost predicate RoomThroughout(primes: seq<nat>, m: map<string, Meaning>, ops: seq<Op>)
    requires |primes| > 0 && ValidOps(ops)
  {
    forall i :: 0 <= i < |ops| && ops[i].SetOp? ==> 2 * (|ModelRun(m, ops[..i]).0| + 1) < primes[|primes| - 1]
  }

  /**
   Any run of operations, with serialization at any point, answers like a finite map
   from clipped keys to values, and balances its allocations.
   */
  method Run(d: Dict, ops: seq<Op>) returns (outcomes: seq<Outcome>)
    requires d.Valid() && ValidOps(ops) && RoomThroughout(d.table.primes, d.View(), ops)
    modifies d, d.table, d.table.buckets
    ensures d.Valid()
    ensures (d.View(), outcomes) == ModelRun(old(d.View()), ops)
    ensures Balanced(old(d.Owns()) + Given(ops), old(d.heap), d.Owns(), d.heap)
  {
    outcomes := [];
    ghost var start := d.Seen();
    NothingReached(start, ops);
    for i := 0 to |ops|
      invariant d.Valid() && (d.table.buckets == old(d.table.buckets) || fresh(d.table.buckets))
      invariant Reached(start, ops, i, outcomes, d.Seen())
    {
      ghost var now := d.Seen();
      d.EntriesAreCounted();
      var outcome := Apply(d, ops[i]);
      OneMoreReached(start, ops, i, outcomes, now, outcome, d.Seen());
      outcomes := outcomes + [outcome];
    }
    assert ops[..|ops|] == ops;
  }

  /**
   A dictionary's whole life: created, used in any way, destroyed. What is allocated at the start
   is handed over to it by the run or kept by the caller, as refused nested handles are; at the
   end everything ever allocated has been freed exactly once, but for what the caller keeps.
   */
  method Lifetime(hash: string -> nat, primes: seq<nat>, capacity: nat, ops: seq<Op>, h: Heap,
                  ghost kept: multiset<nat>)
    returns (outcomes: seq<Outcome>, h': Heap)
    requires PrimeTable(primes) && ValidOps(ops) && RoomThroughout(primes, map[], ops)
    requires Given(ops) + kept + h.freed == Ids(h.next)
    ensures outcomes == ModelRun(map[], ops).1
    ensures kept + h'.freed == Ids(h'.next)
    ensures forall x: nat :: x < h'.next ==> h'.freed[x] == if x in kept then 0 else 1
  {
    var d := new Dict(hash, primes, capacity, h);
    ghost var own1, h1 := d.Owns(), d.heap;
    outcomes := Run(d, ops);
    ghost var own2, h2 := d.Owns(), d.heap;
    h' := d.Destroy();
    LifetimeBalance(Given(ops), kept, h, own1, h1, own2, h2, h');
  }

  lemma LifetimeBalance(given: multiset<nat>, kept: multiset<nat>, h: Heap, own1: multiset<nat>, h1: Heap,
                        own2: multiset<nat>, h2: Heap, h3: Heap)
    requires given + kept + h.freed == Ids(h.next)
    requires Balanced(multiset{}, h, own1, h1)
    requires Balanced(own1 + given, h1, own2, h2)
    requires Balanced(own2, h2, multiset{}, h3)
    ensures kept + h3.freed == Ids(h3.next)
    ensures forall x: nat :: x < h3.next ==> h3.freed[x] == if x in kept then 0 else 1
  {
    BalancedFrame(multiset{}, h, own1, h1, given);
    assert multiset{} + given == given;
    BalancedTransitive(given, h, own1 + given, h1, own2, h2);
    BalancedTransitive(given, h, own2, h2, multiset{}, h3);
    BalancedFrame(given, h, multiset{}, h3, kept);
    assert multiset{} + kept == kept;
    forall x: nat
      ensures kept + h3.freed == Ids(h3.next)
      ensures x < h3.next ==> h3.freed[x] == if x in kept then 0 else 1
    {
      OwnedOrFreedOnce(given + kept, h, kept, h3, x);
    }
  }
}
