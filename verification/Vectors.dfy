/**
 The vector: a growing array of values with the trailing region its attached values live
 in. A full vector doubles by building a new one and adding every element to it.
 */
module Vectors {
  import opened Counting
  import opened ProbeTable
  import opened Store
  import opened Serialize
  import opened Ownership

  ghost predicate ValidElements(s: seq<Payload>, region: seq<Cell>, used: nat) {
    forall i :: 0 <= i < |s| ==> ValidPayload(region, used, s[i])
  }

  ghost function Meanings(s: seq<Payload>, region: seq<Cell>, used: nat): (m: seq<Meaning>)
    requires ValidElements(s, region, used)
    ensures |m| == |s|
  {
    seq(|s|, i requires 0 <= i < |s| => ValueMeaning(region, used, s[i]))
  }

  /** What a value owns, made total so that it can be gathered. */
  ghost function Owned(region: seq<Cell>, used: nat): Payload -> multiset<nat> {
    p => if ValidPayload(region, used, p) then ValueOwns(region, used, p) else multiset{}
  }

  /** The allocations reachable from the elements, each as often as it is reachable. */
  ghost function ElementsOwn(s: seq<Payload>, region: seq<Cell>, used: nat): multiset<nat> {
    Gather(s, Owned(region, used))
  }

  // ---- Elements under change ----

  /** Cutting the region to its used part changes no element's meaning and no ownership. */
  lemma CutKeepsElements(s: seq<Payload>, region: seq<Cell>, used: nat)
    requires used <= |region| && ValidElements(s, region, used)
    ensures ValidElements(s, region[..used], used)
    ensures Meanings(s, region[..used], used) == Meanings(s, region, used)
    ensures ElementsOwn(s, region[..used], used) == ElementsOwn(s, region, used)
  {
    forall i | 0 <= i < |s| ensures SameInCut(region, used, s[i]) {
      CutKeepsValue(region, used, s[i]);
    }
    GatherSame(s, Owned(region[..used], used), Owned(region, used));
  }

  /** A sequence without its element at a position. */
  function Except<T>(s: seq<T>, position: nat): (r: seq<T>)
    requires position < |s|
  {
    s[..position] + s[position + 1..]
  }

  lemma RemovedMeaning(s: seq<Payload>, position: nat, region: seq<Cell>, used: nat)
    requires ValidElements(s, region, used) && position < |s|
    ensures var s' := Except(s, position);
            ValidElements(s', region, used) && Meanings(s', region, used) == Except(Meanings(s, region, used), position)
  {
    var s' := Except(s, position);
    assert forall i :: 0 <= i < |s'| ==> s'[i] == s[if i < position then i else i + 1];
  }

  /** Freeing one value next to ownership that stays. */
  lemma RemovedBalance(block: nat, gone: multiset<nat>, kept: multiset<nat>, h: Heap, h': Heap)
    requires Balanced(gone, h, multiset{}, h')
    ensures Balanced(multiset{block} + (kept + gone), h, multiset{block} + kept, h')
  {
    var rest := multiset{block} + kept;
    BalancedFrame(gone, h, multiset{}, h', rest);
    assert gone + rest == multiset{block} + (kept + gone);
    assert multiset{} + rest == rest;
  }

  lemma RemovedElement(s: seq<Payload>, position: nat, region: seq<Cell>, used: nat, block: nat, h: Heap, h': Heap)
    requires ValidElements(s, region, used) && position < |s|
    requires Balanced(ValueOwns(region, used, s[position]), h, multiset{}, h')
    ensures Balanced(multiset{block} + ElementsOwn(s, region, used), h,
                     multiset{block} + ElementsOwn(Except(s, position), region, used), h')
  {
    var a, b := s[..position], s[position + 1..];
    assert s == a + [s[position]] + b;
    GatherApart(a, s[position], b, Owned(region, used));
    RemovedBalance(block, ValueOwns(region, used, s[position]), ElementsOwn(a + b, region, used), h, h');
  }

  lemma ReplacedElement(s: seq<Payload>, position: nat, p: Payload, region: seq<Cell>, used: nat, block: nat,
                        h: Heap, h': Heap)
    requires ValidElements(s, region, used) && position < |s| && ValidPayload(region, used, p)
    requires Balanced(ValueOwns(region, used, s[position]), h, multiset{}, h')
    ensures Balanced(multiset{block} + ElementsOwn(s, region, used) + ValueOwns(region, used, p), h,
                     multiset{block} + ElementsOwn(s[position := p], region, used), h')
  {
    GatherUpdate(s, position, p, Owned(region, used));
    var own := ElementsOwn(s, region, used);
    RemovedBalance(block, ValueOwns(region, used, s[position]), ElementsOwn(s[position := p], region, used), h, h');
    assert multiset{block} + own + ValueOwns(region, used, p) == multiset{block} + (own + ValueOwns(region, used, p));
  }

  // ---- The block of memory behind a vector ----

  function SlotsOf(s: seq<Payload>, capacity: nat): (slots: seq<Slot>)
    requires |s| <= capacity
    ensures |slots| == capacity
  {
    seq(capacity, i requires 0 <= i < capacity => if i < |s| then Live("", s[i]) else Empty)
  }

  function BlockOf(s: seq<Payload>, capacity: nat, used: nat, region: seq<Cell>): Obj
    requires |s| <= capacity
  {
    Obj(Vec, |s|, 0, SlotsOf(s, capacity), used, region)
  }

  /** A vector block, seen as buckets or as its elements: valid together, same meaning, same allocations. */
  lemma BlockAsElements(s: seq<Payload>, capacity: nat, used: nat, region: seq<Cell>)
    requires |s| <= capacity && used <= |region|
    ensures Valid(BlockOf(s, capacity, used, region)) <==> ValidElements(s, region, used)
    ensures ValidElements(s, region, used) ==>
              var o := BlockOf(s, capacity, used, region);
              && OwnsFrom(o, 0) == ElementsOwn(s, region, used)
              && (forall i :: 0 <= i < |s| ==> ObjMeaning(o).entries[i] == Live("", Meanings(s, region, used)[i]))
              && (forall i :: |s| <= i < capacity ==> ObjMeaning(o).entries[i] == Empty)
  {
    var o := BlockOf(s, capacity, used, region);
    if ValidElements(s, region, used) {
      forall i | 0 <= i < |o.slots| && o.slots[i].Live? ensures ValidSlot(o, i) {
        assert ValidPayload(region, used, s[i]);
      }
      assert Valid(o);
      forall i | 0 <= i < |s| ensures SlotMeaning(o, i) == Live("", Meanings(s, region, used)[i]) {
        SlotUnfolds(o, i);
      }
      OwnsFromElement(s, capacity, used, region, 0);
      assert s[..0] == [];
      assert OwnsFrom(o, 0) + multiset{} == OwnsFrom(o, 0);
    }
    if Valid(o) {
      forall i | 0 <= i < |s| ensures ValidPayload(region, used, s[i]) {
        assert o.slots[i] == Live("", s[i]);
        SlotUnfolds(o, i);
      }
    }
  }

  lemma {:induction false} OwnsFromElement(s: seq<Payload>, capacity: nat, used: nat, region: seq<Cell>, i: nat)
    requires i <= |s| <= capacity && ValidElements(s, region, used) && Valid(BlockOf(s, capacity, used, region))
    ensures OwnsFrom(BlockOf(s, capacity, used, region), i) + ElementsOwn(s[..i], region, used)
            == ElementsOwn(s, region, used)
    decreases |s| - i
  {
    var o := BlockOf(s, capacity, used, region);
    if i == |s| {
      UnusedOwnNothing(o, i);
      assert s[..i] == s;
    } else {
      OwnsFromElement(s, capacity, used, region, i + 1);
      assert SlotOwns(o, i) == Owned(region, used)(s[i]) by { SlotUnfolds(o, i); }
      assert s[..i + 1] == s[..i] + [s[i]];
      GatherAppend(s[..i], s[i], Owned(region, used));
      Rearrange(SlotOwns(o, i), OwnsFrom(o, i + 1), ElementsOwn(s[..i], region, used));
    }
  }

  /** The values of the used buckets of a vector block. */
  function ElementsOf(o: Obj): (s: seq<Payload>)
    requires Valid(o) && o.kind.Vec?
    ensures |s| == o.inuse <= |o.slots|
  {
    seq(o.inuse, i requires 0 <= i < o.inuse => o.slots[i].value)
  }

  /** A vector block that means what another means has the same elements to every reader. */
  lemma SameMeaningSameElements(s: seq<Payload>, capacity: nat, used: nat, region: seq<Cell>, o: Obj)
    requires |s| <= capacity && used <= |region| && ValidElements(s, region, used)
    requires Valid(o) && Valid(BlockOf(s, capacity, used, region)) && o.inuse == |s| && o.empty == 0
    requires ObjMeaning(o) == ObjMeaning(BlockOf(s, capacity, used, region))
    ensures o == BlockOf(ElementsOf(o), capacity, o.used, o.region)
    ensures ValidElements(ElementsOf(o), o.region, o.used)
    ensures Meanings(ElementsOf(o), o.region, o.used) == Meanings(s, region, used)
  {
    var s' := ElementsOf(o);
    BlockAsElements(s, capacity, used, region);
    forall i | 0 <= i < capacity
      ensures o.slots[i] == if i < |s| then Live("", s'[i]) else Empty
    {
      assert ObjMeaning(o).entries[i] == SlotMeaning(o, i);
      if i < |s| {
        assert ObjMeaning(o).entries[i] == Live("", Meanings(s, region, used)[i]);
      }
    }
    assert o.slots == SlotsOf(s', capacity);
    BlockAsElements(s', capacity, o.used, o.region);
    forall i | 0 <= i < |s| ensures Meanings(s', o.region, o.used)[i] == Meanings(s, region, used)[i] {
      assert ObjMeaning(o).entries[i] == Live("", Meanings(s', o.region, o.used)[i]);
      assert ObjMeaning(o).entries[i] == Live("", Meanings(s, region, used)[i]);
    }
  }

  /** Serialization of a vector's block, in terms of its elements. */
  method SerializeElements(s: seq<Payload>, capacity: nat, used: nat, region: seq<Cell>, h: Heap)
    returns (s': seq<Payload>, used': nat, region': seq<Cell>, length: nat, h': Heap)
    requires |s| <= capacity && used <= |region| && ValidElements(s, region, used)
    ensures |s'| == |s| && used' <= |region'| && ValidElements(s', region', used')
    ensures Meanings(s', region', used') == Meanings(s, region, used)
    ensures var o := BlockOf(s', capacity, used', region'); Valid(o) && Packed(o) && length == BlockSize(o)
    ensures ElementsOwn(s', region', used') == multiset{}
    ensures Balanced(ElementsOwn(s, region, used), h, multiset{}, h')
  {
    BlockAsElements(s, capacity, used, region);
    var o;
    o, length, h' := SerializeObj(BlockOf(s, capacity, used, region), h);
    SameMeaningSameElements(s, capacity, used, region, o);
    s', used', region' := ElementsOf(o), o.used, o.region;
    PackedOwnsNothingFrom(o, 0);
    BlockAsElements(s', capacity, used', region');
  }

  class Vector {
    var slots: array<Payload>
    var inuse: nat
    var used: nat
    var region: seq<Cell>
    var block: nat
    var heap: Heap

    ghost predicate Valid()
      reads this, slots
    {
      inuse <= slots.Length && used <= |region| && ValidElements(slots[..inuse], region, used)
    }

    ghost function View(): seq<Meaning>
      requires Valid()
      reads this, slots
    {
      Meanings(slots[..inuse], region, used)
    }

    ghost function Owns(): multiset<nat>
      requires Valid()
      reads this, slots
    {
      multiset{block} + ElementsOwn(slots[..inuse], region, used)
    }

    /** The vector's block of memory as an object of the store. */
    ghost function Block(): Obj
      requires Valid()
      reads this, slots
    {
      BlockOf(slots[..inuse], slots.Length, used, region)
    }

    constructor (capacity: nat, region: seq<Cell>, used: nat, h: Heap)
      requires used <= |region|
      ensures Valid() && fresh(slots) && slots.Length == capacity && inuse == 0
      ensures this.region == region && this.used == used && View() == []
      ensures block == h.next && heap == Heap(h.next + 1, h.freed)
      ensures Balanced(multiset{}, h, Owns(), heap)
    {
      slots := new Payload[capacity](_ => Payload(0, Scalar(0)));
      inuse := 0;
      this.region := region;
      this.used := used;
      block := h.next;
      heap := Heap(h.next + 1, h.freed);
      new;
      BalancedAlloc(multiset{}, h);
    }

    /** im_add_element: appends, doubling a full vector first. A vector made with capacity 0 cannot be doubled. */
    method Add(p: Payload) returns (position: nat)
      requires Valid() && ValidPayload(region, used, p) && slots.Length >= 1
      modifies this, slots
      ensures Valid() && (slots == old(slots) || fresh(slots))
      ensures position == old(inuse) && inuse == old(inuse) + 1
      ensures slots[..inuse] == old(slots[..inuse]) + [p]
      ensures View() == old(View()) + [ValueMeaning(old(region), old(used), p)]
      ensures used == old(used)
      ensures if old(inuse == slots.Length) then region == old(region[..used]) && slots.Length == 2 * old(slots.Length)
              else region == old(region) && slots == old(slots) && block == old(block) && heap == old(heap)
      ensures Balanced(old(Owns()) + ValueOwns(old(region), old(used), p), old(heap), Owns(), heap)
      decreases if inuse >= slots.Length then 3 else 0
    {
      ghost var before, region0 := slots[..inuse], region;
      AppendedOwn(before, p, region, used);
      if inuse >= slots.Length {
        CutKeepsElements(before + [p], region, used);
        Resize();
      }
      slots[inuse] := p;
      inuse := inuse + 1;
      position := inuse - 1;
      assert slots[..inuse] == before + [p];
      assert View() == Meanings(before + [p], region0, used);
      MovedBalance(old(block), old(heap), block, heap, ElementsOwn(before, region0, used), ValueOwns(region0, used, p));
    }

    /** im_resize_vector: the same elements and offsets in twice the room, which is more room unless there was none. */
    method Resize()
      requires Valid() && inuse == slots.Length
      modifies this, slots
      ensures Valid() && fresh(slots) && slots.Length == 2 * old(slots.Length)
      ensures inuse < slots.Length <==> old(slots.Length) >= 1
      ensures inuse == old(inuse) && slots[..inuse] == old(slots[..inuse])
      ensures used == old(used) && region == old(region[..used])
      ensures block == old(heap).next && heap == Heap(old(heap).next + 1, old(heap).freed + multiset{old(block)})
      decreases 2
    {
      ghost var all := slots[..];
      CutKeepsElements(all, region, used);
      assert all == slots[..inuse];
      var bigger := new Vector(2 * slots.Length, region[..used], used, heap);
      for i := 0 to slots.Length
        invariant unchanged(this) && slots[..] == all
        invariant fresh(bigger) && fresh(bigger.slots)
        invariant bigger.Copied(all, i, region[..used], used, heap)
      {
        bigger.CopyElement(all, i, slots[i], heap);
      }
      assert all[..|all|] == all;
      heap := Heap(bigger.heap.next, bigger.heap.freed + multiset{block});
      slots, region, block := bigger.slots, bigger.region, bigger.block;
    }

    /** This vector has room for twice the given elements and holds the first n; h is the account before it was made. */
    ghost predicate Copied(all: seq<Payload>, n: nat, region: seq<Cell>, used: nat, h: Heap)
      reads this, slots
    {
      && Valid() && n <= |all|
      && inuse == n && slots.Length == 2 * |all| && slots[..n] == all[..n]
      && this.region == region && this.used == used
      && block == h.next && heap == Heap(h.next + 1, h.freed)
    }

    /** One round of the resize loop; the element it adds finds room. */
    method CopyElement(ghost all: seq<Payload>, ghost n: nat, p: Payload, ghost h: Heap)
      requires n < |all| && p == all[n] && ValidElements(all, region, used)
      requires Copied(all, n, region, used, h)
      modifies this, slots
      ensures Copied(all, n + 1, old(region), old(used), h) && slots == old(slots)
      decreases 1
    {
      var position := Add(p);
      assert all[..n + 1] == all[..n] + [all[n]];
    }

    /** im_del_element: frees the value at a position and closes the gap. */
    method Delete(position: int) returns (result: int)
      requires Valid()
      modifies this, slots
      ensures Valid() && slots == old(slots)
      ensures if 0 <= position < old(inuse)
              then result == position
                   && slots[..inuse] == Except(old(slots[..inuse]), position)
                   && View() == Except(old(View()), position)
              else result == -1 && View() == old(View()) && heap == old(heap)
      ensures Balanced(old(Owns()), old(heap), Owns(), heap)
    {
      if position < 0 || position >= inuse {
        return -1;
      }
      ghost var s := slots[..inuse];
      assert s[position] == slots[position];
      heap := FreeValue(region, used, slots[position], heap);
      RemovedMeaning(s, position, region, used);
      RemovedElement(s, position, region, used, block, old(heap), heap);
      MoveDown(position);
      inuse := inuse - 1;
      result := position;
    }

    /** The memmove over the bucket at a position. */
    method MoveDown(position: nat)
      requires position < inuse <= slots.Length
      modifies slots
      ensures slots[..inuse - 1] == Except(old(slots[..inuse]), position)
    {
      ghost var s := slots[..inuse];
      for i := position to inuse - 1
        invariant slots[..i] == s[..position] + s[position + 1..i + 1]
        invariant forall k :: i <= k < inuse ==> slots[k] == s[k]
      {
        slots[i] := slots[i + 1];
        assert slots[..i + 1] == slots[..i] + [s[i + 1]];
      }
      assert s[position + 1..inuse] == s[position + 1..];
    }

    /** im_set_element: frees the value at a position and puts another there; if refused, that stays the caller's. */
    method Set(position: int, p: Payload) returns (result: int)
      requires Valid() && ValidPayload(region, used, p)
      modifies this`heap, slots
      ensures Valid()
      ensures if 0 <= position < inuse
              then result == position
                   && slots[..inuse] == old(slots[..inuse])[position := p]
                   && View() == old(View())[position := ValueMeaning(region, used, p)]
                   && Balanced(old(Owns()) + ValueOwns(region, used, p), old(heap), Owns(), heap)
              else result == -1 && View() == old(View()) && Owns() == old(Owns()) && heap == old(heap)
    {
      if position < 0 || position >= inuse {
        return -1;
      }
      ghost var s := slots[..inuse];
      assert s[position] == slots[position];
      heap := FreeValue(region, used, slots[position], heap);
      ReplacedElement(s, position, p, region, used, block, old(heap), heap);
      slots[position] := p;
      assert slots[..inuse] == s[position := p];
      result := position;
    }

    method Get(position: int) returns (found: bool, p: Payload)
      requires Valid()
      ensures found <==> 0 <= position < inuse
      ensures found ==> p == slots[position] && ValidPayload(region, used, p)
      ensures found ==> ValueMeaning(region, used, p) == View()[position]
    {
      found := 0 <= position < inuse;
      p := Payload(0, Scalar(0));
      if found {
        p := slots[position];
        assert slots[..inuse][position] == p;
      }
    }

    /** im_serialize_vector: one packed block, the same elements to every reader. */
    method SerializeVector() returns (length: nat)
      requires Valid()
      modifies this, slots
      ensures Valid() && slots == old(slots) && inuse == old(inuse) && View() == old(View())
      ensures Store.Valid(Block()) && Packed(Block()) && length == BlockSize(Block())
      ensures Owns() == multiset{block} && Balanced(old(Owns()), old(heap), Owns(), heap)
    {
      ghost var own := ElementsOwn(slots[..inuse], region, used);
      var s;
      s, used, region, length, heap := SerializeElements(slots[..inuse], slots.Length, used, region, heap);
      RemovedBalance(block, own, multiset{}, old(heap), heap);
      assert multiset{} + own == own && multiset{block} + multiset{} == multiset{block};
      Overwrite(s);
    }

    /** Replaces the elements bucket by bucket. */
    method Overwrite(s: seq<Payload>)
      requires |s| == inuse <= slots.Length
      modifies slots
      ensures slots[..inuse] == s
    {
      for i := 0 to inuse
        invariant slots[..i] == s[..i]
      {
        slots[i] := s[i];
        assert slots[..i + 1] == slots[..i] + [s[i]];
      }
    }

    /** im_empty_vector: frees every value. */
    method Clear()
      requires Valid()
      modifies this
      ensures Valid() && inuse == 0 && View() == [] && slots == old(slots) && used == 0
      ensures Owns() == multiset{block} && Balanced(old(Owns()), old(heap), Owns(), heap)
    {
      BlockAsElements(slots[..inuse], slots.Length, used, region);
      ghost var own := ElementsOwn(slots[..inuse], region, used);
      heap := FreeBuckets(BlockOf(slots[..inuse], slots.Length, used, region), heap);
      RemovedBalance(block, own, multiset{}, old(heap), heap);
      assert multiset{} + own == own;
      inuse, used := 0, 0;
      assert multiset{block} + multiset{} == multiset{block};
    }
  }

  lemma AppendedOwn(s: seq<Payload>, p: Payload, region: seq<Cell>, used: nat)
    requires ValidElements(s, region, used) && ValidPayload(region, used, p)
    ensures ValidElements(s + [p], region, used)
    ensures ElementsOwn(s + [p], region, used) == ElementsOwn(s, region, used) + ValueOwns(region, used, p)
  {
    GatherAppend(s, p, Owned(region, used));
  }

  /** The account of an append, with or without a move to a new block. */
  lemma MovedBalance(b: nat, h: Heap, b': nat, h': Heap, own: multiset<nat>, added: multiset<nat>)
    requires (b' == b && h' == h) || (b' == h.next && h' == Heap(h.next + 1, h.freed + multiset{b}))
    ensures Balanced(multiset{b} + own + added, h, multiset{b'} + (own + added), h')
  {
    assert multiset{b} + own + added == multiset{b} + (own + added);
  }
}
