/**
 What serialization is for: the block of a packed object means the same in a place where none of
 the allocations of its origin exist, and a block that is not free of allocations does not.
 */
module Relocation {
  import opened Arithmetic
  import opened ProbeTable
  import opened Store
  import opened Serialize

  // ---- Memory as it looks elsewhere ----

  /** Elsewhere every pointer to an allocation dangles; numbers, bytes and offsets stay what they are. */
  function EraseValue(v: Value): Value {
    if v.External? || v.ExternalObj? then Dangling else v
  }

  function EraseSlot(s: Slot): Slot {
    if s.Live? then Live(s.key, Payload(s.value.length, EraseValue(s.value.value))) else s
  }

  function EraseCell(c: Cell): Cell {
    if c.Entry? then Entry(EraseSlot(c.slot)) else c
  }

  function EraseSlots(slots: seq<Slot>): (r: seq<Slot>)
    ensures |r| == |slots| && forall i :: 0 <= i < |slots| ==> r[i] == EraseSlot(slots[i])
  {
    seq(|slots|, i requires 0 <= i < |slots| => EraseSlot(slots[i]))
  }

  /** The cells of attached objects are erased with the region, whatever their depth. */
  function EraseCells(cells: seq<Cell>): (r: seq<Cell>)
    ensures |r| == |cells| && forall i :: 0 <= i < |cells| ==> r[i] == EraseCell(cells[i])
  {
    seq(|cells|, i requires 0 <= i < |cells| => EraseCell(cells[i]))
  }

  function EraseObj(o: Obj): Obj {
    Obj(o.kind, o.inuse, o.empty, EraseSlots(o.slots), o.used, EraseCells(o.region))
  }

  lemma EraseSlice(cells: seq<Cell>, a: nat, b: nat)
    requires a <= b <= |cells|
    ensures EraseCells(cells)[a..b] == EraseCells(cells[a..b])
  {
  }

  lemma EraseConts(cells: seq<Cell>, n: nat)
    ensures EraseCells(cells) == Conts(n) <==> cells == Conts(n)
  {
    if EraseCells(cells) == Conts(n) {
      forall i | 0 <= i < |cells| ensures cells[i] == Cont {
        assert EraseCells(cells)[i] == Conts(n)[i] == Cont;
      }
    }
  }

  // ---- Reading erased memory is erasing what is read ----

  lemma {:induction false} ErasedSlots(kind: Kind, n: nat, cells: seq<Cell>)
    requires IsSlots(kind, n, cells)
    ensures IsSlots(kind, n, EraseCells(cells))
    ensures DecodeSlots(kind, n, EraseCells(cells)) == EraseSlots(DecodeSlots(kind, n, cells))
  {
    if n > 0 {
      var b := BucketSize(kind);
      EraseSlice(cells, 1, b);
      EraseConts(cells[1..b], b - 1);
      EraseSlice(cells, b, |cells|);
      assert EraseCells(cells)[b..] == EraseCells(cells[b..]);
      ErasedSlots(kind, n - 1, cells[b..]);
    }
  }

  lemma ErasedBlock(kind: Kind, cells: seq<Cell>)
    requires IsBlock(kind, cells)
    ensures IsBlock(kind, EraseCells(cells))
    ensures Decode(kind, EraseCells(cells)) == EraseObj(Decode(kind, cells))
  {
    EraseSlice(cells, 1, HEADER);
    EraseConts(cells[1..HEADER], HEADER - 1);
    EraseSlice(cells, HEADER, |cells|);
    assert EraseCells(cells)[HEADER..] == EraseCells(cells[HEADER..]);
    ErasedSlots(kind, cells[0].count, cells[HEADER..]);
    var at := HEADER + Span(kind, cells[0].count);
    EraseSlice(cells, at, |cells|);
    assert EraseCells(cells)[at..] == EraseCells(cells[at..]);
  }

  // ---- Which objects survive ----

  lemma {:induction false} EachOwnsNothing(o: Obj, i: nat, j: nat)
    requires Valid(o) && i <= j < |o.slots| && OwnsFrom(o, i) == multiset{}
    ensures SlotOwns(o, j) == multiset{}
    decreases j - i
  {
    assert OwnsFrom(o, i) == SlotOwns(o, i) + OwnsFrom(o, i + 1);
    EmptySum(SlotOwns(o, i), OwnsFrom(o, i + 1));
    if i < j {
      EachOwnsNothing(o, i + 1, j);
    }
  }

  lemma {:induction false} AllOwnNothing(o: Obj, i: nat)
    requires Valid(o) && i <= |o.slots|
    requires forall j :: i <= j < |o.slots| ==> SlotOwns(o, j) == multiset{}
    ensures OwnsFrom(o, i) == multiset{}
    decreases |o.slots| - i
  {
    if i < |o.slots| {
      AllOwnNothing(o, i + 1);
    }
  }

  /** A value that reads the same elsewhere. */
  ghost predicate Survives(region: seq<Cell>, used: nat, p: Payload)
    requires ValidPayload(region, used, p)
  {
    var p', region' := Payload(p.length, EraseValue(p.value)), EraseCells(region);
    && ValidPayload(region', used, p')
    && ValueMeaning(region', used, p') == ValueMeaning(region, used, p)
  }

  lemma BytesSurvive(region: seq<Cell>, used: nat, p: Payload)
    requires ValidPayload(region, used, p) && p.value.Attached?
    ensures Survives(region, used, p)
  {
    var a, b := p.value.off, p.value.off + p.length;
    EraseSlice(region, a, b);
    assert EraseCells(region[a..b]) == region[a..b];
  }

  /** The attached child of erased memory is the erased child. */
  lemma ChildErased(region: seq<Cell>, used: nat, p: Payload)
    requires ValidPayload(region, used, p) && p.value.AttachedObj?
    ensures InPlace(EraseCells(region), used, p)
    ensures Child(EraseCells(region), used, p) == EraseObj(Child(region, used, p))
  {
    var a, b := p.value.off, p.value.off + p.length;
    var cells := region[a..b];
    assert EraseCells(region)[a..b] == EraseCells(cells) by { EraseSlice(region, a, b); }
    ErasedBlock(p.value.kind, cells);
  }

  /** An object that owns no allocation, at any depth, is the same object to every reader elsewhere. */
  lemma {:induction false} OwningNothingSurvives(o: Obj)
    requires Valid(o) && OwnsFrom(o, 0) == multiset{}
    ensures Valid(EraseObj(o)) && ObjMeaning(EraseObj(o)) == ObjMeaning(o)
    decreases Weight(o)
  {
    forall i | 0 <= i < |o.slots| && o.slots[i].Live?
      ensures ValidPayload(o.region, o.used, o.slots[i].value) && Survives(o.region, o.used, o.slots[i].value)
    {
      SlotUnfolds(o, i);
      var p := o.slots[i].value;
      EachOwnsNothing(o, 0, i);
      if p.value.Attached? {
        BytesSurvive(o.region, o.used, p);
      } else if p.value.AttachedObj? {
        ChildErased(o.region, o.used, p);
        ChildIsLighter(o, i);
        OwningNothingSurvives(Child(o.region, o.used, p));
      }
    }
    SurvivingSlots(o);
  }

  lemma SurvivingSlots(o: Obj)
    requires Valid(o)
    requires forall i :: 0 <= i < |o.slots| && o.slots[i].Live? ==>
               ValidPayload(o.region, o.used, o.slots[i].value) && Survives(o.region, o.used, o.slots[i].value)
    ensures Valid(EraseObj(o)) && ObjMeaning(EraseObj(o)) == ObjMeaning(o)
  {
    var o' := EraseObj(o);
    forall i | 0 <= i < |o'.slots| && o'.slots[i].Live? ensures ValidSlot(o', i) {
      assert Survives(o.region, o.used, o.slots[i].value);
    }
    forall i | 0 <= i < |o.slots| ensures SlotMeaning(o', i) == SlotMeaning(o, i) {
      if o.slots[i].Live? {
        SlotUnfolds(o, i);
        SlotUnfolds(o', i);
      }
    }
    assert ObjMeaning(o').entries == ObjMeaning(o).entries;
  }

  /** Conversely, a valid object whose erasure is valid owns nothing. */
  lemma {:induction false} SurvivorOwnsNothing(o: Obj)
    requires Valid(o) && Valid(EraseObj(o))
    ensures OwnsFrom(o, 0) == multiset{}
    decreases Weight(o)
  {
    var o' := EraseObj(o);
    forall i | 0 <= i < |o.slots| ensures SlotOwns(o, i) == multiset{} {
      if o.slots[i].Live? {
        SlotUnfolds(o, i);
        SlotUnfolds(o', i);
        var p := o.slots[i].value;
        if p.value.AttachedObj? {
          ChildErased(o.region, o.used, p);
          ChildIsLighter(o, i);
          SurvivorOwnsNothing(Child(o.region, o.used, p));
        }
      }
    }
    AllOwnNothing(o, 0);
  }

  /** A block can be moved away from its allocations exactly when it owns none, and then keeps its meaning. */
  lemma RelocatableIffOwnsNothing(o: Obj)
    requires Valid(o)
    ensures Valid(EraseObj(o)) <==> OwnsFrom(o, 0) == multiset{}
    ensures Valid(EraseObj(o)) ==> ObjMeaning(EraseObj(o)) == ObjMeaning(o)
  {
    if Valid(EraseObj(o)) {
      SurvivorOwnsNothing(o);
    }
    if OwnsFrom(o, 0) == multiset{} {
      OwningNothingSurvives(o);
    }
  }

  /**
   A packed block copied cell by cell to any place, with every allocation of its origin gone, reads
   back as a valid object with the same meaning at every depth.
   */
  lemma PackedIsRelocatable(o: Obj, before: seq<Cell>, after: seq<Cell>)
    requires Valid(o) && Packed(o)
    ensures var there := EraseCells(before + Encode(o) + after)[|before|..|before| + BlockSize(o)];
            && IsBlock(o.kind, there)
            && Valid(Decode(o.kind, there))
            && ObjMeaning(Decode(o.kind, there)) == ObjMeaning(o)
  {
    CellsElsewhere(before, Encode(o), after);
    ReadElsewhere(o);
  }

  lemma CellsElsewhere(before: seq<Cell>, cells: seq<Cell>, after: seq<Cell>)
    ensures EraseCells(before + cells + after)[|before|..|before| + |cells|] == EraseCells(cells)
  {
    var memory := before + cells + after;
    EraseSlice(memory, |before|, |before| + |cells|);
    assert memory[|before|..|before| + |cells|] == cells;
  }

  lemma ReadElsewhere(o: Obj)
    requires Valid(o) && Packed(o)
    ensures var there := EraseCells(Encode(o));
            && IsBlock(o.kind, there)
            && Valid(Decode(o.kind, there))
            && ObjMeaning(Decode(o.kind, there)) == ObjMeaning(o)
  {
    DecodeOfEncode(o);
    ErasedBlock(o.kind, Encode(o));
    PackedOwnsNothingFrom(o, 0);
    OwningNothingSurvives(o);
  }

  /**
   From end to end: any tree, serialized here and read elsewhere from nothing but the cells of its
   block, is the tree it was.
   */
  method SerializeAndMove(o: Obj, h: Heap) returns (cells: seq<Cell>, h': Heap)
    requires Valid(o)
    ensures IsBlock(o.kind, EraseCells(cells)) && Valid(Decode(o.kind, EraseCells(cells)))
    ensures ObjMeaning(Decode(o.kind, EraseCells(cells))) == ObjMeaning(o)
    ensures Balanced(OwnsFrom(o, 0), h, multiset{}, h')
  {
    var o', length;
    o', length, h' := SerializeObj(o, h);
    cells := Encode(o');
    ReadElsewhere(o');
  }
}
