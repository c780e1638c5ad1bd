/**
 Serialization: turning a tree of allocations into one relocatable block.

 The pass over an object visits its buckets in order. A nested value is first
 serialized on its own, an attached one after being copied out to an allocation;
 then every non-inline value is moved into the trailing region, which is rebuilt
 from offset 0 out of a copy of its old contents.
 */
module Serialize {
  import opened ProbeTable
  import opened Store

  // ---- The allocator's account ----

  /** Identifiers below next have been handed out; freed counts every release. */
  datatype Heap = Heap(next: nat, freed: multiset<nat>)

  ghost function Ids(n: nat): multiset<nat> {
    if n == 0 then multiset{} else Ids(n - 1) + multiset{n - 1}
  }

  /** What was owned before plus what was allocated since is what is owned now plus what was freed since. */
  ghost predicate Balanced(own: multiset<nat>, h: Heap, own': multiset<nat>, h': Heap) {
    && h.next <= h'.next
    && own' + h'.freed + Ids(h.next) == own + h.freed + Ids(h'.next)
  }

  lemma BalancedTransitive(a: multiset<nat>, h: Heap, b: multiset<nat>, h': Heap, c: multiset<nat>, h'': Heap)
    requires Balanced(a, h, b, h') && Balanced(b, h', c, h'')
    ensures Balanced(a, h, c, h'')
  {
    forall x: nat
      ensures (c + h''.freed + Ids(h.next))[x] == (a + h.freed + Ids(h''.next))[x]
    {
      assert (b + h'.freed + Ids(h.next))[x] == (a + h.freed + Ids(h'.next))[x];
      assert (c + h''.freed + Ids(h'.next))[x] == (b + h'.freed + Ids(h''.next))[x];
    }
  }

  /** Ownership that an operation does not touch can be added on both sides. */
  lemma BalancedFrame(a: multiset<nat>, h: Heap, b: multiset<nat>, h': Heap, f: multiset<nat>)
    requires Balanced(a, h, b, h')
    ensures Balanced(a + f, h, b + f, h')
  {
    forall x: nat
      ensures ((b + f) + h'.freed + Ids(h.next))[x] == ((a + f) + h.freed + Ids(h'.next))[x]
    {
      assert (b + h'.freed + Ids(h.next))[x] == (a + h.freed + Ids(h'.next))[x];
    }
  }

  lemma BalancedFree(own: multiset<nat>, h: Heap, id: nat)
    requires id in own
    ensures Balanced(own, h, own - multiset{id}, Heap(h.next, h.freed + multiset{id}))
  {
  }

  lemma BalancedAlloc(own: multiset<nat>, h: Heap)
    ensures Balanced(own, h, own + multiset{h.next}, Heap(h.next + 1, h.freed))
  {
  }

  // ---- The packed layout ----

  /** The padding that im_align_offset adds: up to the next multiple of 8. */
  function AlignPad(n: nat): nat {
    if n % 8 == 0 then 0 else 8 - n % 8
  }

  /** Nested objects start aligned, everything else right at the end of what is there. */
  function StartOffset(used: nat, v: Value): nat {
    if IsNested(v) then used + AlignPad(used) else used
  }

  function EndOffset(used: nat, p: Payload): nat {
    if p.value.Attached? || p.value.AttachedObj? then StartOffset(used, p.value) + p.length else used
  }

  /** Where the first n buckets end when their attached values are laid out in order. */
  function PackEnd(slots: seq<Slot>, n: nat): nat
    requires n <= |slots|
  {
    if n == 0 then 0
    else if slots[n - 1].Live? then EndOffset(PackEnd(slots, n - 1), slots[n - 1].value)
    else PackEnd(slots, n - 1)
  }

  /** The bucket's value needs no allocation, and if attached sits at the given end of the layout so far. */
  ghost predicate PackedValue(region: seq<Cell>, used: nat, p: Payload, start: nat)
    requires ValidPayload(region, used, p)
    decreases Load(region, used, p), 2
  {
    match p.value
    case Scalar(_) => true
    case Inline(_, _) => true
    case External(_, _, _) => false
    case ExternalObj(_, _) => false
    case Attached(_, off) => off == start && p.length > INLINE_SIZE
    case AttachedObj(_, off) => off == StartOffset(start, p.value) && Packed(Child(region, used, p))
    case Dangling => false
  }

  ghost predicate PackedSlot(o: Obj, i: nat)
    requires Valid(o) && i < |o.slots|
    decreases Weight(o), 0
  {
    if !o.slots[i].Live? then true
    else
      assert ValidSlot(o, i);
      if IsNested(o.slots[i].value.value) then
        ChildIsLighter(o, i);
        PackedValue(o.region, o.used, o.slots[i].value, PackEnd(o.slots, i))
      else PackedValue(o.region, o.used, o.slots[i].value, PackEnd(o.slots, i))
  }

  /** The form serialization produces: attached values in bucket order, back to back up to alignment. */
  ghost predicate Packed(o: Obj)
    requires Valid(o)
    decreases Weight(o), 1
  {
    && o.used == |o.region| == PackEnd(o.slots, |o.slots|)
    && forall i :: 0 <= i < |o.slots| ==> PackedSlot(o, i)
  }

  /** The functions over buckets, read off the bucket's value. */
  lemma SlotUnfolds(o: Obj, i: nat)
    requires Valid(o) && i < |o.slots| && o.slots[i].Live?
    ensures ValidPayload(o.region, o.used, o.slots[i].value)
    ensures SlotMeaning(o, i) == Live(o.slots[i].key, ValueMeaning(o.region, o.used, o.slots[i].value))
    ensures SlotOwns(o, i) == ValueOwns(o.region, o.used, o.slots[i].value)
    ensures PackedSlot(o, i) == PackedValue(o.region, o.used, o.slots[i].value, PackEnd(o.slots, i))
  {
    assert ValidSlot(o, i);
  }

  // ---- What packing means: flat, disjoint, in bounds, aligned ----

  lemma {:induction false} PackEndMonotone(slots: seq<Slot>, m: nat, n: nat)
    requires m <= n <= |slots|
    ensures PackEnd(slots, m) <= PackEnd(slots, n)
  {
    if m < n {
      PackEndMonotone(slots, m, n - 1);
    }
  }

  lemma {:induction false} PackEndPrefix(a: seq<Slot>, b: seq<Slot>, n: nat)
    requires n <= |a| && n <= |b| && a[..n] == b[..n]
    ensures PackEnd(a, n) == PackEnd(b, n)
  {
    if n > 0 {
      assert a[n - 1] == a[..n][n - 1] == b[..n][n - 1] == b[n - 1];
      assert a[..n - 1] == a[..n][..n - 1] == b[..n][..n - 1] == b[..n - 1];
      PackEndPrefix(a, b, n - 1);
    }
  }

  ghost predicate IsAttached(o: Obj, i: nat) {
    i < |o.slots| && o.slots[i].Live? && (o.slots[i].value.value.Attached? || o.slots[i].value.value.AttachedObj?)
  }

  lemma AlignedSum(n: nat)
    ensures (n + AlignPad(n)) % 8 == 0
  {
  }

  /** An attached value starts where the ones before it end, a nested one at the next multiple of 8. */
  lemma PackedAt(o: Obj, i: nat)
    requires Valid(o) && Packed(o) && IsAttached(o, i)
    ensures var p := o.slots[i].value;
            && PackEnd(o.slots, i) <= p.value.off
            && p.value.off + p.length == PackEnd(o.slots, i + 1)
            && (if p.value.AttachedObj? then p.value.off % 8 == 0 && p.value.off < PackEnd(o.slots, i) + 8
                else p.value.off == PackEnd(o.slots, i))
  {
    assert PackedSlot(o, i);
    SlotUnfolds(o, i);
    AlignedSum(PackEnd(o.slots, i));
  }

  /** Attached values occupy disjoint in-bounds intervals, in bucket order. */
  lemma PackedLayout(o: Obj, i: nat, j: nat)
    requires Valid(o) && Packed(o) && i < j && IsAttached(o, i) && IsAttached(o, j)
    ensures var p, q := o.slots[i].value, o.slots[j].value;
            && p.value.off + p.length <= q.value.off
            && q.value.off + q.length <= |o.region|
  {
    var p, q := o.slots[i].value, o.slots[j].value;
    assert p.value.off + p.length == PackEnd(o.slots, i + 1) by { PackedAt(o, i); }
    assert PackEnd(o.slots, j) <= q.value.off && q.value.off + q.length == PackEnd(o.slots, j + 1) by {
      PackedAt(o, j);
    }
    PackEndMonotone(o.slots, i + 1, j);
    PackEndMonotone(o.slots, j + 1, |o.slots|);
  }

  lemma {:induction false} PackedOwnsNothingFrom(o: Obj, i: nat)
    requires Valid(o) && Packed(o) && i <= |o.slots|
    ensures OwnsFrom(o, i) == multiset{}
    decreases Weight(o), |o.slots| - i
  {
    if i < |o.slots| {
      assert PackedSlot(o, i);
      if o.slots[i].Live? {
        SlotUnfolds(o, i);
        if o.slots[i].value.value.AttachedObj? {
          ChildIsLighter(o, i);
          PackedOwnsNothingFrom(Child(o.region, o.used, o.slots[i].value), 0);
        }
      }
      PackedOwnsNothingFrom(o, i + 1);
    }
  }

  // ---- Framing: a value depends only on its own slice of the region ----

  lemma SameSlice(r: seq<Cell>, u: nat, r': seq<Cell>, u': nat, p: Payload)
    requires ValidPayload(r, u, p) && u' <= |r'|
    requires p.value.Attached? || p.value.AttachedObj? ==>
               var a, b := p.value.off, p.value.off + p.length; b <= u' && r[a..b] == r'[a..b]
    ensures ValidPayload(r', u', p)
    ensures IsNested(p.value) ==> Child(r, u, p) == Child(r', u', p)
    ensures ValueMeaning(r', u', p) == ValueMeaning(r, u, p)
    ensures ValueOwns(r', u', p) == ValueOwns(r, u, p)
  {
  }

  lemma SamePacking(r: seq<Cell>, u: nat, r': seq<Cell>, u': nat, p: Payload, start: nat)
    requires ValidPayload(r, u, p) && ValidPayload(r', u', p)
    requires IsNested(p.value) ==> Child(r, u, p) == Child(r', u', p)
    ensures PackedValue(r', u', p, start) == PackedValue(r, u, p, start)
  {
  }

  lemma SubSlice(r: seq<Cell>, n: nat, a: nat, b: nat)
    requires a <= b <= n <= |r|
    ensures r[..n][a..b] == r[a..b]
  {
  }

  function Overwrite(region: seq<Cell>, at: nat, cells: seq<Cell>): (r: seq<Cell>)
    requires at + |cells| <= |region|
    ensures |r| == |region|
    ensures r[..at] == region[..at]
    ensures r[at..at + |cells|] == cells
    ensures region[at..at + |cells|] == cells ==> r == region
  {
    region[..at] + cells + region[at + |cells|..]
  }

  // ---- Attaching one value ----

  /** The cells a non-inline value is copied from. */
  function SourceCells(buffer: seq<Cell>, p: Payload): seq<Cell>
    requires InPlace(buffer, |buffer|, p)
  {
    match p.value
    case External(_, _, bytes) => FromBytes(bytes)
    case ExternalObj(_, obj) => Encode(obj)
    case Attached(_, off) => buffer[off..off + p.length]
    case _ => []
  }

  /** The value attach_bucket leaves for p when its copy would start at `at`. */
  function AttachedForm(buffer: seq<Cell>, p: Payload, at: nat): Payload
    requires InPlace(buffer, |buffer|, p)
  {
    match p.value
    case External(tag, _, bytes) =>
      if p.length <= INLINE_SIZE then p.(value := Inline(tag, bytes)) else p.(value := Attached(tag, at))
    case Attached(tag, off) =>
      if p.length <= INLINE_SIZE then p.(value := Inline(tag, ToBytes(buffer[off..off + p.length])))
      else p.(value := Attached(tag, at))
    case ExternalObj(_, obj) => p.(value := AttachedObj(obj.kind, at))
    case _ => p
  }

  /** What attach_bucket is given: a value in the old region or in an allocation, nested ones already packed. */
  ghost predicate Attachable(buffer: seq<Cell>, p: Payload) {
    && ValidPayload(buffer, |buffer|, p)
    && !p.value.AttachedObj?
    && (p.value.ExternalObj? ==> Packed(p.value.obj) && p.length == BlockSize(p.value.obj))
  }

  /** A value moved to its new place means what it meant, and owns nothing. */
  lemma AttachedMeansTheSame(buffer: seq<Cell>, p: Payload, region: seq<Cell>, used: nat, start: nat, at: nat)
    requires Attachable(buffer, p) && used <= |region|
    requires p.value.Scalar? || p.value.Inline? || at == StartOffset(start, AttachedForm(buffer, p, at).value)
    requires var q := AttachedForm(buffer, p, at);
             q.value.Attached? || q.value.AttachedObj? ==>
               at + p.length <= used && region[at..at + p.length] == SourceCells(buffer, p)
    ensures var q := AttachedForm(buffer, p, at);
            && ValidPayload(region, used, q)
            && PackedValue(region, used, q, start)
            && ValueMeaning(region, used, q) == ValueMeaning(buffer, |buffer|, p)
            && ValueOwns(region, used, q) == multiset{}
  {
    if p.value.ExternalObj? {
      AttachedChild(p.value.obj, region, used, AttachedForm(buffer, p, at));
    }
  }

  /** Reading back the cells of a packed object that was copied to the region. */
  lemma AttachedChild(obj: Obj, region: seq<Cell>, used: nat, q: Payload)
    requires Valid(obj) && Packed(obj) && used <= |region|
    requires q.value.AttachedObj? && q.value.kind == obj.kind && q.length == BlockSize(obj)
    requires q.value.off + q.length <= used && region[q.value.off..q.value.off + q.length] == Encode(obj)
    ensures InPlace(region, used, q) && Child(region, used, q) == obj
    ensures OwnsFrom(obj, 0) == multiset{}
  {
    DecodeOfEncode(obj);
    PackedOwnsNothingFrom(obj, 0);
  }

  /**
   attach_bucket: copies one value to the end of the used region, growing the region
   in steps, and releases the allocation it came from.
   */
  method Attach(region: seq<Cell>, used: nat, p: Payload, buffer: seq<Cell>, h: Heap)
    returns (region': seq<Cell>, used': nat, p': Payload, h': Heap)
    requires used <= |region| && Attachable(buffer, p)
    ensures used <= used' <= |region'| && region'[..used] == region[..used]
    ensures used' == EndOffset(used, p')
    ensures ValidPayload(region', used', p') && PackedValue(region', used', p', used)
    ensures ValueMeaning(region', used', p') == ValueMeaning(buffer, |buffer|, p)
    ensures Balanced(ValueOwns(buffer, |buffer|, p), h, multiset{}, h')
    ensures p' == AttachedForm(buffer, p, StartOffset(used, p.value))
    // nothing moves when the value is already where it belongs
    ensures var at := StartOffset(used, p.value); var cells := SourceCells(buffer, p);
            at + |cells| <= |region| && region[at..at + |cells|] == cells ==> region' == region
  {
    region', used', p', h' := region, used, p, h;
    if p.value.Scalar? || p.value.Inline? {
      return;
    }
    var at := used;
    if p.value.ExternalObj? {
      at := at + AlignPad(at);
    }
    p' := AttachedForm(buffer, p, at);
    region', used' := CopyValue(region, used, p, buffer, at);
    AttachedMeansTheSame(buffer, p, region', used', used, at);
    h' := Release(buffer, p, h);
  }

  /** Makes room for a value and copies its cells, unless it is short data, which will be inline. */
  method CopyValue(region: seq<Cell>, used: nat, p: Payload, buffer: seq<Cell>, at: nat)
    returns (region': seq<Cell>, used': nat)
    requires used <= |region| && Attachable(buffer, p) && !p.value.Scalar? && !p.value.Inline?
    requires at == StartOffset(used, p.value)
    ensures used <= used' <= |region'| && region'[..used] == region[..used]
    ensures used' == EndOffset(used, AttachedForm(buffer, p, at))
    ensures used' > used || AttachedForm(buffer, p, at).value.AttachedObj? ==>
              used' == at + p.length && region'[at..at + p.length] == SourceCells(buffer, p)
    ensures var cells := SourceCells(buffer, p);
            at + |cells| <= |region| && region[at..at + |cells|] == cells ==> region' == region
  {
    used' := used;
    region' := Grow(region, at, p.length);
    assert region'[..used] == region'[..|region|][..used];
    if p.value.ExternalObj? || p.length > INLINE_SIZE {
      region' := CopyIn(region', at, SourceCells(buffer, p), used);
      used' := at + p.length;
    }
  }

  /** The free at the end of attach_bucket: external values only, a packed child as one allocation. */
  method Release(buffer: seq<Cell>, p: Payload, h: Heap) returns (h': Heap)
    requires Attachable(buffer, p)
    ensures Balanced(ValueOwns(buffer, |buffer|, p), h, multiset{}, h')
  {
    h' := h;
    if p.value.External? || p.value.ExternalObj? {
      h' := h'.(freed := h'.freed + multiset{p.value.id});
      if p.value.ExternalObj? {
        PackedOwnsNothingFrom(p.value.obj, 0);
      }
      assert ValueOwns(buffer, |buffer|, p) == multiset{p.value.id};
      BalancedFree(multiset{p.value.id}, h, p.value.id);
    }
  }

  /** memcpy into the region; what lies below keep is not touched. */
  method CopyIn(region: seq<Cell>, at: nat, cells: seq<Cell>, ghost keep: nat) returns (region': seq<Cell>)
    requires keep <= at && at + |cells| <= |region|
    ensures |region'| == |region| && region'[..keep] == region[..keep]
    ensures region'[at..at + |cells|] == cells
    ensures region[at..at + |cells|] == cells ==> region' == region
  {
    region' := Overwrite(region, at, cells);
    assert region'[..keep] == region'[..at][..keep] == region[..at][..keep] == region[..keep];
  }

  /** The realloc loop: fixed-size steps until length cells fit after offset at. */
  method Grow(region: seq<Cell>, at: nat, length: nat) returns (region': seq<Cell>)
    ensures |region'| >= |region| && region'[..|region|] == region
    ensures at + length <= |region'|
    ensures at + length <= |region| ==> region' == region
    ensures (|region'| - |region|) % 8192 == 0
    ensures |region'| == |region| || |region'| - 8192 < at + length
  {
    var size := |region|;
    while length > size - at
      invariant |region| <= size && (size - |region|) % 8192 == 0
      invariant size == |region| || size - 8192 < at + length
      invariant at + length <= |region| ==> size == |region|
      decreases at + length - size
    {
      size := size + GROWTH;
    }
    region' := region + seq(size - |region|, _ => Junk);
  }

  // ---- The pass over all buckets ----

  /** Bucket j has been handled: same status and key, its value packed and meaning what it meant in o. */
  ghost predicate DoneSlot(o: Obj, slots: seq<Slot>, region: seq<Cell>, used: nat, j: nat)
    requires Valid(o) && |slots| == |o.slots| && j < |slots|
  {
    if !o.slots[j].Live? then slots[j] == o.slots[j]
    else
      && slots[j].Live? && slots[j].key == o.slots[j].key
      && ValidPayload(region, used, slots[j].value)
      && PackedValue(region, used, slots[j].value, PackEnd(slots, j))
      && ValidPayload(o.region, o.used, o.slots[j].value)
      && ValueMeaning(region, used, slots[j].value) == ValueMeaning(o.region, o.used, o.slots[j].value)
  }

  ghost predicate Done(o: Obj, slots: seq<Slot>, region: seq<Cell>, used: nat, i: nat)
    requires Valid(o) && i <= |o.slots|
  {
    && |slots| == |o.slots|
    && used == PackEnd(slots, i) <= |region|
    && slots[i..] == o.slots[i..]
    && forall j :: 0 <= j < i ==> DoneSlot(o, slots, region, used, j)
  }

  /** Handling bucket i leaves the handled ones alone. */
  lemma DoneStep(o: Obj, slots: seq<Slot>, region: seq<Cell>, used: nat, i: nat,
                 p': Payload, region': seq<Cell>, used': nat)
    requires Valid(o) && i < |o.slots| && o.slots[i].Live?
    requires Done(o, slots, region, used, i)
    requires used <= used' <= |region'| && region'[..used] == region[..used]
    requires used' == EndOffset(used, p')
    requires ValidPayload(region', used', p') && PackedValue(region', used', p', used)
    requires ValidPayload(o.region, o.used, o.slots[i].value)
    requires ValueMeaning(region', used', p') == ValueMeaning(o.region, o.used, o.slots[i].value)
    ensures Done(o, slots[i := Live(o.slots[i].key, p')], region', used', i + 1)
  {
    var slots' := slots[i := Live(o.slots[i].key, p')];
    PackEndPrefix(slots, slots', i);
    assert slots'[i + 1..] == slots[i..][1..] == o.slots[i..][1..] == o.slots[i + 1..];
    forall j | 0 <= j < i
      ensures DoneSlot(o, slots', region', used', j)
    {
      assert slots'[..j] == slots[..j];
      DoneSlotFrame(o, slots, region, used, slots', region', used', j);
    }
    assert DoneSlot(o, slots', region', used', i);
  }

  lemma DoneSlotFrame(o: Obj, slots: seq<Slot>, region: seq<Cell>, used: nat,
                      slots': seq<Slot>, region': seq<Cell>, used': nat, j: nat)
    requires Valid(o) && |slots| == |slots'| == |o.slots| && j < |slots|
    requires DoneSlot(o, slots, region, used, j)
    requires slots'[j] == slots[j] && slots'[..j] == slots[..j]
    requires used <= |region| && used <= used' <= |region'| && region'[..used] == region[..used]
    ensures DoneSlot(o, slots', region', used', j)
  {
    PackEndPrefix(slots, slots', j);
    if slots[j].Live? {
      var p := slots[j].value;
      if p.value.Attached? || p.value.AttachedObj? {
        SubSlice(region, used, p.value.off, p.value.off + p.length);
        SubSlice(region', used, p.value.off, p.value.off + p.length);
      }
      SameSlice(region, used, region', used', p);
      SamePacking(region, used, region', used', p, PackEnd(slots, j));
    }
  }

  lemma DoneSkip(o: Obj, slots: seq<Slot>, region: seq<Cell>, used: nat, i: nat)
    requires Valid(o) && i < |o.slots| && !o.slots[i].Live?
    requires Done(o, slots, region, used, i)
    ensures Done(o, slots, region, used, i + 1)
  {
    assert slots[i] == slots[i..][0] == o.slots[i..][0];
    assert slots[i + 1..] == slots[i..][1..] == o.slots[i..][1..] == o.slots[i + 1..];
  }

  /** The unused buckets of a vector are skipped for free. */
  lemma {:induction false} DoneToTheEnd(o: Obj, slots: seq<Slot>, region: seq<Cell>, used: nat, i: nat)
    requires Valid(o) && Bound(o) <= i <= |o.slots| && Done(o, slots, region, used, i)
    ensures Done(o, slots, region, used, |o.slots|) && OwnsFrom(o, i) == multiset{}
    decreases |o.slots| - i
  {
    if i < |o.slots| {
      DoneSkip(o, slots, region, used, i);
      DoneToTheEnd(o, slots, region, used, i + 1);
    }
  }

  /** The value of a handled bucket, seen through the region cut to its used part. */
  lemma DoneSlotCut(o: Obj, slots: seq<Slot>, region: seq<Cell>, used: nat, j: nat)
    requires Valid(o) && |slots| == |o.slots| && j < |slots| && used <= |region|
    requires DoneSlot(o, slots, region, used, j)
    ensures DoneSlot(o, slots, region[..used], used, j)
  {
    assert region[..used][..used] == region[..used];
    DoneSlotFrame(o, slots, region, used, slots, region[..used], used, j);
  }

  lemma DoneIsValid(o: Obj, slots: seq<Slot>, region: seq<Cell>, used: nat)
    requires Valid(o) && |slots| == |o.slots| && used == |region|
    requires forall j :: 0 <= j < |slots| ==> DoneSlot(o, slots, region, used, j)
    ensures Valid(Obj(o.kind, o.inuse, o.empty, slots, used, region))
  {
    var o' := Obj(o.kind, o.inuse, o.empty, slots, used, region);
    forall j | 0 <= j < |slots|
      ensures if o.slots[j].Live? then o'.slots[j].Live? && ValidSlot(o', j) else o'.slots[j] == o.slots[j]
    {
      assert DoneSlot(o, slots, region, used, j);
    }
  }

  /** A finished pass is a valid packed object with the meaning of the original. */
  lemma DoneIsPacked(o: Obj, slots: seq<Slot>, region: seq<Cell>, used: nat)
    requires Valid(o) && Done(o, slots, region, used, |o.slots|)
    ensures var o' := Obj(o.kind, o.inuse, o.empty, slots, used, region[..used]);
            Valid(o') && Packed(o') && ObjMeaning(o') == ObjMeaning(o)
  {
    var o' := Obj(o.kind, o.inuse, o.empty, slots, used, region[..used]);
    forall j | 0 <= j < |slots| ensures DoneSlot(o, slots, o'.region, used, j) {
      DoneSlotCut(o, slots, region, used, j);
    }
    DoneIsValid(o, slots, o'.region, used);
    forall j | 0 <= j < |slots|
      ensures PackedSlot(o', j) && SlotMeaning(o', j) == SlotMeaning(o, j)
    {
      assert DoneSlot(o, slots, o'.region, used, j);
      if slots[j].Live? {
        SlotUnfolds(o', j);
        SlotUnfolds(o, j);
      }
    }
    assert ObjMeaning(o').entries == ObjMeaning(o).entries;
  }

  /**
   im_serialize_hashtable and im_serialize_vector. The result is packed, means what
   the argument meant bucket by bucket at every depth, and has the returned length;
   an object that is packed already comes back identical; and every allocation of
   the tree has been freed exactly as often as it was owned.
   */
  method SerializeObj(o: Obj, h: Heap) returns (o': Obj, length: nat, h': Heap)
    requires Valid(o)
    ensures Valid(o') && Packed(o')
    ensures ObjMeaning(o') == ObjMeaning(o)
    ensures o'.kind == o.kind && o'.inuse == o.inuse && o'.empty == o.empty
    ensures length == BlockSize(o') == HEADER + Span(o.kind, |o.slots|) + o'.used
    ensures Balanced(OwnsFrom(o, 0), h, multiset{}, h')
    ensures Packed(o) ==> o' == o
    decreases Weight(o), 2
  {
    var slots, region, used: nat := o.slots, o.region, 0;
    h' := h;
    for i := 0 to Bound(o)
      invariant Done(o, slots, region, used, i)
      invariant Balanced(OwnsFrom(o, 0), h, OwnsFrom(o, i), h')
      invariant Packed(o) ==> slots == o.slots && region == o.region
    {
      ghost var h0 := h';
      if slots[i].Live? {
        slots, region, used, h' := SerializeBucket(o, i, slots, region, used, h');
      } else {
        DoneSkip(o, slots, region, used, i);
        assert OwnsFrom(o, i) == SlotOwns(o, i) + OwnsFrom(o, i + 1) == OwnsFrom(o, i + 1);
      }
      BalancedTransitive(OwnsFrom(o, 0), h, OwnsFrom(o, i), h0, OwnsFrom(o, i + 1), h');
    }
    DoneToTheEnd(o, slots, region, used, Bound(o));
    DoneIsPacked(o, slots, region, used);
    o' := Obj(o.kind, o.inuse, o.empty, slots, used, region[..used]);
    length := HEADER + Span(o.kind, |o.slots|) + used;
  }

  /** One round of the pass: serialize a nested value, then attach the value. */
  method SerializeBucket(o: Obj, i: nat, slots: seq<Slot>, region: seq<Cell>, used: nat, h: Heap)
    returns (slots': seq<Slot>, region': seq<Cell>, used': nat, h': Heap)
    requires Valid(o) && i < |o.slots| && o.slots[i].Live?
    requires Done(o, slots, region, used, i)
    ensures Done(o, slots', region', used', i + 1)
    ensures Balanced(OwnsFrom(o, i), h, OwnsFrom(o, i + 1), h')
    ensures Packed(o) && slots == o.slots && region == o.region ==> slots' == o.slots && region' == o.region
    decreases Weight(o), 1
  {
    var buffer := o.region[..o.used];
    assert slots[i] == slots[i..][0] == o.slots[i..][0];
    var p, p';
    p, h' := PrepareBucket(o, i, buffer, h);
    ghost var h1 := h';
    region', used', p', h' := Attach(region, used, p, buffer, h');
    slots' := slots[i := Live(slots[i].key, p')];
    DoneStep(o, slots, region, used, i, p', region', used');
    if Packed(o) && slots == o.slots && region == o.region {
      assert p' == o.slots[i].value;
      assert slots' == o.slots;
    }
    assert Balanced(OwnsFrom(o, i), h, OwnsFrom(o, i + 1), h') by {
      assert OwnsFrom(o, i) == SlotOwns(o, i) + OwnsFrom(o, i + 1);
      BalancedThrough(SlotOwns(o, i), h, ValueOwns(buffer, |buffer|, p), h1, h', OwnsFrom(o, i + 1));
    }
  }

  /** The first half of a round: the value to attach, nested ones serialized. */
  method PrepareBucket(o: Obj, i: nat, buffer: seq<Cell>, h: Heap) returns (q: Payload, h': Heap)
    requires Valid(o) && i < |o.slots| && o.slots[i].Live? && buffer == o.region[..o.used]
    ensures Attachable(buffer, q)
    ensures ValidPayload(o.region, o.used, o.slots[i].value)
    ensures ValueMeaning(buffer, |buffer|, q) == ValueMeaning(o.region, o.used, o.slots[i].value)
    ensures Balanced(SlotOwns(o, i), h, ValueOwns(buffer, |buffer|, q), h')
    ensures Packed(o) ==>
              var at := StartOffset(PackEnd(o.slots, i), q.value);
              var cells := SourceCells(buffer, q);
              && AttachedForm(buffer, q, at) == o.slots[i].value
              && at + |cells| <= |o.region| && o.region[at..at + |cells|] == cells
    decreases Weight(o), 0
  {
    SlotUnfolds(o, i);
    BufferHolds(o, i);
    q, h' := o.slots[i].value, h;
    if IsNested(q.value) {
      ChildIsLighter(o, i);
      q, h' := SerializeNested(buffer, q, h');
    }
    if Packed(o) {
      StaysPut(o, i, q);
    }
  }

  /** Two operations that together release everything a owns, next to ownership they do not touch. */
  lemma BalancedThrough(a: multiset<nat>, h: Heap, b: multiset<nat>, h1: Heap, h2: Heap, rest: multiset<nat>)
    requires Balanced(a, h, b, h1) && Balanced(b, h1, multiset{}, h2)
    ensures Balanced(a + rest, h, rest, h2)
  {
    BalancedTransitive(a, h, b, h1, multiset{}, h2);
    BalancedFrame(a, h, multiset{}, h2, rest);
    assert multiset{} + rest == rest;
  }

  /** What attaching does in a packed object: the same value at the same place over the same cells. */
  lemma StaysPut(o: Obj, i: nat, q: Payload)
    requires Valid(o) && Packed(o) && i < |o.slots| && o.slots[i].Live?
    requires ValidPayload(o.region, o.used, o.slots[i].value)
    requires var p := o.slots[i].value;
             if p.value.AttachedObj?
             then q.value.ExternalObj? && q.length == BlockSize(q.value.obj)
                  && (Packed(Child(o.region, o.used, p)) ==> q.value.obj == Child(o.region, o.used, p))
             else IsNested(p.value) || q == p
    ensures InPlace(o.region[..o.used], o.used, q)
    ensures var at := StartOffset(PackEnd(o.slots, i), q.value);
            var cells := SourceCells(o.region[..o.used], q);
            && AttachedForm(o.region[..o.used], q, at) == o.slots[i].value
            && at + |cells| <= |o.region| && o.region[at..at + |cells|] == cells
  {
    PackedFacts(o, i);
    AlreadyInPlace(o.region, o.used, o.slots[i].value, q, StartOffset(PackEnd(o.slots, i), q.value));
  }

  lemma PackedFacts(o: Obj, i: nat)
    requires Valid(o) && Packed(o) && i < |o.slots| && o.slots[i].Live?
    ensures var p := o.slots[i].value;
            && o.used == |o.region| && PackEnd(o.slots, i) <= o.used
            && !p.value.External? && !p.value.ExternalObj?
            && (p.value.Attached? ==> p.length > INLINE_SIZE)
            && (p.value.Attached? || p.value.AttachedObj? ==> p.value.off == StartOffset(PackEnd(o.slots, i), p.value))
            && (p.value.AttachedObj? ==> ValidPayload(o.region, o.used, p) && Packed(Child(o.region, o.used, p)))
  {
    assert PackedSlot(o, i);
    SlotUnfolds(o, i);
    PackEndMonotone(o.slots, i, |o.slots|);
  }

  /** A value of a packed region, copied out or not, is attached back to where it is. */
  lemma AlreadyInPlace(region: seq<Cell>, used: nat, p: Payload, q: Payload, at: nat)
    requires ValidPayload(region, used, p) && used == |region|
    requires !p.value.External? && !p.value.ExternalObj?
    requires p.value.Attached? ==> p.length > INLINE_SIZE
    requires if p.value.Attached? || p.value.AttachedObj? then at == p.value.off else at <= used
    requires if p.value.AttachedObj?
             then q.value.ExternalObj? && q.value.obj == Child(region, used, p) && q.length == BlockSize(q.value.obj)
             else q == p
    ensures InPlace(region[..used], used, q)
    ensures var cells := SourceCells(region[..used], q);
            && AttachedForm(region[..used], q, at) == p
            && at + |cells| <= |region| && region[at..at + |cells|] == cells
  {
    assert region[..used] == region;
    if p.value.AttachedObj? {
      EncodeOfDecode(p.value.kind, region[p.value.off..p.value.off + p.length]);
    }
  }

  lemma BufferHolds(o: Obj, i: nat)
    requires Valid(o) && i < |o.slots| && o.slots[i].Live?
    ensures var p := o.slots[i].value; var buffer := o.region[..o.used];
            && ValidPayload(o.region, o.used, p) && ValidPayload(buffer, |buffer|, p)
            && ValueMeaning(buffer, |buffer|, p) == ValueMeaning(o.region, o.used, p)
            && ValueOwns(buffer, |buffer|, p) == ValueOwns(o.region, o.used, p)
            && (IsNested(p.value) ==> Child(buffer, |buffer|, p) == Child(o.region, o.used, p))
  {
    SlotUnfolds(o, i);
    var p := o.slots[i].value;
    if p.value.Attached? || p.value.AttachedObj? {
      SubSlice(o.region, o.used, p.value.off, p.value.off + p.length);
    }
    SameSlice(o.region, o.used, o.region[..o.used], o.used, p);
  }

  /**
   serialize_bucket: an attached child is copied out to an allocation of its own
   first; then the child is serialized where it is.
   */
  method SerializeNested(buffer: seq<Cell>, p: Payload, h: Heap) returns (p': Payload, h': Heap)
    requires ValidPayload(buffer, |buffer|, p) && IsNested(p.value)
    ensures p'.value.ExternalObj? && Attachable(buffer, p')
    ensures p'.value.obj.kind == Child(buffer, |buffer|, p).kind
    ensures ValueMeaning(buffer, |buffer|, p') == ValueMeaning(buffer, |buffer|, p)
    ensures Balanced(ValueOwns(buffer, |buffer|, p), h, ValueOwns(buffer, |buffer|, p'), h')
    ensures Packed(Child(buffer, |buffer|, p)) ==> p'.value.obj == Child(buffer, |buffer|, p)
    decreases Weight(Child(buffer, |buffer|, p)), 3
  {
    var id, child;
    id, child, h' := CopyOut(buffer, p, h);
    ghost var h1 := h';
    var child', length;
    child', length, h' := SerializeObj(child, h');
    p' := Payload(length, ExternalObj(id, child'));
    PackedOwnsNothingFrom(child', 0);
    NestedBalance(ValueOwns(buffer, |buffer|, p), h, id, OwnsFrom(child, 0), h1, h');
    assert ValueOwns(buffer, |buffer|, p') == multiset{id};
  }

  /** The allocation of a nested value; an attached one is copied to a new allocation first. */
  method CopyOut(buffer: seq<Cell>, p: Payload, h: Heap) returns (id: nat, child: Obj, h': Heap)
    requires ValidPayload(buffer, |buffer|, p) && IsNested(p.value)
    ensures child == Child(buffer, |buffer|, p)
    ensures Balanced(ValueOwns(buffer, |buffer|, p), h, multiset{id} + OwnsFrom(child, 0), h')
  {
    h' := h;
    if p.value.AttachedObj? {
      id, child := h'.next, Decode(p.value.kind, buffer[p.value.off..p.value.off + p.length]);
      h' := h'.(next := h'.next + 1);
      BalancedAlloc(OwnsFrom(child, 0), h);
      assert OwnsFrom(child, 0) + multiset{id} == multiset{id} + OwnsFrom(child, 0);
    } else {
      id, child := p.value.id, p.value.obj;
    }
  }

  lemma NestedBalance(own: multiset<nat>, h: Heap, id: nat, childOwn: multiset<nat>, h1: Heap, h2: Heap)
    requires Balanced(own, h, multiset{id} + childOwn, h1)
    requires Balanced(childOwn, h1, multiset{}, h2)
    ensures Balanced(own, h, multiset{id}, h2)
  {
    BalancedFrame(childOwn, h1, multiset{}, h2, multiset{id});
    assert childOwn + multiset{id} == multiset{id} + childOwn;
    assert multiset{} + multiset{id} == multiset{id};
    BalancedTransitive(own, h, multiset{id} + childOwn, h1, multiset{id}, h2);
  }
}
