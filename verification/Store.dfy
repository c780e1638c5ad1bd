/**
 The memory layout of dictionaries and vectors.

 A table object is a header, a bucket array and a trailing region of raw cells. A
 bucket's value is inline, in an allocation of its own, or attached: an offset into
 the trailing region. Dictionaries and vectors nest through either of the last two
 forms, so an attached child is nothing but cells until it is decoded.

 One cell stands for one byte. A structure occupies its full size: one cell with its
 fields, then continuation cells, so that offsets and lengths are those of the C layout.
 */
module Store {
  import opened ProbeTable

  newtype Octet = b: int | 0 <= b < 256

  datatype Kind = Hash | Vec

  /** A string and a block have the same life; only the tag differs. */
  datatype Tag = Str | Blk

  /** Dangling is a pointer whose allocation is not there; no valid object has one. */
  datatype Value =
    | Scalar(n: int)
    | Inline(tag: Tag, bytes: seq<Octet>)
    | External(tag: Tag, id: nat, bytes: seq<Octet>)
    | ExternalObj(id: nat, obj: Obj)
    | Attached(tag: Tag, off: nat)
    | AttachedObj(kind: Kind, off: nat)
    | Dangling

  datatype Payload = Payload(length: nat, value: Value)

  /** Vector buckets have no key; they use the empty string. */
  type Slot = Bucket<string, Payload>

  /** number_of_buckets is |slots|, attached_size is |region|, attached_offset is used. */
  datatype Obj = Obj(kind: Kind, inuse: nat, empty: nat, slots: seq<Slot>, used: nat, region: seq<Cell>)

  datatype Cell =
    | Byte(b: Octet)
    | Head(kind: Kind, count: nat, inuse: nat, empty: nat, size: nat, used: nat)
    | Entry(slot: Slot)
    | Cont
    | Junk

  const HEADER: nat := 32
  const INLINE_SIZE: nat := 16
  const GROWTH: nat := 8192

  /** The size of n buckets. */
  function Span(kind: Kind, n: nat): nat {
    if kind.Hash? then 128 * n else 32 * n
  }

  function BucketSize(kind: Kind): nat {
    if kind.Hash? then 128 else 32
  }

  function BlockSize(o: Obj): nat {
    HEADER + Span(o.kind, |o.slots|) + |o.region|
  }

  // ---- Raw cells of an object, and back ----

  function Conts(n: nat): seq<Cell> {
    seq(n, _ => Cont)
  }

  function EncodeSlot(kind: Kind, s: Slot): (cells: seq<Cell>)
    ensures |cells| == BucketSize(kind)
    ensures cells[0] == Entry(s) && cells[1..] == Conts(BucketSize(kind) - 1)
  {
    [Entry(s)] + Conts(BucketSize(kind) - 1)
  }

  function EncodeSlots(kind: Kind, slots: seq<Slot>): (cells: seq<Cell>)
    ensures |cells| == Span(kind, |slots|)
  {
    if slots == [] then []
    else EncodeSlot(kind, slots[0]) + EncodeSlots(kind, slots[1..])
  }

  function Encode(o: Obj): (cells: seq<Cell>)
    ensures |cells| == BlockSize(o)
  {
    [Head(o.kind, |o.slots|, o.inuse, o.empty, |o.region|, o.used)] + Conts(HEADER - 1)
    + EncodeSlots(o.kind, o.slots) + o.region
  }

  predicate IsSlots(kind: Kind, n: nat, cells: seq<Cell>) {
    n == 0 ||
    (&& |cells| >= BucketSize(kind)
     && cells[0].Entry?
     && cells[1..BucketSize(kind)] == Conts(BucketSize(kind) - 1)
     && IsSlots(kind, n - 1, cells[BucketSize(kind)..]))
  }

  /** The cells are exactly one object of the given kind. */
  predicate IsBlock(kind: Kind, cells: seq<Cell>) {
    && |cells| >= HEADER
    && cells[0].Head? && cells[0].kind == kind
    && cells[1..HEADER] == Conts(HEADER - 1)
    && |cells| == HEADER + Span(kind, cells[0].count) + cells[0].size
    && IsSlots(kind, cells[0].count, cells[HEADER..])
  }

  function DecodeSlots(kind: Kind, n: nat, cells: seq<Cell>): (slots: seq<Slot>)
    requires IsSlots(kind, n, cells)
    ensures |slots| == n
  {
    if n == 0 then []
    else [cells[0].slot] + DecodeSlots(kind, n - 1, cells[BucketSize(kind)..])
  }

  function Decode(kind: Kind, cells: seq<Cell>): (o: Obj)
    requires IsBlock(kind, cells)
    ensures o.kind == kind && BlockSize(o) == |cells|
  {
    var h := cells[0];
    Obj(kind, h.inuse, h.empty, DecodeSlots(kind, h.count, cells[HEADER..]), h.used,
        cells[HEADER + Span(kind, h.count)..])
  }

  lemma HeadAndTail(head: seq<Cell>, tail: seq<Cell>)
    requires |head| >= 1
    ensures (head + tail)[0] == head[0]
    ensures (head + tail)[1..|head|] == head[1..]
    ensures (head + tail)[|head|..] == tail
  {
  }

  /** One bucket in front of others. */
  lemma FirstSlot(kind: Kind, s: Slot, n: nat, tail: seq<Cell>)
    requires IsSlots(kind, n, tail)
    ensures var cells := EncodeSlot(kind, s) + tail;
            IsSlots(kind, n + 1, cells) && DecodeSlots(kind, n + 1, cells) == [s] + DecodeSlots(kind, n, tail)
  {
    HeadAndTail(EncodeSlot(kind, s), tail);
  }

  lemma Regroup(a: seq<Cell>, b: seq<Cell>, c: seq<Cell>)
    ensures (a + b) + c == a + (b + c)
  {
  }

  lemma {:induction false} SlotsRoundTrip(kind: Kind, slots: seq<Slot>, rest: seq<Cell>)
    ensures IsSlots(kind, |slots|, EncodeSlots(kind, slots) + rest)
    ensures DecodeSlots(kind, |slots|, EncodeSlots(kind, slots) + rest) == slots
  {
    if slots != [] {
      var first, others := slots[0], slots[1..];
      SlotsRoundTrip(kind, others, rest);
      FirstSlot(kind, first, |others|, EncodeSlots(kind, others) + rest);
      Regroup(EncodeSlot(kind, first), EncodeSlots(kind, others), rest);
      assert slots == [first] + others;
    }
  }

  /** Copying an object's cells and reading them back gives the same object. */
  lemma DecodeOfEncode(o: Obj)
    ensures IsBlock(o.kind, Encode(o)) && Decode(o.kind, Encode(o)) == o
  {
    var cells := Encode(o);
    var body := EncodeSlots(o.kind, o.slots);
    assert cells[1..HEADER] == Conts(HEADER - 1);
    assert cells[HEADER..] == body + o.region;
    SlotsRoundTrip(o.kind, o.slots, o.region);
    assert cells[HEADER + Span(o.kind, |o.slots|)..] == o.region;
  }

  /** The first bucket of some and the rest of them. */
  lemma SlotsUnfold(kind: Kind, n: nat, cells: seq<Cell>)
    requires n > 0 && IsSlots(kind, n, cells)
    ensures var b, slots := BucketSize(kind), DecodeSlots(kind, n, cells);
            && b <= |cells| && IsSlots(kind, n - 1, cells[b..])
            && slots[0] == cells[0].slot && slots[1..] == DecodeSlots(kind, n - 1, cells[b..])
  {
  }

  lemma SlotCells(kind: Kind, cells: seq<Cell>)
    requires IsSlots(kind, 1, cells)
    ensures EncodeSlot(kind, cells[0].slot) == cells[..BucketSize(kind)]
  {
    var b := BucketSize(kind);
    assert cells[..b] == [cells[0]] + cells[1..b];
  }

  lemma {:induction false} CellsRoundTrip(kind: Kind, n: nat, cells: seq<Cell>)
    requires IsSlots(kind, n, cells)
    ensures Span(kind, n) <= |cells|
    ensures EncodeSlots(kind, DecodeSlots(kind, n, cells)) == cells[..Span(kind, n)]
  {
    if n > 0 {
      var b := BucketSize(kind);
      SlotsUnfold(kind, n, cells);
      SlotCells(kind, cells);
      CellsRoundTrip(kind, n - 1, cells[b..]);
      EncodeUnfolds(kind, DecodeSlots(kind, n, cells));
      Rejoin(cells, b, Span(kind, n - 1));
    }
  }

  lemma EncodeUnfolds(kind: Kind, slots: seq<Slot>)
    requires slots != []
    ensures EncodeSlots(kind, slots) == EncodeSlot(kind, slots[0]) + EncodeSlots(kind, slots[1..])
  {
  }

  lemma Rejoin(cells: seq<Cell>, a: nat, b: nat)
    requires a + b <= |cells|
    ensures cells[..a + b] == cells[..a] + cells[a..][..b]
  {
  }

  lemma EncodeOfDecode(kind: Kind, cells: seq<Cell>)
    requires IsBlock(kind, cells)
    ensures Encode(Decode(kind, cells)) == cells
  {
    var n := cells[0].count;
    CellsRoundTrip(kind, n, cells[HEADER..]);
    assert cells == [cells[0]] + cells[1..HEADER] + cells[HEADER..][..Span(kind, n)] + cells[HEADER + Span(kind, n)..];
  }

  // ---- Nesting depth as a measure: a decoded child weighs no more than its cells ----

  ghost function Weight(o: Obj): nat
    decreases o
  {
    1 + SlotsWeight(o.slots) + CellsWeight(o.region)
  }

  ghost function SlotWeight(s: Slot): nat
    decreases s
  {
    if s.Live? && s.value.value.ExternalObj? then 1 + Weight(s.value.value.obj) else 1
  }

  ghost function SlotsWeight(slots: seq<Slot>): nat
    decreases slots
  {
    if slots == [] then 0 else SlotWeight(slots[0]) + SlotsWeight(slots[1..])
  }

  ghost function CellWeight(c: Cell): nat
    decreases c
  {
    if c.Entry? then 1 + SlotWeight(c.slot) else 1
  }

  ghost function CellsWeight(cells: seq<Cell>): nat
    decreases cells
  {
    if cells == [] then 0 else CellWeight(cells[0]) + CellsWeight(cells[1..])
  }

  lemma {:induction false} CellsWeightSplit(cells: seq<Cell>, n: nat)
    requires n <= |cells|
    ensures CellsWeight(cells) == CellsWeight(cells[..n]) + CellsWeight(cells[n..])
  {
    if n > 0 {
      CellsWeightSplit(cells[1..], n - 1);
      assert cells[1..][..n - 1] == cells[..n][1..];
      assert cells[1..][n - 1..] == cells[n..];
    } else {
      assert cells[n..] == cells;
    }
  }

  lemma SliceWeight(cells: seq<Cell>, a: nat, b: nat)
    requires a <= b <= |cells|
    ensures CellsWeight(cells[a..b]) <= CellsWeight(cells)
  {
    CellsWeightSplit(cells, b);
    CellsWeightSplit(cells[..b], a);
    assert cells[..b][a..] == cells[a..b];
  }

  lemma FirstCellWeight(cells: seq<Cell>, n: nat)
    requires 1 <= n <= |cells|
    ensures CellWeight(cells[0]) + CellsWeight(cells[n..]) <= CellsWeight(cells)
  {
    CellsWeightSplit(cells, n);
    assert cells[..n][0] == cells[0];
  }

  lemma FirstSlotWeight(slots: seq<Slot>)
    requires slots != []
    ensures SlotsWeight(slots) == SlotWeight(slots[0]) + SlotsWeight(slots[1..])
  {
  }

  lemma {:induction false} DecodeSlotsWeight(kind: Kind, n: nat, cells: seq<Cell>)
    requires IsSlots(kind, n, cells)
    ensures Span(kind, n) <= |cells|
    ensures SlotsWeight(DecodeSlots(kind, n, cells)) + CellsWeight(cells[Span(kind, n)..]) <= CellsWeight(cells)
  {
    if n > 0 {
      var b := BucketSize(kind);
      SlotsUnfold(kind, n, cells);
      DecodeSlotsWeight(kind, n - 1, cells[b..]);
      FirstSlotWeight(DecodeSlots(kind, n, cells));
      FirstCellWeight(cells, b);
      assert cells[b..][Span(kind, n - 1)..] == cells[Span(kind, n)..];
    } else {
      assert cells[Span(kind, n)..] == cells;
    }
  }

  lemma DecodeWeight(kind: Kind, cells: seq<Cell>)
    requires IsBlock(kind, cells)
    ensures Weight(Decode(kind, cells)) <= CellsWeight(cells)
  {
    var n := cells[0].count;
    DecodeSlotsWeight(kind, n, cells[HEADER..]);
    FirstCellWeight(cells, HEADER);
    assert cells[HEADER..][Span(kind, n)..] == cells[HEADER + Span(kind, n)..];
  }

  lemma {:induction false} SlotInSlots(slots: seq<Slot>, i: nat)
    requires i < |slots|
    ensures SlotWeight(slots[i]) <= SlotsWeight(slots)
  {
    if i > 0 {
      SlotInSlots(slots[1..], i - 1);
    }
  }

  // ---- What a bucket's value is, given the region it may point into ----

  predicate IsNested(v: Value) {
    v.ExternalObj? || v.AttachedObj?
  }

  /** The value's own bytes are where it says they are, inside the used part of the region. */
  predicate InPlace(region: seq<Cell>, used: nat, p: Payload) {
    && used <= |region|
    && match p.value
       case Scalar(_) => true
       case Inline(_, bytes) => |bytes| == p.length <= INLINE_SIZE
       case External(_, _, bytes) => |bytes| == p.length
       case ExternalObj(_, _) => true
       case Attached(_, off) =>
         off + p.length <= used && IsBytes(region[off..off + p.length])
       case AttachedObj(kind, off) =>
         off + p.length <= used && IsBlock(kind, region[off..off + p.length])
       case Dangling => false
  }

  predicate IsBytes(cells: seq<Cell>) {
    forall i :: 0 <= i < |cells| ==> cells[i].Byte?
  }

  function ToBytes(cells: seq<Cell>): (bytes: seq<Octet>)
    requires IsBytes(cells)
    ensures |bytes| == |cells|
  {
    seq(|cells|, i requires 0 <= i < |cells| => cells[i].b)
  }

  function FromBytes(bytes: seq<Octet>): (cells: seq<Cell>)
    ensures IsBytes(cells) && ToBytes(cells) == bytes
  {
    seq(|bytes|, i requires 0 <= i < |bytes| => Byte(bytes[i]))
  }

  /** The nested object of a bucket: the allocation it owns, or the decoded slice of the region. */
  function Child(region: seq<Cell>, used: nat, p: Payload): Obj
    requires InPlace(region, used, p) && IsNested(p.value)
  {
    match p.value
    case ExternalObj(_, obj) => obj
    case AttachedObj(kind, off) => Decode(kind, region[off..off + p.length])
  }

  lemma ChildIsLighter(o: Obj, i: nat)
    requires i < |o.slots| && o.slots[i].Live?
    requires InPlace(o.region, o.used, o.slots[i].value) && IsNested(o.slots[i].value.value)
    ensures Weight(Child(o.region, o.used, o.slots[i].value)) < Weight(o)
  {
    if o.slots[i].value.value.AttachedObj? {
      AttachedIsLighter(o.region, o.used, o.slots[i].value);
    } else {
      SlotInSlots(o.slots, i);
    }
  }

  lemma AttachedIsLighter(region: seq<Cell>, used: nat, p: Payload)
    requires InPlace(region, used, p) && p.value.AttachedObj?
    ensures Weight(Child(region, used, p)) <= CellsWeight(region)
  {
    DecodeWeight(p.value.kind, region[p.value.off..p.value.off + p.length]);
    SliceWeight(region, p.value.off, p.value.off + p.length);
  }

  /** How many buckets a pass over the object visits: all of a table, the used ones of a vector. */
  function Bound(o: Obj): nat {
    if o.kind.Hash? then |o.slots| else o.inuse
  }

  /** An object whose every live value, at every depth, is where its bucket says. */
  ghost predicate Valid(o: Obj)
    decreases Weight(o), 1
  {
    && o.used <= |o.region|
    && (o.kind.Vec? ==>
          && o.inuse <= |o.slots|
          && forall i :: 0 <= i < |o.slots| ==> if i < o.inuse then o.slots[i].Live? else o.slots[i] == Empty)
    && forall i :: 0 <= i < |o.slots| && o.slots[i].Live? ==> ValidSlot(o, i)
  }

  ghost predicate ValidSlot(o: Obj, i: nat)
    requires i < |o.slots| && o.slots[i].Live?
    decreases Weight(o), 0
  {
    var p := o.slots[i].value;
    && InPlace(o.region, o.used, p)
    && if IsNested(p.value) then
         ChildIsLighter(o, i);
         Valid(Child(o.region, o.used, p))
       else true
  }

  ghost predicate ValidPayload(region: seq<Cell>, used: nat, p: Payload) {
    InPlace(region, used, p) && (IsNested(p.value) ==> Valid(Child(region, used, p)))
  }

  // ---- Meaning ----

  /** What a user of the library can observe of a value: no offsets, no allocations. */
  datatype Meaning =
    | Number(n: int)
    | Data(tag: Tag, bytes: seq<Octet>)
    | Tree(kind: Kind, entries: seq<Bucket<string, Meaning>>)

  ghost function Load(region: seq<Cell>, used: nat, p: Payload): nat
    requires InPlace(region, used, p)
  {
    if IsNested(p.value) then Weight(Child(region, used, p)) else 0
  }

  function ValueMeaning(region: seq<Cell>, used: nat, p: Payload): Meaning
    requires ValidPayload(region, used, p)
    decreases Load(region, used, p), 2
  {
    match p.value
    case Scalar(n) => Number(n)
    case Inline(tag, bytes) => Data(tag, bytes)
    case External(tag, _, bytes) => Data(tag, bytes)
    case Attached(tag, off) => Data(tag, ToBytes(region[off..off + p.length]))
    case _ => ObjMeaning(Child(region, used, p))
  }

  function SlotMeaning(o: Obj, i: nat): Bucket<string, Meaning>
    requires Valid(o) && i < |o.slots|
    decreases Weight(o), 0
  {
    match o.slots[i]
    case Empty => Empty
    case Deleted(key) => Deleted(key)
    case Live(key, p) =>
      assert ValidSlot(o, i);
      if IsNested(p.value) then
        ChildIsLighter(o, i);
        Live(key, ValueMeaning(o.region, o.used, p))
      else Live(key, ValueMeaning(o.region, o.used, p))
  }

  /** The observable tree of an object: every bucket's status and key, and its value's meaning. */
  function ObjMeaning(o: Obj): (m: Meaning)
    requires Valid(o)
    ensures m.Tree? && m.kind == o.kind && |m.entries| == |o.slots|
    decreases Weight(o), 1
  {
    Tree(o.kind, seq(|o.slots|, i requires 0 <= i < |o.slots| => SlotMeaning(o, i)))
  }

  // ---- Ownership of allocations ----

  ghost function ValueOwns(region: seq<Cell>, used: nat, p: Payload): multiset<nat>
    requires ValidPayload(region, used, p)
    decreases Load(region, used, p), 2
  {
    match p.value
    case External(_, id, _) => multiset{id}
    case ExternalObj(id, obj) => multiset{id} + OwnsFrom(obj, 0)
    case AttachedObj(_, _) => OwnsFrom(Child(region, used, p), 0)
    case _ => multiset{}
  }

  ghost function SlotOwns(o: Obj, i: nat): multiset<nat>
    requires Valid(o) && i < |o.slots|
    decreases Weight(o), 0
  {
    if !o.slots[i].Live? then multiset{}
    else
    assert ValidSlot(o, i);
    if IsNested(o.slots[i].value.value) then
      ChildIsLighter(o, i);
      ValueOwns(o.region, o.used, o.slots[i].value)
    else ValueOwns(o.region, o.used, o.slots[i].value)
  }

  /** The allocations reachable from buckets i and up, each as often as it is reachable. */
  ghost function OwnsFrom(o: Obj, i: nat): multiset<nat>
    requires Valid(o) && i <= |o.slots|
    decreases Weight(o), 1, |o.slots| - i
  {
    if i == |o.slots| then multiset{} else SlotOwns(o, i) + OwnsFrom(o, i + 1)
  }
}
