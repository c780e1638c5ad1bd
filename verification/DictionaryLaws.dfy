/**
 What a caller of the dictionary can rely on, in terms of keys, values and sizes alone: which keys
 are the same key, which values are accepted, and that reading finds the last thing written.
 */
module DictionaryLaws {
  import opened Primes
  import opened ProbeTable
  import opened Store
  import opened Serialize
  import opened Dictionary

  // ---- Keys ----

  function CharAt(s: string, i: nat): Option<char> {
    if i < |s| then Some(s[i]) else None
  }

  /** Two keys that cannot be told apart: they agree on their first 102 characters. */
  predicate SameKey(a: string, b: string) {
    forall i :: 0 <= i < 102 ==> CharAt(a, i) == CharAt(b, i)
  }

  lemma ShortKeysAreKept(key: string)
    requires |key| <= 102
    ensures Clip(key) == key
  {
  }

  lemma ClipKeepsHead(key: string)
    ensures |Clip(key)| <= 102
    ensures forall i :: 0 <= i < 102 ==> CharAt(Clip(key), i) == CharAt(key, i)
  {
  }

  lemma SameTexts(a: string, b: string)
    requires |a| <= 102 && |b| <= 102 && SameKey(a, b)
    ensures a == b
  {
    var n := if |a| < |b| then |a| else |b|;
    assert n < 102 ==> CharAt(a, n) == CharAt(b, n);
    forall i | 0 <= i < |a| ensures a[i] == b[i] {
      assert CharAt(a, i) == CharAt(b, i);
    }
  }

  /** The dictionary takes two keys for one exactly when they agree on their first 102 characters. */
  lemma ClipTells(a: string, b: string)
    ensures Clip(a) == Clip(b) <==> SameKey(a, b)
  {
    ClipKeepsHead(a);
    ClipKeepsHead(b);
    if SameKey(a, b) {
      SameTexts(Clip(a), Clip(b));
    }
  }

  // ---- Values ----

  /** Numbers always; data and the used part of a nested block up to a mebibyte. */
  predicate Fits(item: Item) {
    item.NumberItem? || LengthOf(item) <= 1048576
  }

  /** What a value takes: an int four bytes, data its own length, a nested block all but the unused region. */
  function LengthOf(item: Item): int {
    match item
    case NumberItem(_) => 4
    case BytesItem(_, bytes) => |bytes|
    case NestedItem(_, obj) => |Encode(obj)| - |obj.region| + obj.used
  }

  lemma LengthIs(item: Item)
    ensures ItemLength(item) == LengthOf(item)
  {
  }

  lemma AcceptedIffFits(item: Item)
    ensures Accepted(item) <==> Fits(item)
  {
  }

  ghost function Lookup(m: map<string, Meaning>, key: string): Option<Meaning> {
    if Clip(key) in m then Some(m[Clip(key)]) else None
  }

  lemma LookupAfterSet(m: map<string, Meaning>, key: string, item: Item, other: string)
    requires ValidItem(item)
    ensures var m' := if Accepted(item) then m[Clip(key) := ItemMeaning(item)] else m - {Clip(key)};
            Lookup(m', other) == if !SameKey(key, other) then Lookup(m, other)
                                 else if Fits(item) then Some(ItemMeaning(item)) else None
  {
    ClipTells(key, other);
    AcceptedIffFits(item);
  }

  /** Set, then read any key: the value if it is the same key, what was there before if not. */
  method SetThenGet(d: Dict, key: string, item: Item, other: string)
    returns (before: Option<Meaning>, result: int, after: Option<Meaning>)
    requires d.Valid() && d.table.HasRoom() && ValidItem(item)
    modifies d, d.table, d.table.buckets
    ensures d.Valid()
    ensures result >= 0 <==> Fits(item)
    ensures before == Lookup(old(d.View()), other)
    ensures after == if !SameKey(key, other) then before else if Fits(item) then Some(ItemMeaning(item)) else None
  {
    LookupAfterSet(d.View(), key, item, other);
    AcceptedIffFits(item);
    before := d.Get(other);
    result := d.Set(key, item);
    after := d.Get(other);
  }

  /** A nested handle that fits is handed out again under its key and its kind, with the meaning it had. */
  method SetThenGetNested(d: Dict, key: string, id: nat, obj: Obj, kind: Kind) returns (r: Option<Obj>)
    requires d.Valid() && d.table.HasRoom() && Valid(obj)
    modifies d, d.table, d.table.buckets
    ensures d.Valid()
    ensures r.Some? <==> Fits(NestedItem(id, obj)) && kind == obj.kind
    ensures r.Some? ==> Valid(r.value) && ObjMeaning(r.value) == ObjMeaning(obj)
  {
    var item := NestedItem(id, obj);
    AcceptedIffFits(item);
    var result := d.Set(key, item);
    r := d.GetNested(key, kind);
  }

  // ---- Whole runs ----

  /** The operation says something about the key: it sets or deletes it, or clears everything. */
  predicate Touches(op: Op, key: string) {
    match op
    case SetOp(k, _) => SameKey(k, key)
    case DeleteOp(k) => SameKey(k, key)
    case ClearOp => true
    case SerializeOp => false
    case GetOp(_) => false
  }

  /** The operation stores v under the key. */
  ghost predicate Writes(op: Op, key: string, v: Meaning)
    requires op.SetOp? ==> ValidItem(op.item)
  {
    op.SetOp? && SameKey(op.key, key) && Fits(op.item) && ItemMeaning(op.item) == v
  }

  /** Some operation stored v under the key, and none after it touched the key. */
  ghost predicate LastWritten(ops: seq<Op>, key: string, v: Meaning)
    requires ValidOps(ops)
  {
    exists i :: 0 <= i < |ops| && WrittenAt(ops, i, key, v)
  }

  ghost predicate WrittenAt(ops: seq<Op>, i: nat, key: string, v: Meaning)
    requires ValidOps(ops) && i < |ops|
  {
    Writes(ops[i], key, v) && forall j :: i < j < |ops| ==> !Touches(ops[j], key)
  }

  ghost predicate Holds(m: map<string, Meaning>, key: string, v: Meaning) {
    Clip(key) in m && m[Clip(key)] == v
  }

  lemma StepHolds(m: map<string, Meaning>, op: Op, key: string, v: Meaning)
    requires op.SetOp? ==> ValidItem(op.item)
    ensures Holds(ModelStep(m, op).0, key, v) <==> Writes(op, key, v) || (!Touches(op, key) && Holds(m, key, v))
  {
    if op.SetOp? {
      ClipTells(op.key, key);
      AcceptedIffFits(op.item);
    } else if op.DeleteOp? {
      ClipTells(op.key, key);
    }
  }

  lemma LastWrittenStep(ops: seq<Op>, key: string, v: Meaning)
    requires ValidOps(ops) && ops != []
    ensures var n := |ops| - 1;
            LastWritten(ops, key, v) <==>
            Writes(ops[n], key, v) || (!Touches(ops[n], key) && LastWritten(ops[..n], key, v))
  {
    var n := |ops| - 1;
    var before := ops[..n];
    if LastWritten(ops, key, v) {
      var i :| 0 <= i < |ops| && WrittenAt(ops, i, key, v);
      if i < n {
        assert WrittenAt(before, i, key, v);
      }
    }
    if Writes(ops[n], key, v) {
      assert WrittenAt(ops, n, key, v);
    }
    if !Touches(ops[n], key) && LastWritten(before, key, v) {
      var i :| 0 <= i < |before| && WrittenAt(before, i, key, v);
      forall j | i < j < |ops| ensures !Touches(ops[j], key) {
        assert j < n ==> before[j] == ops[j];
      }
      assert WrittenAt(ops, i, key, v);
    }
  }

  lemma {:induction false} ModelReadsLastWrite(ops: seq<Op>, key: string, v: Meaning)
    requires ValidOps(ops)
    ensures Holds(ModelRun(map[], ops).0, key, v) <==> LastWritten(ops, key, v)
  {
    if ops != [] {
      var n := |ops| - 1;
      ModelReadsLastWrite(ops[..n], key, v);
      StepHolds(ModelRun(map[], ops[..n]).0, ops[n], key, v);
      LastWrittenStep(ops, key, v);
    }
  }

  /** After any run on a new dictionary, reading a key finds what was last stored under it and not touched since. */
  method RunThenGet(hash: string -> nat, primes: seq<nat>, capacity: nat, h: Heap, ops: seq<Op>, key: string)
    returns (r: Option<Meaning>)
    requires PrimeTable(primes) && ValidOps(ops) && RoomThroughout(primes, map[], ops)
    ensures forall v :: r == Some(v) <==> LastWritten(ops, key, v)
  {
    var d := new Dict(hash, primes, capacity, h);
    var outcomes := Run(d, ops);
    r := d.Get(key);
    forall v ensures r == Some(v) <==> LastWritten(ops, key, v) {
      ModelReadsLastWrite(ops, key, v);
    }
  }

  // ---- Sizes ----

  /** The sizes of the structures on x86-64. */
  lemma BlockSizes(o: Obj)
    ensures |Encode(o)| == 32 + (if o.kind.Hash? then 128 else 32) * |o.slots| + |o.region|
  {
  }

  /** In a packed object data of up to 16 bytes is in its bucket and longer data in the region. */
  lemma PackedDataForm(o: Obj, i: nat)
    requires Valid(o) && Packed(o) && i < |o.slots| && o.slots[i].Live?
    requires SlotMeaning(o, i).value.Data?
    ensures var p := o.slots[i].value;
            && |SlotMeaning(o, i).value.bytes| == p.length
            && (if p.length <= 16 then p.value.Inline? else p.value.Attached?)
  {
    SlotUnfolds(o, i);
    assert PackedSlot(o, i);
  }
}
