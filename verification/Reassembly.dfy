/**
 Reassembly of fragmented responses: fragments arrive in any order, interleaved with
 those of other messages, and are joined when the last missing one comes in.

 The fragment store is the probe table, keyed by reference id.
 */
module Reassembly {
  import opened Primes
  import opened ProbeTable

  const SLOTS: nat := 64
  const PAGE: nat := 16384

  /** Protocol header, BANCS header and two bytes before the body. */
  const PREFIX: nat := 129

  // ---- Fields of a fragment ----

  predicate IsSpace(c: char) {
    c == ' ' || c == '\t' || c == '\n' || c == '\r' || c == '\U{0B}' || c == '\U{0C}'
  }

  function Digits(s: string, acc: nat): nat {
    if s == [] || !('0' <= s[0] <= '9') then acc
    else Digits(s[1..], 10 * acc + (s[0] as nat - '0' as nat))
  }

  /** atoi: leading blanks, an optional sign, then digits up to the first other character. */
  function Atoi(s: string): int {
    if s == [] then 0
    else if IsSpace(s[0]) then Atoi(s[1..])
    else if s[0] == '-' then 0 - (Digits(s[1..], 0) as int)
    else if s[0] == '+' then Digits(s[1..], 0)
    else Digits(s, 0)
  }

  /** A character array up to its terminator. */
  function CString(s: string): string {
    if s == [] || s[0] == '\0' then [] else [s[0]] + CString(s[1..])
  }

  function RefId(m: string): string
    requires |m| >= PREFIX
  {
    CString(m[42..47]) + CString(m[13..25])
  }

  function Sequence(m: string): int
    requires |m| >= PREFIX
  {
    Atoi(m[29..33])
  }

  function Flag(m: string): char
    requires |m| >= PREFIX
  {
    m[83]
  }

  function MessageLength(m: string): int
    requires |m| >= PREFIX
  {
    Atoi(m[1..5])
  }

  function BodyLength(m: string): int
    requires |m| >= PREFIX
  {
    Atoi(m[9..13])
  }

  function TransactionCode(m: string): string
    requires |m| >= PREFIX
  {
    CString(m[57..63])
  }

  /**
   What the code relies on when it reads a fragment: a whole header, a sequence number that
   is a slot, a body that is there, and a message length that covers the body. The first
   fragment of an item list (code 039001) has the 19 bytes that precede the items.
   */
  predicate Readable(m: string) {
    && |m| >= PREFIX
    && 1 <= Sequence(m) <= SLOTS
    && 0 <= BodyLength(m) <= MessageLength(m)
    && PREFIX + BodyLength(m) <= |m|
    && (TransactionCode(m) == ITEM_LIST && Sequence(m) == 1 ==> BodyLength(m) >= 19)
  }

  const ITEM_LIST: string := "039001"

  /** A fragment with its fields read off. */
  datatype Record = Record(refid: string, sequence: nat, flag: char, code: string, head: string, body: string,
                           length: nat)

  predicate Usable(r: Record) {
    && 1 <= r.sequence <= SLOTS
    && |r.head| == PREFIX
    && |r.body| <= r.length <= 9999
    && (r.code == ITEM_LIST && r.sequence == 1 ==> |r.body| >= 19)
  }

  type Msg = r: Record | Usable(r) witness Record("", 1, '2', "", seq(PREFIX, _ => ' '), "", 0)

  function Parse(m: string): Msg
    requires Readable(m)
  {
    LengthBound(m);
    Record(RefId(m), Sequence(m), Flag(m), TransactionCode(m), m[..PREFIX], m[PREFIX..PREFIX + BodyLength(m)],
           MessageLength(m))
  }

  predicate IsLast(m: Msg) {
    m.flag == '2' || m.flag == '6'
  }

  predicate IsMiddle(m: Msg) {
    m.flag == '0' || m.flag == '4'
  }

  function Pow10(n: nat): (p: nat)
    ensures p >= 1
  {
    if n == 0 then 1 else 10 * Pow10(n - 1)
  }

  lemma {:induction false} DigitsBound(s: string, acc: nat)
    ensures Digits(s, acc) < (acc + 1) * Pow10(|s|)
    decreases |s|
  {
    if s == [] || !('0' <= s[0] <= '9') {
      ProductAtLeast(acc + 1, Pow10(|s|));
    } else {
      var d := s[0] as nat - '0' as nat;
      DigitsBound(s[1..], 10 * acc + d);
      var p := Pow10(|s| - 1);
      ProductMonotone(10 * acc + d + 1, 10 * acc + 10, p);
      assert (10 * acc + 10) * p == (acc + 1) * (10 * p);
    }
  }

  lemma ProductAtLeast(a: nat, b: nat)
    requires b >= 1
    ensures a * b >= a
  {
  }

  lemma ProductMonotone(a: nat, b: nat, p: nat)
    requires a <= b
    ensures a * p <= b * p
  {
  }

  lemma {:induction false} AtoiBound(s: string)
    ensures Atoi(s) < Pow10(|s|)
    decreases |s|
  {
    if s != [] {
      if IsSpace(s[0]) {
        AtoiBound(s[1..]);
      } else {
        DigitsBound(s[1..], 0);
        DigitsBound(s, 0);
      }
    }
  }

  lemma LengthBound(m: string)
    requires Readable(m)
    ensures MessageLength(m) <= 9999
  {
    AtoiBound(m[1..5]);
    assert Pow10(4) == 10 * Pow10(3) == 100 * Pow10(2) == 1000 * Pow10(1) == 10000 * Pow10(0);
  }

  // ---- The fragments of one message ----

  datatype Fragment = Absent | Present(message: Msg)

  /** The 64 slots of a bucket; a fragment sits in the slot of its sequence number. */
  predicate Sound(fs: seq<Fragment>) {
    && |fs| == SLOTS
    && forall i :: 0 <= i < |fs| && fs[i].Present? ==> fs[i].message.sequence == i + 1
  }

  datatype Verdict = Incomplete | Malformed | Overfull | CompleteAt(last: nat)

  /** The scan of HandleInputMessage from slot i on. */
  function Examine(fs: seq<Fragment>, i: nat): (v: Verdict)
    requires Sound(fs) && i <= SLOTS
    ensures v.CompleteAt? ==> i <= v.last < SLOTS
    decreases SLOTS - i
  {
    if i == SLOTS then Overfull
    else if fs[i].Absent? then Incomplete
    else if IsLast(fs[i].message) then CompleteAt(i)
    else if IsMiddle(fs[i].message) then Examine(fs, i + 1)
    else Malformed
  }

  /** The bodies from slot i up to the last fragment or the first gap. */
  function BodiesFrom(fs: seq<Fragment>, i: nat): string
    requires Sound(fs) && i <= SLOTS
    decreases SLOTS - i
  {
    if i == SLOTS || fs[i].Absent? then []
    else fs[i].message.body + (if IsLast(fs[i].message) then [] else BodiesFrom(fs, i + 1))
  }

  /** Six decimal digits, as %06d prints a number below a million. */
  function SixDigits(n: nat): string {
    Decimal(n, 6)
  }

  function Decimal(n: nat, width: nat): (s: string)
    ensures |s| == width
  {
    if width == 0 then [] else Decimal(n / 10, width - 1) + ['0' + (n % 10) as char]
  }

  /** What a complete set of fragments is joined to. */
  function Join(fs: seq<Fragment>): string
    requires Sound(fs) && fs[0].Present?
  {
    var first := fs[0].message;
    if first.code == ITEM_LIST then
      var items := first.body[19..] + BodiesFrom(fs, 1);
      first.head + first.body[..19] + SixDigits(|items| / 27) + items
    else
      first.head + BodiesFrom(fs, 0)
  }

  /** From slot i on there is a last fragment before the first gap. */
  predicate MeetsLast(fs: seq<Fragment>, i: nat)
    requires Sound(fs) && i <= SLOTS
    decreases SLOTS - i
  {
    i < SLOTS && fs[i].Present? && (IsLast(fs[i].message) || MeetsLast(fs, i + 1))
  }

  /** The joining loop from slot start on, a page of buffer at a time; ok tells whether it met a last fragment. */
  method AppendBodies(fs: seq<Fragment>, start: nat, prefix: string, capacity: nat) returns (out: string, ok: bool)
    requires Sound(fs) && start <= SLOTS && |prefix| <= capacity && capacity >= PAGE
    ensures out == prefix + BodiesFrom(fs, start)
    ensures ok == MeetsLast(fs, start)
    ensures Examine(fs, start).CompleteAt? ==> ok
  {
    var i, size := start, capacity;
    out := prefix;
    while i < SLOTS && fs[i].Present?
      invariant start <= i <= SLOTS && |out| <= size
      invariant out + BodiesFrom(fs, i) == prefix + BodiesFrom(fs, start)
      invariant MeetsLast(fs, i) == MeetsLast(fs, start)
      invariant Examine(fs, start).CompleteAt? ==> Examine(fs, i).CompleteAt?
    {
      var m := fs[i].message;
      if size < |out| + m.length {
        size := size + PAGE;
      }
      assert |out| + |m.body| <= size; // the copy stays inside the buffer
      OneBody(fs, i, out);
      out := out + m.body;
      if IsLast(m) {
        return out, true;
      }
      i := i + 1;
    }
    assert out + [] == out;
    ok := false;
  }

  lemma OneBody(fs: seq<Fragment>, i: nat, out: string)
    requires Sound(fs) && i < SLOTS && fs[i].Present?
    ensures var m := fs[i].message;
            if IsLast(m) then out + BodiesFrom(fs, i) == out + m.body && MeetsLast(fs, i)
            else && out + BodiesFrom(fs, i) == out + m.body + BodiesFrom(fs, i + 1)
                 && MeetsLast(fs, i) == MeetsLast(fs, i + 1)
                 && (Examine(fs, i).CompleteAt? ==> Examine(fs, i + 1).CompleteAt?)
  {
    var m := fs[i].message;
    if !IsLast(m) {
      assert out + (m.body + BodiesFrom(fs, i + 1)) == out + m.body + BodiesFrom(fs, i + 1);
    }
  }

  method HandleDefault(fs: seq<Fragment>) returns (out: string, ok: bool)
    requires Sound(fs) && fs[0].Present? && fs[0].message.code != ITEM_LIST
    ensures ok == MeetsLast(fs, 0)
    ensures Examine(fs, 0).CompleteAt? ==> ok
    ensures out == Join(fs)
  {
    out, ok := AppendBodies(fs, 0, fs[0].message.head, PAGE);
  }

  /** Item lists get a count of their 27-byte items inserted after the first 19 bytes of the body. */
  method Handle039001(fs: seq<Fragment>) returns (out: string)
    requires Sound(fs) && fs[0].Present? && fs[0].message.code == ITEM_LIST
    ensures out == Join(fs)
  {
    var first := fs[0].message;
    var head := first.head + first.body[..19];
    var items := first.body[19..];
    assert |head| + 6 + |items| <= PAGE; // the first copies fit the initial page
    var placeholder := head + SixDigits(0) + items;
    var ok;
    out, ok := AppendBodies(fs, 1, placeholder, PAGE);
    var count := (|out| - 5 - 122 - 2 - 19 - 6) / 27;
    ghost var all := items + BodiesFrom(fs, 1);
    Regrouped(head, SixDigits(0), items, BodiesFrom(fs, 1));
    assert count == |all| / 27;
    Splice(head, SixDigits(0), SixDigits(count), all);
    out := out[..PREFIX + 19] + SixDigits(count) + out[PREFIX + 25..];
    assert Join(fs) == head + SixDigits(count) + all;
  }

  lemma Regrouped(a: string, b: string, c: string, d: string)
    ensures a + b + c + d == a + b + (c + d)
  {
  }

  lemma Splice(a: string, b: string, c: string, d: string)
    requires |b| == |c|
    ensures (a + b + d)[..|a|] + c + (a + b + d)[|a| + |b|..] == a + c + d
  {
    var t := a + b + d;
    assert t[..|a|] == a;
    assert t[|a| + |b|..] == d;
  }

  datatype Result = Pending | Failed | Output(message: string)

  /** HandleInputMessage: what to return, and whether the entry is dropped. */
  function Answer(fs: seq<Fragment>): (Result, bool)
    requires Sound(fs)
  {
    match Examine(fs, 0)
    case Incomplete => (Pending, false)
    case Malformed => (Failed, true)
    case Overfull => (Failed, true)
    case CompleteAt(_) => (Output(Join(fs)), true)
  }

  method HandleInputMessage(fs: seq<Fragment>) returns (r: Result, drop: bool)
    requires Sound(fs)
    ensures (r, drop) == Answer(fs)
  {
    var i := 0;
    while i < SLOTS
      invariant 0 <= i <= SLOTS
      invariant Examine(fs, 0) == Examine(fs, i)
      invariant i > 0 ==> fs[0].Present?
    {
      if fs[i].Absent? {
        return Pending, false;
      }
      if IsLast(fs[i].message) {
        break;
      } else if !IsMiddle(fs[i].message) {
        return Failed, true;
      }
      i := i + 1;
    }
    if i == SLOTS {
      return Failed, true;
    }
    if fs[0].message.code == ITEM_LIST {
      var out := Handle039001(fs);
      return Output(out), true;
    }
    var out, ok := HandleDefault(fs);
    if !ok {
      return Failed, true;
    }
    return Output(out), true;
  }

  // ---- Deliveries ----

  type Inbox = map<string, seq<Fragment>>

  function Blank(): seq<Fragment> {
    seq(SLOTS, _ => Absent)
  }

  ghost predicate SoundInbox(store: Inbox) {
    forall k :: k in store ==> Sound(store[k])
  }

  /** The slots of a message after one more fragment. */
  function With(store: Inbox, m: Msg): (fs: seq<Fragment>)
    requires SoundInbox(store)
    ensures Sound(fs)
  {
    (if m.refid in store then store[m.refid] else Blank())[m.sequence - 1 := Present(m)]
  }

  /** InputMessageProcess on a plain map. */
  function Deliver(store: Inbox, m: Msg): (r: (Inbox, Result))
    requires SoundInbox(store)
    ensures SoundInbox(r.0)
  {
    var fs := With(store, m);
    var (answer, drop) := Answer(fs);
    (if drop then store - {m.refid} else store[m.refid := fs], answer)
  }

  function DeliverAll(store: Inbox, ms: seq<Msg>): (r: (Inbox, seq<Result>))
    requires SoundInbox(store)
    ensures |r.1| == |ms| && SoundInbox(r.0)
    decreases |ms|
  {
    if ms == [] then (store, []) else
    var first := Deliver(store, ms[0]);
    var rest := DeliverAll(first.0, ms[1..]);
    (rest.0, [first.1] + rest.1)
  }

  lemma OneMoreSound(store: Inbox, m: Msg)
    requires SoundInbox(store)
    ensures SoundInbox(store[m.refid := With(store, m)])
  {
  }

  /** A delivery as store, answer, then drop. */
  lemma DeliverUnfolds(store: Inbox, m: Msg)
    requires SoundInbox(store)
    ensures var fs := With(store, m); var stored := store[m.refid := fs];
            && SoundInbox(stored) && SoundInbox(stored - {m.refid})
            && Deliver(store, m) == (if Answer(fs).1 then stored - {m.refid} else stored, Answer(fs).0)
  {
    var fs := With(store, m);
    assert store[m.refid := fs] - {m.refid} == store - {m.refid};
  }

  class Reassembler {
    const table: Table<string, seq<Fragment>>

    ghost predicate Valid()
      reads this, table, table.buckets
    {
      table.Valid() && SoundInbox(table.Map())
    }

    constructor (hash: string -> nat, primes: seq<nat>)
      requires PrimeTable(primes)
      ensures Valid() && fresh(table) && fresh(table.buckets)
      ensures table.Map() == map[] && table.primes == primes && table.inuse == 0
      ensures table.buckets.Length > 1000 || table.buckets.Length == primes[|primes| - 1]
    {
      table := new Table<string, seq<Fragment>>(hash, primes, 500);
    }

    /** InputMessageProcess, without the timeout cleaning. */
    method Input(raw: string) returns (r: Result)
      requires Valid() && Readable(raw)
      requires Parse(raw).refid !in table.Map() ==> table.HasRoom()
      modifies table, table.buckets
      ensures Valid() && table.inuse <= old(table.inuse) + 1
      ensures table.buckets == old(table.buckets) || fresh(table.buckets)
      ensures (table.Map(), r) == Deliver(old(table.Map()), Parse(raw))
    {
      var m := Parse(raw);
      DeliverUnfolds(table.Map(), m);
      var fs := StoreFragment(m);
      var drop;
      r, drop := HandleInputMessage(fs);
      if drop {
        var deleted := table.Delete(m.refid);
      }
    }

    /** Puts the fragment into the slots of its message, in a new entry if it is the first of them. */
    method StoreFragment(m: Msg) returns (fs: seq<Fragment>)
      requires Valid() && (m.refid !in table.Map() ==> table.HasRoom())
      modifies table, table.buckets
      ensures Valid() && table.inuse <= old(table.inuse) + 1
      ensures table.buckets == old(table.buckets) || fresh(table.buckets)
      ensures fs == With(old(table.Map()), m)
      ensures table.Map() == old(table.Map())[m.refid := fs]
    {
      ghost var store := table.Map();
      var found, pos := table.Retrieve(m.refid);
      OneMoreSound(store, m);
      if !found {
        fs := Blank()[m.sequence - 1 := Present(m)];
        assert fs == With(store, m);
        var inserted := table.Insert(m.refid, fs);
        assert table.Map() == store[m.refid := fs];
      } else {
        fs := table.buckets[pos].value[m.sequence - 1 := Present(m)];
        assert fs == With(store, m);
        table.Update(pos, fs);
        assert table.Map() == store[m.refid := fs];
      }
    }

    /** Any sequence of deliveries, however long, does to the table what it does to a plain map. */
    method InputAll(raws: seq<string>) returns (rs: seq<Result>)
      requires Valid() && ReadableAll(raws) && RoomFor(table.primes, table.Map(), ParseAll(raws))
      modifies table, table.buckets
      ensures Valid()
      ensures (table.Map(), rs) == DeliverAll(old(table.Map()), ParseAll(raws))
      decreases |raws|
    {
      if raws == [] {
        return [];
      }
      ghost var ms := ParseAll(raws);
      assert ms[0] == Parse(raws[0]) && ms[1..] == ParseAll(raws[1..]);
      RoomForFirst(table.primes, table.Map(), ms);
      ContentsSize(table.buckets[..]);
      var first := Input(raws[0]);
      var rest := InputAll(raws[1..]);
      rs := [first] + rest;
    }

    /**
     Reassembly on the table itself: raw fragments of a message, in any order and mixed with any
     others, are answered with nothing but for the last, which is answered with the whole message.
     */
    method Receive(raws: seq<string>, ghost ms: seq<Msg>) returns (rs: seq<Result>)
      requires Valid() && ReadableAll(raws) && RoomFor(table.primes, table.Map(), ParseAll(raws))
      requires IsMessage(ms) && ms[0].refid !in table.Map()
      requires multiset(Own(ParseAll(raws), ms[0].refid)) == multiset(ms)
      modifies table, table.buckets
      ensures Valid() && ms[0].refid !in table.Map() && |rs| == |raws|
      ensures OwnResults(ParseAll(raws), rs, ms[0].refid) == Pendings(|ms| - 1) + [Output(Reassembled(ms))]
    {
      ReassemblyIsOrderIndependent(table.Map(), ms, ParseAll(raws));
      rs := InputAll(raws);
    }
  }

  predicate ReadableAll(raws: seq<string>) {
    forall i :: 0 <= i < |raws| ==> Readable(raws[i])
  }

  /**
   Whenever a delivery opens a new message, the messages that are pending then, with the new one,
   are fewer than half of the last tabled prime.
   */
  ghost predicate RoomFor(primes: seq<nat>, store: Inbox, ms: seq<Msg>)
    requires SoundInbox(store) && |primes| > 0
  {
    forall i :: 0 <= i < |ms| ==>
      var before := DeliverAll(store, ms[..i]).0;
      ms[i].refid !in before ==> 2 * (|before| + 1) < primes[|primes| - 1]
  }

  lemma RoomForFirst(primes: seq<nat>, store: Inbox, ms: seq<Msg>)
    requires SoundInbox(store) && |primes| > 0 && RoomFor(primes, store, ms) && ms != []
    ensures ms[0].refid !in store ==> 2 * (|store| + 1) < primes[|primes| - 1]
    ensures RoomFor(primes, Deliver(store, ms[0]).0, ms[1..])
  {
    assert ms[..0] == [];
    forall i | 0 <= i < |ms| - 1
      ensures ms[1..][i] == ms[i + 1]
      ensures DeliverAll(Deliver(store, ms[0]).0, ms[1..][..i]).0 == DeliverAll(store, ms[..i + 1]).0
    {
      assert ms[..i + 1][1..] == ms[1..][..i];
    }
  }

  function ParseAll(raws: seq<string>): seq<Msg>
    requires ReadableAll(raws)
  {
    seq(|raws|, i requires 0 <= i < |raws| => Parse(raws[i]))
  }

  // ---- Arrival-order independence ----

  /** A message as its sender cut it: numbered fragments of one reference id, the final one marked. */
  predicate IsMessage(ms: seq<Msg>) {
    && 1 <= |ms| <= SLOTS
    && (forall k :: 0 <= k < |ms| ==> ms[k].refid == ms[0].refid && ms[k].sequence == k + 1)
    && (forall k :: 0 <= k < |ms| - 1 ==> IsMiddle(ms[k]))
    && IsLast(ms[|ms| - 1])
  }

  function Bodies(ms: seq<Msg>): string {
    if ms == [] then [] else ms[0].body + Bodies(ms[1..])
  }

  /** The whole message: the first header, then all bodies in order; item lists carry their count. */
  function Reassembled(ms: seq<Msg>): string
    requires IsMessage(ms)
  {
    var first := ms[0];
    if first.code == ITEM_LIST then
      var items := first.body[19..] + Bodies(ms[1..]);
      first.head + first.body[..19] + SixDigits(|items| / 27) + items
    else
      first.head + Bodies(ms)
  }

  function Own(arrivals: seq<Msg>, r: string): seq<Msg>
  {
    if arrivals == [] then []
    else (if arrivals[0].refid == r then [arrivals[0]] else []) + Own(arrivals[1..], r)
  }

  /** The results of those deliveries that carry reference id r. */
  function OwnResults(arrivals: seq<Msg>, results: seq<Result>, r: string): seq<Result>
    requires |results| == |arrivals|
    decreases |arrivals|
  {
    if arrivals == [] then []
    else (if arrivals[0].refid == r then [results[0]] else []) + OwnResults(arrivals[1..], results[1..], r)
  }

  function Elements(ms: seq<Msg>): set<Msg> {
    set m | m in ms
  }

  /** The slots when exactly the fragments in got have arrived. */
  function SlotsFor(ms: seq<Msg>, got: set<Msg>): (fs: seq<Fragment>)
    requires IsMessage(ms)
    ensures Sound(fs)
  {
    seq(SLOTS, k requires 0 <= k < SLOTS => if k < |ms| && ms[k] in got then Present(ms[k]) else Absent)
  }

  lemma FragmentsDiffer(ms: seq<Msg>, j: nat, k: nat)
    requires IsMessage(ms) && j < |ms| && k < |ms| && j != k
    ensures ms[j] != ms[k]
  {
    assert ms[j].sequence == j + 1 && ms[k].sequence == k + 1;
  }

  /** The scan reports completion exactly when nothing is missing. */
  lemma {:induction false} ExamineSlots(ms: seq<Msg>, got: set<Msg>, i: nat)
    requires IsMessage(ms) && i < |ms| && forall k :: 0 <= k < i ==> ms[k] in got
    ensures Examine(SlotsFor(ms, got), i)
            == if Elements(ms) <= got then CompleteAt(|ms| - 1) else Incomplete
    decreases |ms| - i
  {
    var fs := SlotsFor(ms, got);
    assert fs[i] == if ms[i] in got then Present(ms[i]) else Absent;
    if ms[i] !in got {
      assert ms[i] in Elements(ms);
    } else if i < |ms| - 1 {
      assert IsMiddle(ms[i]) && !IsLast(ms[i]);
      ExamineSlots(ms, got, i + 1);
    } else {
      assert forall m :: m in Elements(ms) ==> m in got;
    }
  }

  lemma {:induction false} BodiesInOrder(ms: seq<Msg>, i: nat)
    requires IsMessage(ms) && i <= |ms|
    ensures i < |ms| ==> BodiesFrom(SlotsFor(ms, Elements(ms)), i) == Bodies(ms[i..])
    ensures i == |ms| == 1 ==> BodiesFrom(SlotsFor(ms, Elements(ms)), i) == []
    decreases |ms| - i
  {
    var fs := SlotsFor(ms, Elements(ms));
    if i < |ms| {
      assert fs[i] == Present(ms[i]);
      assert ms[i..][0] == ms[i] && ms[i..][1..] == ms[i + 1..];
      if i < |ms| - 1 {
        assert IsMiddle(ms[i]);
        BodiesInOrder(ms, i + 1);
      } else {
        assert Bodies(ms[i + 1..]) == [];
      }
    }
  }

  lemma JoinIsReassembled(ms: seq<Msg>)
    requires IsMessage(ms)
    ensures SlotsFor(ms, Elements(ms))[0].Present?
    ensures Join(SlotsFor(ms, Elements(ms))) == Reassembled(ms)
  {
    var fs := SlotsFor(ms, Elements(ms));
    var first := ms[0];
    assert fs[0] == Present(first);
    BodiesInOrder(ms, 0);
    BodiesInOrder(ms, 1);
    assert ms[0..] == ms;
  }

  /** The store holds, for this message, exactly the fragments in got. */
  ghost predicate Holds(store: Inbox, ms: seq<Msg>, got: set<Msg>)
    requires IsMessage(ms)
  {
    var r := ms[0].refid;
    if got == {} then r !in store else r in store && store[r] == SlotsFor(ms, got)
  }

  lemma WithOneMore(store: Inbox, ms: seq<Msg>, got: set<Msg>, k: nat)
    requires SoundInbox(store) && IsMessage(ms) && Holds(store, ms, got) && k < |ms|
    ensures With(store, ms[k]) == SlotsFor(ms, got + {ms[k]})
  {
    forall j | 0 <= j < SLOTS
      ensures With(store, ms[k])[j] == SlotsFor(ms, got + {ms[k]})[j]
    {
      if j < |ms| && j != k {
        FragmentsDiffer(ms, j, k);
      }
      assert ms[k].sequence == k + 1;
    }
  }

  /** A delivery touches no other message. */
  lemma OthersUntouched(store: Inbox, m: Msg, r: string)
    requires SoundInbox(store) && m.refid != r
    ensures var store' := Deliver(store, m).0;
            (r in store' <==> r in store) && (r in store ==> store'[r] == store[r])
  {
  }

  /** One own arrival: pending until it completes the message, then the whole message, and the entry is gone. */
  lemma OwnArrival(store: Inbox, ms: seq<Msg>, got: set<Msg>, k: nat)
    requires SoundInbox(store) && IsMessage(ms) && Holds(store, ms, got) && k < |ms|
    requires got <= Elements(ms) && ms[k] !in got
    ensures var (store', result) := Deliver(store, ms[k]);
            if got + {ms[k]} == Elements(ms) then result == Output(Reassembled(ms)) && ms[0].refid !in store'
            else result == Pending && Holds(store', ms, got + {ms[k]})
  {
    assert ms[k] in Elements(ms) && ms[k].refid == ms[0].refid;
    WithOneMore(store, ms, got, k);
    ExamineSlots(ms, got + {ms[k]}, 0);
    JoinIsReassembled(ms);
  }

  lemma {:induction false} NothingOwn(store: Inbox, arrivals: seq<Msg>, r: string)
    requires SoundInbox(store) && r !in store && Own(arrivals, r) == []
    ensures var (store', results) := DeliverAll(store, arrivals);
            r !in store' && OwnResults(arrivals, results, r) == []
    decreases |arrivals|
  {
    if arrivals != [] {
      OthersUntouched(store, arrivals[0], r);
      NothingOwn(Deliver(store, arrivals[0]).0, arrivals[1..], r);
    }
  }

  function Pendings(n: nat): seq<Result> {
    seq(n, _ => Pending)
  }

  /** Delivering the arrivals answers n of this message: all but the last are pending, and the last completes it. */
  ghost predicate Concludes(store: Inbox, ms: seq<Msg>, arrivals: seq<Msg>, n: nat)
    requires SoundInbox(store) && IsMessage(ms) && n >= 1
  {
    var (store', results) := DeliverAll(store, arrivals);
    && ms[0].refid !in store'
    && OwnResults(arrivals, results, ms[0].refid) == Pendings(n - 1) + [Output(Reassembled(ms))]
  }

  lemma ConcludesAfterOther(store: Inbox, ms: seq<Msg>, arrivals: seq<Msg>, n: nat)
    requires SoundInbox(store) && IsMessage(ms) && n >= 1 && arrivals != [] && arrivals[0].refid != ms[0].refid
    requires Concludes(Deliver(store, arrivals[0]).0, ms, arrivals[1..], n)
    ensures Concludes(store, ms, arrivals, n)
  {
    var (store', results) := DeliverAll(store, arrivals);
    assert results[1..] == DeliverAll(Deliver(store, arrivals[0]).0, arrivals[1..]).1;
  }

  lemma ConcludesAfterPending(store: Inbox, ms: seq<Msg>, arrivals: seq<Msg>, n: nat)
    requires SoundInbox(store) && IsMessage(ms) && n >= 1 && arrivals != [] && arrivals[0].refid == ms[0].refid
    requires Deliver(store, arrivals[0]).1 == Pending
    requires Concludes(Deliver(store, arrivals[0]).0, ms, arrivals[1..], n)
    ensures Concludes(store, ms, arrivals, n + 1)
  {
    var (store', results) := DeliverAll(store, arrivals);
    assert results[1..] == DeliverAll(Deliver(store, arrivals[0]).0, arrivals[1..]).1;
    OneMorePending(n - 1, [Output(Reassembled(ms))]);
  }

  lemma ConcludesAtLast(store: Inbox, ms: seq<Msg>, arrivals: seq<Msg>)
    requires SoundInbox(store) && IsMessage(ms) && arrivals != [] && arrivals[0].refid == ms[0].refid
    requires Deliver(store, arrivals[0]).1 == Output(Reassembled(ms))
    requires ms[0].refid !in Deliver(store, arrivals[0]).0 && Own(arrivals[1..], ms[0].refid) == []
    ensures Concludes(store, ms, arrivals, 1)
  {
    var (store', results) := DeliverAll(store, arrivals);
    assert results[1..] == DeliverAll(Deliver(store, arrivals[0]).0, arrivals[1..]).1;
    NothingOwn(Deliver(store, arrivals[0]).0, arrivals[1..], ms[0].refid);
  }

  lemma {:induction false} Progress(store: Inbox, ms: seq<Msg>, got: set<Msg>, arrivals: seq<Msg>)
    requires SoundInbox(store) && IsMessage(ms)
    requires got < Elements(ms) && Holds(store, ms, got)
    requires multiset(Own(arrivals, ms[0].refid)) == multiset(Elements(ms) - got)
    ensures |Elements(ms) - got| >= 1 && Concludes(store, ms, arrivals, |Elements(ms) - got|)
    decreases |arrivals|
  {
    var r := ms[0].refid;
    var left := Elements(ms) - got;
    HasArrivals(arrivals, r, left);
    var m, tail := arrivals[0], arrivals[1..];
    var store1 := Deliver(store, m).0;
    if m.refid != r {
      OthersUntouched(store, m, r);
      Progress(store1, ms, got, tail);
      ConcludesAfterOther(store, ms, arrivals, |left|);
    } else {
      PeelOne(m, Own(tail, r), left);
      var k :| 0 <= k < |ms| && ms[k] == m;
      OwnArrival(store, ms, got, k);
      GotOneMore(Elements(ms), got, m);
      if left == {m} {
        ConcludesAtLast(store, ms, arrivals);
      } else {
        Progress(store1, ms, got + {m}, tail);
        ConcludesAfterPending(store, ms, arrivals, |left - {m}|);
      }
    }
  }

  lemma GotOneMore(all: set<Msg>, got: set<Msg>, m: Msg)
    requires got < all && m in all - got
    ensures (all - got) - {m} == all - (got + {m}) && got + {m} <= all
    ensures all - got == {m} <==> got + {m} == all
    ensures all - got != {m} ==> (all - got) - {m} != {}
  {
    if all - got == {m} {
      assert forall x :: x in all ==> x in got + {m};
    }
    if (all - got) - {m} == {} {
      assert forall x :: x in all - got ==> x == m;
    }
  }

  lemma HasArrivals(arrivals: seq<Msg>, r: string, left: set<Msg>)
    requires left != {} && multiset(Own(arrivals, r)) == multiset(left)
    ensures arrivals != []
  {
    var x :| x in left;
    assert x in multiset(left);
  }

  lemma PeelOne(m: Msg, tail: seq<Msg>, left: set<Msg>)
    requires multiset([m] + tail) == multiset(left)
    ensures m in left && multiset(tail) == multiset(left - {m})
    ensures |left| == |left - {m}| + 1
    ensures left == {m} ==> tail == []
  {
    assert multiset([m] + tail) == multiset{m} + multiset(tail);
    assert m in multiset(left);
    assert left == (left - {m}) + {m};
    forall x: Msg ensures multiset(tail)[x] == multiset(left - {m})[x] {
      assert (multiset{m} + multiset(tail))[x] == multiset(left)[x];
    }
    assert |multiset(tail)| == |tail|;
  }

  lemma OneMorePending(n: nat, last: seq<Result>)
    ensures [Pending] + (Pendings(n) + last) == Pendings(n + 1) + last
  {
  }

  lemma {:induction false} AsManyAsFragments(ms: seq<Msg>, n: nat)
    requires IsMessage(ms) && n <= |ms|
    ensures |Elements(ms[..n])| == n && multiset(Elements(ms[..n])) == multiset(ms[..n])
  {
    if n > 0 {
      AsManyAsFragments(ms, n - 1);
      assert ms[..n] == ms[..n - 1] + [ms[n - 1]];
      var before := ms[..n - 1];
      forall j | 0 <= j < |before| ensures before[j] != ms[n - 1] {
        FragmentsDiffer(ms, j, n - 1);
      }
      OneMoreElement(before, ms[n - 1]);
    }
  }

  lemma OneMoreElement(ms: seq<Msg>, m: Msg)
    requires m !in ms && multiset(Elements(ms)) == multiset(ms)
    ensures |Elements(ms + [m])| == |Elements(ms)| + 1 && multiset(Elements(ms + [m])) == multiset(ms + [m])
  {
    assert Elements(ms + [m]) == Elements(ms) + {m};
    assert multiset(Elements(ms) + {m}) == multiset(Elements(ms)) + multiset{m};
  }

  /**
   Whatever the order in which the fragments of a message arrive, and whatever arrives in
   between for other messages: all but the last of its arrivals are answered with nothing,
   the last one with the whole message, and no trace of the message stays behind.
   */
  lemma ReassemblyIsOrderIndependent(store: Inbox, ms: seq<Msg>, arrivals: seq<Msg>)
    requires SoundInbox(store) && IsMessage(ms)
    requires ms[0].refid !in store
    requires multiset(Own(arrivals, ms[0].refid)) == multiset(ms)
    ensures var (store', results) := DeliverAll(store, arrivals); var r := ms[0].refid;
            && r !in store'
            && OwnResults(arrivals, results, r) == Pendings(|ms| - 1) + [Output(Reassembled(ms))]
  {
    AsManyAsFragments(ms, |ms|);
    assert ms[..|ms|] == ms;
    assert ms[0] in Elements(ms);
    assert Elements(ms) - {} == Elements(ms);
    Progress(store, ms, {}, arrivals);
  }
}
