/**
 What a receiver of fragments can rely on, written out in the characters and numbers of the wire
 format: when a delivery waits, fails or completes a message, and what the completed message holds.
 */
module ReassemblyLaws {
  import opened Reassembly
  import opened Numerals

  // ---- When a message waits, fails or is complete ----

  /** The first i slots hold fragments marked as not the last: flag 0 or 4. */
  ghost predicate MiddleUpTo(fs: seq<Fragment>, i: nat) {
    i <= |fs| && forall j :: 0 <= j < i ==> fs[j].Present? && (fs[j].message.flag == '0' || fs[j].message.flag == '4')
  }

  ghost predicate WaitsAt(fs: seq<Fragment>, i: nat) {
    MiddleUpTo(fs, i) && i < 64 && i < |fs| && fs[i].Absent?
  }

  /** Flag 2 or 6 marks the last fragment. */
  ghost predicate EndsAt(fs: seq<Fragment>, i: nat) {
    && MiddleUpTo(fs, i) && i < 64 && i < |fs|
    && fs[i].Present? && (fs[i].message.flag == '2' || fs[i].message.flag == '6')
  }

  /** Another flag, or 64 fragments none of which is the last. */
  ghost predicate BreaksAt(fs: seq<Fragment>, i: nat) {
    && MiddleUpTo(fs, i) && i <= 64
    && (i < 64 ==> i < |fs| && fs[i].Present? && fs[i].message.flag !in ['0', '2', '4', '6'])
  }

  lemma {:induction false} ScanFrom(fs: seq<Fragment>, i: nat) returns (k: nat)
    requires Sound(fs) && i <= 64 && MiddleUpTo(fs, i)
    ensures i <= k && match Examine(fs, i)
                      case Incomplete => WaitsAt(fs, k)
                      case CompleteAt(last) => EndsAt(fs, k) && k == last
                      case _ => BreaksAt(fs, k)
    decreases 64 - i
  {
    k := i;
    if i < 64 && fs[i].Present? && (fs[i].message.flag == '0' || fs[i].message.flag == '4') {
      k := ScanFrom(fs, i + 1);
    }
  }

  /** Slots stop being middle ones at one place only. */
  lemma OnePlace(fs: seq<Fragment>, i: nat, j: nat)
    requires |fs| == 64
    requires WaitsAt(fs, i) || EndsAt(fs, i) || BreaksAt(fs, i)
    requires WaitsAt(fs, j) || EndsAt(fs, j) || BreaksAt(fs, j)
    ensures i == j
  {
  }

  /**
   The three answers, each exactly in its case: nothing while a fragment is missing before the last
   one, a failure for an unknown flag or 64 fragments without a last one, and the joined message.
   Everything but waiting removes the entry.
   */
  lemma AnswerIs(fs: seq<Fragment>)
    requires Sound(fs)
    ensures Answer(fs).0.Pending? <==> exists i :: WaitsAt(fs, i)
    ensures Answer(fs).0.Failed? <==> exists i :: BreaksAt(fs, i)
    ensures Answer(fs).0.Output? <==> exists i :: EndsAt(fs, i)
    ensures Answer(fs).1 <==> !Answer(fs).0.Pending?
  {
    var k := ScanFrom(fs, 0);
    forall i | WaitsAt(fs, i) || EndsAt(fs, i) || BreaksAt(fs, i) ensures i == k {
      OnePlace(fs, i, k);
    }
  }

  /** The slots of a message after a delivery: the fragment in the slot of its number, the others as they were. */
  lemma SlotsAfter(store: Inbox, m: Msg, i: nat)
    requires SoundInbox(store) && i < 64
    ensures With(store, m)[i] == if i + 1 == m.sequence then Present(m)
                                 else if m.refid in store then store[m.refid][i] else Absent
  {
  }

  /** A delivery that completes or breaks a message leaves no entry; one that waits leaves the slots. */
  lemma EntryAfter(store: Inbox, m: Msg)
    requires SoundInbox(store)
    ensures var (store', r) := Deliver(store, m);
            if r.Pending? then m.refid in store' && store'[m.refid] == With(store, m) else m.refid !in store'
  {
    AnswerIs(With(store, m));
  }

  /** A fragment with an unknown flag, all before it there, fails the message and leaves no entry. */
  lemma UnknownFlagFails(store: Inbox, m: Msg)
    requires SoundInbox(store) && m.flag !in ['0', '2', '4', '6']
    requires m.sequence == 1 || (m.refid in store && MiddleUpTo(store[m.refid], m.sequence - 1))
    ensures Deliver(store, m).1.Failed? && m.refid !in Deliver(store, m).0
  {
    var fs := With(store, m);
    forall j | 0 <= j < m.sequence - 1 ensures fs[j] == store[m.refid][j] {
      SlotsAfter(store, m, j);
    }
    SlotsAfter(store, m, m.sequence - 1);
    assert BreaksAt(fs, m.sequence - 1);
    AnswerIs(fs);
    EntryAfter(store, m);
  }

  // ---- What a message is, and what it is joined to ----

  /** IsMessage with its flags and its limit written out. */
  lemma MessageIs(ms: seq<Msg>)
    ensures IsMessage(ms) <==>
            && 1 <= |ms| <= 64
            && (forall k :: 0 <= k < |ms| ==> ms[k].refid == ms[0].refid && ms[k].sequence == k + 1)
            && (forall k :: 0 <= k < |ms| - 1 ==> ms[k].flag == '0' || ms[k].flag == '4')
            && (ms[|ms| - 1].flag == '2' || ms[|ms| - 1].flag == '6')
  {
  }

  lemma {:induction false} BodiesBound(ms: seq<Msg>)
    ensures |Bodies(ms)| <= 9999 * |ms|
  {
    if ms != [] {
      BodiesBound(ms[1..]);
    }
  }

  /** An item list: 19 bytes, a six-digit count, and items of 27 bytes each, as many as the count says. */
  ghost predicate IsItemList(out: string, content: string) {
    && |content| >= 19 && |out| == 129 + 6 + |content|
    && out[129..148] == content[..19] && out[154..] == content[19..]
    && AllDigits(out[148..154])
    && 27 * Atoi(out[148..154]) <= |content| - 19 < 27 * Atoi(out[148..154]) + 27
  }

  lemma CountField(n: nat)
    requires n < 1000000
    ensures AllDigits(SixDigits(n)) && Atoi(SixDigits(n)) == n
  {
    assert Pow10(6) == 10 * Pow10(5) == 100 * Pow10(4) == 1000 * Pow10(3);
    assert 1000 * Pow10(3) == 10000 * Pow10(2) == 100000 * Pow10(1) == 1000000 * Pow10(0);
    AtoiReads("", "", n, 6, "");
    DecimalRoundTrip(n, 6);
    assert "" + ("" + (Decimal(n, 6) + "")) == Decimal(n, 6);
  }

  lemma FourPieces(a: string, b: string, c: string, d: string)
    ensures var out := a + b + c + d;
            && out[..|a|] == a && out[|a|..|a| + |b|] == b
            && out[|a| + |b|..|a| + |b| + |c|] == c && out[|a| + |b| + |c|..] == d
  {
  }

  lemma ItemListIs(ms: seq<Msg>)
    requires IsMessage(ms) && ms[0].code == "039001"
    ensures Reassembled(ms)[..129] == ms[0].head && IsItemList(Reassembled(ms), Bodies(ms))
  {
    var first, content := ms[0], Bodies(ms);
    var items := first.body[19..] + Bodies(ms[1..]);
    assert content[..19] == first.body[..19] && content[19..] == items;
    BodiesBound(ms);
    CountField(|items| / 27);
    FourPieces(first.head, first.body[..19], SixDigits(|items| / 27), items);
  }

  /** The answer that completes a message, on the wire. */
  lemma WholeMessageIs(ms: seq<Msg>)
    requires IsMessage(ms)
    ensures var out := Reassembled(ms);
            && |out| >= 129 && out[..129] == ms[0].head
            && if ms[0].code == "039001" then IsItemList(out, Bodies(ms)) else out[129..] == Bodies(ms)
  {
    if ms[0].code == "039001" {
      ItemListIs(ms);
    }
  }

  /** As many answers as fragments: nothing but for the last, and that is the whole message. */
  ghost predicate AnswersWhole(own: seq<Result>, ms: seq<Msg>)
    requires |ms| >= 1
  {
    && |own| == |ms|
    && (forall k :: 0 <= k < |ms| - 1 ==> own[k].Pending?)
    && own[|ms| - 1].Output?
    && var out := own[|ms| - 1].message;
       && |out| >= 129 && out[..129] == ms[0].head
       && if ms[0].code == "039001" then IsItemList(out, Bodies(ms)) else out[129..] == Bodies(ms)
  }

  /**
   Raw fragments of a message, delivered to the table in any order among any others: the last of
   its answers is the message, with its header, its content and, for an item list, the right count.
   */
  method ReceiveWhole(r: Reassembler, raws: seq<string>, ghost ms: seq<Msg>) returns (rs: seq<Result>)
    requires r.Valid() && ReadableAll(raws) && RoomFor(r.table.primes, r.table.Map(), ParseAll(raws))
    requires IsMessage(ms) && ms[0].refid !in r.table.Map()
    requires multiset(Own(ParseAll(raws), ms[0].refid)) == multiset(ms)
    modifies r.table, r.table.buckets
    ensures |rs| == |raws|
    ensures AnswersWhole(OwnResults(ParseAll(raws), rs, ms[0].refid), ms)
  {
    WholeMessageIs(ms);
    rs := r.Receive(raws, ms);
  }
}
