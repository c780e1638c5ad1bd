/**
 The other end of reassembly: a sender that cuts a message into fragments with the header
 layout the receiver reads. Cutting and then delivering in any order gives the message back.
 */
module Cutting {
  import opened Reassembly
  import opened Numerals

  /** The identifying fields of a message: branch number, serial number, transaction code. */
  datatype Envelope = Envelope(branch: string, serial: string, code: string)

  predicate GoodEnvelope(e: Envelope) {
    && |e.branch| == 5 && |e.serial| == 12 && |e.code| == 6
    && NoTerminator(e.branch) && NoTerminator(e.serial) && NoTerminator(e.code)
  }

  /** What a four-digit message length can describe. */
  const MAX_BODY: nat := 9875

  /** The header: every field at the place where the receiver reads it, blanks elsewhere. */
  function Header(e: Envelope, number: nat, flag: char, size: nat): (s: string)
    requires GoodEnvelope(e)
    ensures |s| == PREFIX
  {
    var total, length, sequence := Decimal(124 + size, 4), Decimal(size, 4), Decimal(number, 4);
    seq(PREFIX, i requires 0 <= i < PREFIX =>
      if 1 <= i < 5 then total[i - 1]
      else if 9 <= i < 13 then length[i - 9]
      else if 13 <= i < 25 then e.serial[i - 13]
      else if 29 <= i < 33 then sequence[i - 29]
      else if 42 <= i < 47 then e.branch[i - 42]
      else if 57 <= i < 63 then e.code[i - 57]
      else if i == 83 then flag
      else ' ')
  }

  function Render(e: Envelope, number: nat, flag: char, body: string): (s: string)
    requires GoodEnvelope(e)
    ensures |s| == PREFIX + |body|
  {
    Header(e, number, flag, |body|) + body
  }

  // ---- Reading the fields back ----

  lemma FieldsReadBack(e: Envelope, number: nat, flag: char, body: string)
    requires GoodEnvelope(e)
    ensures var m := Render(e, number, flag, body);
            && m[1..5] == Decimal(124 + |body|, 4) && m[9..13] == Decimal(|body|, 4) && m[29..33] == Decimal(number, 4)
            && m[13..25] == e.serial && m[42..47] == e.branch && m[57..63] == e.code && m[83] == flag
  {
  }

  predicate GoodBody(e: Envelope, number: nat, body: string) {
    |body| <= MAX_BODY && (e.code == ITEM_LIST && number == 1 ==> |body| >= 19)
  }

  function RefOf(e: Envelope): string {
    e.branch + e.serial
  }

  function RecordOf(e: Envelope, number: nat, flag: char, body: string): Msg
    requires GoodEnvelope(e) && 1 <= number <= SLOTS && GoodBody(e, number, body)
  {
    Record(RefOf(e), number, flag, e.code, Header(e, number, flag, |body|), body, 124 + |body|)
  }

  /** What the receiver reads off a fragment is what the sender put in. */
  lemma ParseOfRender(e: Envelope, number: nat, flag: char, body: string)
    requires GoodEnvelope(e) && 1 <= number <= SLOTS && GoodBody(e, number, body)
    ensures Readable(Render(e, number, flag, body))
    ensures Parse(Render(e, number, flag, body)) == RecordOf(e, number, flag, body)
  {
    var m := Render(e, number, flag, body);
    FieldsReadBack(e, number, flag, body);
    FourDigits(124 + |body|);
    FourDigits(|body|);
    FourDigits(number);
    CStringWhole(e.branch);
    CStringWhole(e.serial);
    CStringWhole(e.code);
    assert m[PREFIX..PREFIX + |body|] == body && m[..PREFIX] == Header(e, number, flag, |body|);
  }

  // ---- A whole message ----

  /** Bodies that fit 1 to 64 fragments. */
  predicate GoodBodies(e: Envelope, bodies: seq<string>) {
    1 <= |bodies| <= SLOTS && forall i :: 0 <= i < |bodies| ==> GoodBody(e, i + 1, bodies[i])
  }

  function FlagFor(i: nat, count: nat): char {
    if i + 1 == count then '2' else '0'
  }

  function Cut(e: Envelope, bodies: seq<string>): (ms: seq<string>)
    requires GoodEnvelope(e)
    ensures |ms| == |bodies|
  {
    seq(|bodies|, i requires 0 <= i < |bodies| => Render(e, i + 1, FlagFor(i, |bodies|), bodies[i]))
  }

  function Flatten(bodies: seq<string>): string {
    if bodies == [] then [] else bodies[0] + Flatten(bodies[1..])
  }

  /** The message: the header of its first fragment and its content; an item list also has its count of items. */
  function Whole(e: Envelope, bodies: seq<string>): string
    requires GoodEnvelope(e) && GoodBodies(e, bodies)
  {
    var content := Flatten(bodies);
    Header(e, 1, FlagFor(0, |bodies|), |bodies[0]|) +
    if e.code == ITEM_LIST
    then content[..19] + SixDigits((|content| - 19) / 27) + content[19..]
    else content
  }

  lemma CutParses(e: Envelope, bodies: seq<string>)
    requires GoodEnvelope(e) && GoodBodies(e, bodies)
    ensures ReadableAll(Cut(e, bodies))
    ensures var ms := ParseAll(Cut(e, bodies));
            AreRecords(e, bodies, ms)
  {
    forall i | 0 <= i < |bodies|
      ensures Readable(Cut(e, bodies)[i])
      ensures Parse(Cut(e, bodies)[i]) == RecordOf(e, i + 1, FlagFor(i, |bodies|), bodies[i])
    {
      ParseOfRender(e, i + 1, FlagFor(i, |bodies|), bodies[i]);
    }
  }

  lemma {:induction false} BodiesAreContent(ms: seq<Msg>, bodies: seq<string>)
    requires |ms| == |bodies| && forall i :: 0 <= i < |ms| ==> ms[i].body == bodies[i]
    ensures Bodies(ms) == Flatten(bodies)
  {
    if ms != [] {
      BodiesAreContent(ms[1..], bodies[1..]);
    }
  }

  /** The fragments a sender cuts are a message in the receiver's sense, and reassemble to the whole. */
  lemma CutIsMessage(e: Envelope, bodies: seq<string>)
    requires GoodEnvelope(e) && GoodBodies(e, bodies)
    ensures ReadableAll(Cut(e, bodies))
    ensures IsMessage(ParseAll(Cut(e, bodies)))
    ensures ParseAll(Cut(e, bodies))[0].refid == RefOf(e)
    ensures Reassembled(ParseAll(Cut(e, bodies))) == Whole(e, bodies)
  {
    CutParses(e, bodies);
    var ms := ParseAll(Cut(e, bodies));
    RecordsAreMessage(e, bodies, ms);
    RecordsReassemble(e, bodies, ms);
  }

  /** The records of the fragments cut from a message. */
  ghost predicate AreRecords(e: Envelope, bodies: seq<string>, ms: seq<Msg>)
    requires GoodEnvelope(e) && GoodBodies(e, bodies)
  {
    |ms| == |bodies| && forall i :: 0 <= i < |bodies| ==> ms[i] == RecordOf(e, i + 1, FlagFor(i, |bodies|), bodies[i])
  }

  lemma RecordsAreMessage(e: Envelope, bodies: seq<string>, ms: seq<Msg>)
    requires GoodEnvelope(e) && GoodBodies(e, bodies) && AreRecords(e, bodies, ms)
    ensures IsMessage(ms) && ms[0].refid == RefOf(e)
  {
  }

  lemma RecordsReassemble(e: Envelope, bodies: seq<string>, ms: seq<Msg>)
    requires GoodEnvelope(e) && GoodBodies(e, bodies) && AreRecords(e, bodies, ms) && IsMessage(ms)
    ensures Reassembled(ms) == Whole(e, bodies)
  {
    assert ms[0] == RecordOf(e, 1, FlagFor(0, |bodies|), bodies[0]);
    BodiesAreContent(ms, bodies);
    BodiesAreContent(ms[1..], bodies[1..]);
    if e.code == ITEM_LIST {
      SplitAt19(ms[0].head, bodies[0], Flatten(bodies[1..]));
    }
  }

  lemma SplitAt19(head: string, first: string, rest: string)
    requires |first| >= 19
    ensures var content := first + rest; var items := first[19..] + rest;
            head + first[..19] + SixDigits(|items| / 27) + items
            == head + (content[..19] + SixDigits((|content| - 19) / 27) + content[19..])
  {
    var content, items := first + rest, first[19..] + rest;
    assert content[..19] == first[..19] && content[19..] == items;
    assert |items| == |content| - 19;
  }

  /**
   Cut, deliver, reassemble: the fragments of a message, delivered in any order and mixed
   with any other fragments, are answered with nothing but for the last of them, which is
   answered with the whole message.
   That the fragments are readable is CutParses.
   */
  lemma CutThenReassemble(store: Inbox, e: Envelope, bodies: seq<string>, arrivals: seq<string>)
    requires SoundInbox(store) && GoodEnvelope(e) && GoodBodies(e, bodies)
    requires ReadableAll(arrivals) && RefOf(e) !in store && ReadableAll(Cut(e, bodies))
    requires multiset(Own(ParseAll(arrivals), RefOf(e))) == multiset(ParseAll(Cut(e, bodies)))
    ensures var (store', results) := DeliverAll(store, ParseAll(arrivals));
            && RefOf(e) !in store'
            && OwnResults(ParseAll(arrivals), results, RefOf(e)) == Pendings(|bodies| - 1) + [Output(Whole(e, bodies))]
  {
    CutIsMessage(e, bodies);
    ReassemblyIsOrderIndependent(store, ParseAll(Cut(e, bodies)), ParseAll(arrivals));
  }
}
