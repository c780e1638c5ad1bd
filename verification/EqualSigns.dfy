/**
 What trimming does to equal signs outside quotes: those with only soft characters between them
 become one, so their number survives exactly when no two of them are so close.
 */
module EqualSigns {
  import opened TrimSpace

  /** The text ends with an equal sign outside quotes. */
  predicate EqualLast(s: string, border: char -> bool) {
    SoftLast(s, border) && s[|s| - 1] == '='
  }

  /** The number of equal signs outside quotes. */
  function Equals(s: string, border: char -> bool): nat {
    if s == [] then 0 else Equals(s[..|s| - 1], border) + if EqualLast(s, border) then 1 else 0
  }

  /** Two equal signs outside quotes in one run of soft characters. */
  ghost predicate Doubled(s: string, border: char -> bool) {
    exists i, j :: 0 <= i < j < |s| && DoubledAt(s, border, i, j)
  }

  ghost predicate DoubledAt(s: string, border: char -> bool, i: nat, j: nat)
    requires i < j < |s|
  {
    s[i] == '=' && s[j] == '=' && forall k :: i <= k <= j ==> SoftAt(s, border, k)
  }

  predicate SoftAt(s: string, border: char -> bool, k: nat)
    requires k < |s|
  {
    Soft(s[k]) && !Open(s[..k], border)
  }

  /** The run of soft characters that s ends with has an equal sign. */
  predicate EqualInRun(s: string, border: char -> bool) {
    SoftLast(s, border) && (s[|s| - 1] == '=' || EqualInRun(s[..|s| - 1], border))
  }

  // ---- One more character ----

  lemma {:induction false} AppendEquals(p: string, c: char, border: char -> bool)
    ensures EqualLast(p + [c], border) == (c == '=' && !Open(p, border))
    ensures Equals(p + [c], border) == Equals(p, border) + if c == '=' && !Open(p, border) then 1 else 0
    ensures EqualInRun(p + [c], border) ==
            (Soft(c) && !Open(p, border) && (c == '=' || EqualInRun(p, border)))
  {
    Snoc(p, c);
    AppendOpens(p, c, border);
  }

  lemma {:induction false} RunReaches(s: string, border: char -> bool, i: nat)
    requires i < |s| && s[i] == '=' && forall k :: i <= k < |s| ==> SoftAt(s, border, k)
    ensures EqualInRun(s, border)
  {
    var n := |s| - 1;
    assert SoftAt(s, border, n);
    if i < n {
      forall k | i <= k < n ensures SoftAt(s[..n], border, k) {
        assert SoftAt(s, border, k) && s[..n][..k] == s[..k];
      }
      RunReaches(s[..n], border, i);
    }
  }

  lemma {:induction false} RunStarts(s: string, border: char -> bool) returns (i: nat)
    requires EqualInRun(s, border)
    ensures i < |s| && s[i] == '=' && forall k :: i <= k < |s| ==> SoftAt(s, border, k)
  {
    var n := |s| - 1;
    if s[n] == '=' {
      i := n;
    } else {
      i := RunStarts(s[..n], border);
      forall k | i <= k < |s| ensures SoftAt(s, border, k) {
        if k < n {
          assert SoftAt(s[..n], border, k) && s[..n][..k] == s[..k];
        }
      }
    }
  }

  lemma {:induction false} SamePlaces(p: string, c: char, border: char -> bool, k: nat)
    requires k < |p|
    ensures SoftAt(p + [c], border, k) == SoftAt(p, border, k) && (p + [c])[k] == p[k]
  {
    assert (p + [c])[..k] == p[..k];
  }

  lemma {:induction false} AppendDoubles(p: string, c: char, border: char -> bool)
    ensures Doubled(p + [c], border) <==>
            Doubled(p, border) || (c == '=' && !Open(p, border) && EqualInRun(p, border))
  {
    var s := p + [c];
    Snoc(p, c);
    forall k: nat | k < |p| ensures SoftAt(s, border, k) == SoftAt(p, border, k) && s[k] == p[k] {
      SamePlaces(p, c, border, k);
    }
    if Doubled(s, border) {
      var i, j :| 0 <= i < j < |s| && DoubledAt(s, border, i, j);
      if j < |p| {
        assert DoubledAt(p, border, i, j);
      } else {
        assert SoftAt(s, border, j);
        RunReaches(p, border, i);
      }
    }
    if Doubled(p, border) {
      var i, j :| 0 <= i < j < |p| && DoubledAt(p, border, i, j);
      assert DoubledAt(s, border, i, j);
    }
    if c == '=' && !Open(p, border) && EqualInRun(p, border) {
      var i := RunStarts(p, border);
      assert DoubledAt(s, border, i, |p|);
    }
  }

  // ---- The count through the machine ----

  /** What holds between a text and the machine that has read it. */
  ghost predicate Counted(s: string, m: Machine, border: char -> bool) {
    && Equals(m.out, border) <= Equals(s, border)
    && (Equals(m.out, border) == Equals(s, border) <==> !Doubled(s, border))
    && (EqualLast(m.out, border) <==> EqualInRun(s, border))
  }

  /** The flags of the machine, in terms of its output and of the text. */
  ghost predicate Flags(s: string, m: Machine, border: char -> bool) {
    && m.inString == Open(m.out, border) == Open(s, border)
    && m.inSpace == (m.out == [] || SoftLast(m.out, border))
    && m.inSpace == (s == [] || SoftLast(s, border))
  }

  lemma {:induction false} FlagsHold(s: string, border: char -> bool)
    requires GoodBorder(border)
    ensures Flags(s, Trim(s, border), border)
  {
    ResultIsTight(s, border);
    TrimIsReference(s, border);
  }

  /** The output after one more character, counted. */
  lemma {:induction false} FeedCounts(m: Machine, c: char, border: char -> bool)
    requires GoodBorder(border) && m.inString == Open(m.out, border)
    requires m.inSpace == (m.out == [] || SoftLast(m.out, border))
    ensures var m' := Feed(m, c, border); var equal := c == '=' && !m.inString;
            && Equals(m'.out, border) == Equals(m.out, border) + (if equal && !EqualLast(m.out, border) then 1 else 0)
            && (EqualLast(m'.out, border) <==>
                equal || (Blank(c) && !m.inString && m.inSpace && EqualLast(m.out, border)))
  {
    AppendEquals(m.out, c, border);
    if c == '=' && !m.inString && m.inSpace && m.out != [] {
      var shorter, last := m.out[..|m.out| - 1], m.out[|m.out| - 1];
      assert m.out == shorter + [last];
      AppendEquals(shorter, last, border);
      AppendEquals(shorter, '=', border);
    }
  }

  lemma {:induction false} CountStep(p: string, c: char, border: char -> bool)
    requires GoodBorder(border) && Flags(p, Trim(p, border), border) && Counted(p, Trim(p, border), border)
    ensures Counted(p + [c], Trim(p + [c], border), border)
  {
    AppendFeeds(p, c, border);
    FeedCounts(Trim(p, border), c, border);
    AppendEquals(p, c, border);
    AppendDoubles(p, c, border);
  }

  lemma {:induction false} CountsAgree(s: string, border: char -> bool)
    requires GoodBorder(border)
    ensures Counted(s, Trim(s, border), border)
    decreases |s|
  {
    if s != [] {
      var p, c := s[..|s| - 1], s[|s| - 1];
      CountsAgree(p, border);
      FlagsHold(p, border);
      CountStep(p, c, border);
      assert s == p + [c];
    }
  }

  /**
   Trimming never adds an equal sign outside quotes, and keeps their number exactly when no run
   of soft characters has two.
   */
  lemma EqualSignsSurvive(s: string, border: char -> bool)
    requires GoodBorder(border)
    ensures Equals(Trim(s, border).out, border) <= Equals(s, border)
    ensures Equals(Trim(s, border).out, border) == Equals(s, border) <==> !Doubled(s, border)
  {
    CountsAgree(s, border);
  }

  /** Two equal signs side by side become one: the shortest text that loses one. */
  lemma AdjacentEqualSignsMerge(border: char -> bool)
    requires GoodBorder(border)
    ensures Trim(['=', '='], border).out == ['=']
  {
    var one, two := ['='], ['=', '='];
    assert one[..0] == [] && one[0] == '=';
    assert Trim(one, border) == Feed(Machine([], false, true), '=', border);
    assert two[..1] == one && two[1] == '=';
    assert Trim(two, border) == Feed(Trim(one, border), '=', border);
  }
}
