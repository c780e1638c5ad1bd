/**
 The in-place removal of superfluous blanks from a line of a profile: a state machine with
 a reading and a writing cursor on one buffer.

 Which characters delimit a quoted string is a parameter.
 */
module TrimSpace {

  predicate Blank(c: char) {
    c == ' ' || c == '\t'
  }

  /** Blanks and equal signs, which the trimming may remove or merge outside quotes. */
  predicate Soft(c: char) {
    Blank(c) || c == '='
  }

  ghost predicate GoodBorder(border: char -> bool) {
    !border(' ') && !border('\t') && !border('=')
  }

  // ---- The state machine as a fold over the original text ----

  datatype Machine = Machine(out: string, inString: bool, inSpace: bool)

  function Feed(m: Machine, c: char, border: char -> bool): Machine {
    if border(c) then Machine(m.out + [c], !m.inString, false)
    else if m.inString then m.(out := m.out + [c])
    else if c == '=' then
      Machine((if m.inSpace && |m.out| > 0 then m.out[..|m.out| - 1] else m.out) + [c], false, true)
    else if Blank(c) then
      if m.inSpace then m else Machine(m.out + [c], false, true)
    else Machine(m.out + [c], false, false)
  }

  function Trim(s: string, border: char -> bool): (m: Machine)
    ensures |m.out| <= |s|
  {
    if s == [] then Machine([], false, true)
    else Feed(Trim(s[..|s| - 1], border), s[|s| - 1], border)
  }

  /** _tTrimExtraSpace: the buffer holds a terminated string before and after. */
  method TrimExtraSpace(a: array<char>, border: char -> bool, length: nat) returns (i: nat)
    requires length < a.Length && a[length] == '\0' && forall k :: 0 <= k < length ==> a[k] != '\0'
    modifies a
    ensures i <= length && a[i] == '\0'
    ensures a[..i] == Trim(old(a[..length]), border).out
    ensures forall k :: length < k < a.Length ==> a[k] == old(a[k])
  {
    ghost var s := a[..length];
    var j, inString, inSpace := 0, false, true;
    i := 0;
    while j < length
      invariant i <= j <= length
      invariant Machine(a[..i], inString, inSpace) == Trim(s[..j], border)
      invariant forall k :: j <= k < a.Length ==> a[k] == old(a[k])
    {
      NextPrefix(s, j, border);
      i, inString, inSpace := Advance(a, border, i, j, inString, inSpace);
      j := j + 1;
    }
    assert s[..j] == s;
    a[i] := '\0';
  }

  lemma {:induction false} NextPrefix(s: string, j: nat, border: char -> bool)
    requires j < |s|
    ensures Trim(s[..j + 1], border) == Feed(Trim(s[..j], border), s[j], border)
  {
    assert s[..j + 1][..j] == s[..j];
  }

  /** The loop body: reads the character at j, writes at or before it. */
  method Advance(a: array<char>, border: char -> bool, i0: nat, j: nat, inString0: bool, inSpace0: bool)
    returns (i: nat, inString: bool, inSpace: bool)
    requires i0 <= j < a.Length
    modifies a
    ensures i <= j + 1
    ensures Machine(a[..i], inString, inSpace) == Feed(Machine(old(a[..i0]), inString0, inSpace0), old(a[j]), border)
    ensures forall k :: j < k < a.Length ==> a[k] == old(a[k])
  {
    i, inString, inSpace := i0, inString0, inSpace0;
    var c := a[j];
    ghost var out := a[..i];
    if border(c) {
      inString := !inString;
      a[i] := c;
      inSpace := false;
      i := i + 1;
    } else if !inString {
      if c == '=' {
        if inSpace && i > 0 {
          i := i - 1;
        }
        a[i] := c;
        inSpace := true;
        i := i + 1;
        assert a[..i] == out[..i - 1] + [c];
      } else if c == ' ' || c == '\t' {
        if !inSpace {
          inSpace := true;
          a[i] := c;
          i := i + 1;
        }
      } else {
        a[i] := c;
        inSpace := false;
        i := i + 1;
      }
    } else {
      a[i] := c;
      i := i + 1;
    }
    assert i == i0 + 1 ==> a[..i] == out + [c];
  }

  // ---- Reading a text from its end ----

  /** A quoted string is open after s. */
  predicate Open(s: string, border: char -> bool) {
    s != [] && Open(s[..|s| - 1], border) != border(s[|s| - 1])
  }

  /** The last character of s is a soft one outside quotes. */
  predicate SoftLast(s: string, border: char -> bool) {
    s != [] && Soft(s[|s| - 1]) && !Open(s[..|s| - 1], border)
  }

  /** How many soft characters outside quotes s ends with. */
  function Run(s: string, border: char -> bool): (n: nat)
    ensures n <= |s|
  {
    if SoftLast(s, border) then 1 + Run(s[..|s| - 1], border) else 0
  }

  /** What a maximal run of soft characters becomes. */
  function Replacement(run: string, leading: bool): string {
    if '=' in run then "=" else if leading || run == [] then "" else [run[0]]
  }

  /**
   The intended result, without states: every maximal run of soft characters outside quotes
   becomes one equal sign if it has one, else its first blank, or nothing at the very front;
   all other characters stay.
   */
  function Reference(s: string, border: char -> bool): string
    decreases |s|
  {
    if s == [] then []
    else if SoftLast(s, border) then
      var base := |s| - Run(s, border);
      Reference(s[..base], border) + Replacement(s[base..], base == 0)
    else Reference(s[..|s| - 1], border) + [s[|s| - 1]]
  }

  lemma {:induction false} Snoc(p: string, c: char)
    ensures (p + [c])[..|p|] == p && (p + [c])[|p|] == c
  {
  }

  lemma {:induction false} AppendOpens(p: string, c: char, border: char -> bool)
    ensures Open(p + [c], border) == (Open(p, border) != border(c))
    ensures SoftLast(p + [c], border) == (Soft(c) && !Open(p, border))
  {
    Snoc(p, c);
  }

  lemma {:induction false} AppendFeeds(p: string, c: char, border: char -> bool)
    ensures Trim(p + [c], border) == Feed(Trim(p, border), c, border)
  {
    Snoc(p, c);
  }

  lemma {:induction false} AppendRuns(p: string, c: char, border: char -> bool)
    requires Soft(c) && !Open(p, border)
    ensures Run(p + [c], border) == 1 + Run(p, border)
  {
    AppendOpens(p, c, border);
    Snoc(p, c);
  }

  lemma {:induction false} SplitSnoc(p: string, c: char, n: nat)
    requires n <= |p|
    ensures (p + [c])[..n] == p[..n] && (p + [c])[n..] == p[n..] + [c]
  {
  }

  /** The result for s with its last run set apart. */
  lemma {:induction false} ReferenceSplit(s: string, border: char -> bool)
    ensures var base := |s| - Run(s, border);
            Reference(s, border) == Reference(s[..base], border) + Replacement(s[base..], base == 0)
    ensures s != [] && !SoftLast(s, border) ==> Run(s, border) == 0
  {
    if !SoftLast(s, border) {
      WholeAndNothing(s, Reference(s, border));
    }
  }

  lemma {:induction false} WholeAndNothing(s: string, t: string)
    ensures s[..|s|] == s && s[|s|..] == [] && t + Replacement([], false) == t && t + Replacement([], true) == t
  {
  }

  lemma {:induction false} ReferenceSoft(p: string, c: char, border: char -> bool)
    requires Soft(c) && !Open(p, border)
    ensures var base := |p| - Run(p, border);
            Reference(p + [c], border) == Reference(p[..base], border) + Replacement(p[base..] + [c], base == 0)
  {
    AppendRuns(p, c, border);
    ReferenceSplit(p + [c], border);
    SplitSnoc(p, c, |p| - Run(p, border));
  }

  lemma {:induction false} ReferenceSolid(p: string, c: char, border: char -> bool)
    requires !(Soft(c) && !Open(p, border))
    ensures Reference(p + [c], border) == Reference(p, border) + [c]
  {
    AppendOpens(p, c, border);
    Snoc(p, c);
  }

  /** One more soft character changes the run's replacement the way the machine changes its output. */
  lemma {:induction false} FeedSoft(m: Machine, c: char, border: char -> bool, before: string, run: string,
                                    leading: bool)
    requires Soft(c) && !border(c) && !m.inString
    requires m.out == before + Replacement(run, leading) && (leading ==> before == [])
    requires m.inSpace == (run != [] || leading)
    ensures Feed(m, c, border).out == before + Replacement(run + [c], leading)
  {
    if c == '=' {
      assert '=' in run + [c];
      if run != [] && |Replacement(run, leading)| == 1 {
        assert m.out[..|m.out| - 1] == before;
      } else {
        assert before + "" == before;
      }
    } else if run != [] {
      assert (run + [c])[0] == run[0];
      assert '=' in run + [c] <==> '=' in run;
    } else {
      assert run + [c] == [c];
      assert before + "" == before;
    }
  }

  /** The machine after s: its output is the intended result, and its flags say where s ends. */
  ghost predicate Agrees(s: string, border: char -> bool) {
    var m := Trim(s, border);
    && m.out == Reference(s, border)
    && m.inString == Open(s, border)
    && m.inSpace == (s == [] || SoftLast(s, border))
  }

  /** The state machine computes the intended result. */
  lemma {:induction false} TrimIsReference(s: string, border: char -> bool)
    requires GoodBorder(border)
    ensures Agrees(s, border)
    decreases |s|
  {
    if s != [] {
      var p, c := s[..|s| - 1], s[|s| - 1];
      TrimIsReference(p, border);
      AgreesStep(p, c, border);
      assert s == p + [c];
    }
  }

  lemma {:induction false} AgreesStep(p: string, c: char, border: char -> bool)
    requires GoodBorder(border) && Agrees(p, border)
    ensures Agrees(p + [c], border)
  {
    AppendFeeds(p, c, border);
    AppendOpens(p, c, border);
    var m, m' := Trim(p, border), Trim(p + [c], border);
    if Soft(c) && !Open(p, border) {
      SoftCase(p, c, border);
    } else {
      ReferenceSolid(p, c, border);
      assert m'.out == m.out + [c];
    }
  }

  lemma {:induction false} SoftCase(p: string, c: char, border: char -> bool)
    requires GoodBorder(border) && Soft(c) && !Open(p, border) && Agrees(p, border)
    ensures Feed(Trim(p, border), c, border).out == Reference(p + [c], border)
  {
    var base := |p| - Run(p, border);
    var before, run := Reference(p[..base], border), p[base..];
    ReferenceSplit(p, border);
    RunEnds(p, border);
    FeedSoft(Trim(p, border), c, border, before, run, base == 0);
    ReferenceSoft(p, c, border);
  }

  /** The last run is empty exactly when the text ends with another character, or is empty. */
  lemma {:induction false} RunEnds(p: string, border: char -> bool)
    ensures var base := |p| - Run(p, border);
            && (p[base..] != [] <==> SoftLast(p, border))
            && (base == 0 ==> Reference(p[..base], border) == [])
            && (base == 0 && p[base..] == [] ==> p == [])
  {
    assert p[..0] == [];
  }

  // ---- What the result looks like ----

  /** c may follow p: outside quotes, no blank at the front and no soft character after another. */
  predicate Fits(p: string, c: char, border: char -> bool) {
    Soft(c) && !Open(p, border) ==> if p == [] then !Blank(c) else !SoftLast(p, border)
  }

  predicate Tight(s: string, border: char -> bool) {
    s == [] || (Tight(s[..|s| - 1], border) && Fits(s[..|s| - 1], s[|s| - 1], border))
  }

  /**
   What tightness says of every position: outside quotes there is no leading blank, no two
   adjacent blanks, no blank next to an equal sign and no two adjacent equal signs.
   */
  lemma {:induction false} TightMeans(s: string, border: char -> bool, k: nat)
    requires Tight(s, border) && k < |s| && Soft(s[k]) && !Open(s[..k], border)
    ensures k == 0 ==> !Blank(s[0])
    ensures k > 0 ==> !(Soft(s[k - 1]) && !Open(s[..k - 1], border))
  {
    var n := |s| - 1;
    if k < n {
      assert s[..n][..k] == s[..k] && (k > 0 ==> s[..n][..k - 1] == s[..k - 1]);
      TightMeans(s[..n], border, k);
    } else if k > 0 {
      assert s[..n][..n - 1] == s[..k - 1];
    }
  }

  lemma {:induction false} TightAppend(p: string, c: char, border: char -> bool)
    ensures Tight(p + [c], border) == (Tight(p, border) && Fits(p, c, border))
  {
    Snoc(p, c);
  }

  /** The result is tight, and the machine's flags describe its end. */
  lemma {:induction false} ResultIsTight(s: string, border: char -> bool)
    requires GoodBorder(border)
    ensures Sound(Trim(s, border), border)
    decreases |s|
  {
    if s != [] {
      var p, c := s[..|s| - 1], s[|s| - 1];
      ResultIsTight(p, border);
      assert s == p + [c];
      AppendFeeds(p, c, border);
      FeedKeepsTight(Trim(p, border), c, border);
    }
  }

  /** The machine's flags describe the end of its output, which is tight. */
  ghost predicate Sound(m: Machine, border: char -> bool) {
    && Tight(m.out, border)
    && m.inString == Open(m.out, border)
    && m.inSpace == (m.out == [] || SoftLast(m.out, border))
  }

  /** A character that is simply copied. */
  lemma {:induction false} CopyKeepsTight(m: Machine, c: char, border: char -> bool)
    requires Sound(m, border) && Fits(m.out, c, border)
    ensures Sound(Machine(m.out + [c], m.inString != border(c), Soft(c) && !m.inString), border)
  {
    AppendOpens(m.out, c, border);
    TightAppend(m.out, c, border);
  }

  lemma {:induction false} FeedCopies(m: Machine, c: char, border: char -> bool)
    requires GoodBorder(border)
    requires m.inString ==> !m.inSpace
    requires !(Soft(c) && !m.inString && m.inSpace && (Blank(c) || m.out != []))
    ensures Feed(m, c, border) == Machine(m.out + [c], m.inString != border(c), Soft(c) && !m.inString)
  {
  }

  lemma {:induction false} FeedKeepsTight(m: Machine, c: char, border: char -> bool)
    requires GoodBorder(border) && Sound(m, border)
    ensures Sound(Feed(m, c, border), border)
  {
    NoSpaceInString(m, border);
    if Soft(c) && !m.inString && m.inSpace && Blank(c) {
      assert Feed(m, c, border) == m;
    } else if Soft(c) && !m.inString && m.inSpace && m.out != [] {
      EqualReplaces(m.out, border);
    } else {
      FeedCopies(m, c, border);
      CopyKeepsTight(m, c, border);
    }
  }

  lemma {:induction false} NoSpaceInString(m: Machine, border: char -> bool)
    requires GoodBorder(border) && Sound(m, border)
    ensures m.inString ==> !m.inSpace
  {
  }

  /** An equal sign written over the soft character at the end. */
  lemma {:induction false} EqualReplaces(out: string, border: char -> bool)
    requires GoodBorder(border) && Tight(out, border) && SoftLast(out, border)
    ensures var r := out[..|out| - 1] + ['='];
            Tight(r, border) && Open(r, border) == Open(out, border) && SoftLast(r, border)
  {
    var shorter, last := out[..|out| - 1], out[|out| - 1];
    assert out == shorter + [last];
    AppendOpens(shorter, last, border);
    TightAppend(shorter, last, border);
    AppendOpens(shorter, '=', border);
    TightAppend(shorter, '=', border);
  }

  /** A tight text is left as it is. */
  lemma {:induction false} TightIsFixed(s: string, border: char -> bool)
    requires GoodBorder(border) && Tight(s, border)
    ensures Trim(s, border).out == s
    decreases |s|
  {
    if s != [] {
      var p, c := s[..|s| - 1], s[|s| - 1];
      assert s == p + [c];
      TightIsFixed(p, border);
      TrimIsReference(p, border);
      AppendFeeds(p, c, border);
    }
  }

  /** Trimming twice is trimming once. */
  lemma {:induction false} TrimIsIdempotent(s: string, border: char -> bool)
    requires GoodBorder(border)
    ensures Trim(Trim(s, border).out, border).out == Trim(s, border).out
  {
    ResultIsTight(s, border);
    TightIsFixed(Trim(s, border).out, border);
  }

  /** The characters that are not soft or are quoted, in order. */
  function Solid(s: string, border: char -> bool): string {
    if s == [] then [] else Solid(s[..|s| - 1], border) + (if SoftLast(s, border) then [] else [s[|s| - 1]])
  }

  lemma {:induction false} SolidAppend(s: string, c: char, border: char -> bool)
    ensures Solid(s + [c], border) == Solid(s, border) + (if Soft(c) && !Open(s, border) then [] else [c])
  {
    Snoc(s, c);
    AppendOpens(s, c, border);
  }

  /** Quoted text, quotes and all other ordinary characters come through verbatim and in order. */
  lemma {:induction false} SolidIsKept(s: string, border: char -> bool)
    requires GoodBorder(border)
    ensures Solid(Trim(s, border).out, border) == Solid(s, border)
    decreases |s|
  {
    if s == [] {
      assert Trim(s, border).out == [];
    } else {
      var p, c := s[..|s| - 1], s[|s| - 1];
      assert s == p + [c] by { Rejoin(s); }
      SolidIsKept(p, border);
      SolidStep(p, c, border);
    }
  }

  lemma {:induction false} Rejoin(s: string)
    requires s != []
    ensures s == s[..|s| - 1] + [s[|s| - 1]]
  {
  }

  lemma {:induction false} SolidStep(p: string, c: char, border: char -> bool)
    requires GoodBorder(border)
    requires Solid(Trim(p, border).out, border) == Solid(p, border)
    ensures Solid(Trim(p + [c], border).out, border) == Solid(p + [c], border)
  {
    ResultIsTight(p, border);
    TrimIsReference(p, border);
    AppendFeeds(p, c, border);
    SolidAppend(p, c, border);
    FeedKeepsSolid(Trim(p, border), c, border);
  }

  lemma {:induction false} FeedKeepsSolid(m: Machine, c: char, border: char -> bool)
    requires GoodBorder(border) && m.inString == Open(m.out, border)
    requires m.inSpace == (m.out == [] || SoftLast(m.out, border))
    ensures Solid(Feed(m, c, border).out, border)
            == Solid(m.out, border) + (if Soft(c) && !m.inString then [] else [c])
  {
    SolidAppend(m.out, c, border);
    if !border(c) && !m.inString && c == '=' && m.inSpace && m.out != [] {
      SolidReplaced(m.out, border);
    }
  }

  lemma {:induction false} SolidReplaced(out: string, border: char -> bool)
    requires GoodBorder(border) && SoftLast(out, border)
    ensures Solid(out[..|out| - 1] + ['='], border) == Solid(out, border)
  {
    var shorter, last := out[..|out| - 1], out[|out| - 1];
    assert out == shorter + [last];
    SolidAppend(shorter, last, border);
    AppendOpens(shorter, last, border);
    SolidAppend(shorter, '=', border);
  }
}
