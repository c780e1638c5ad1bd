/** Reading and printing the character fields of a fragment: decimal numbers and terminated strings. */
module Numerals {
  import opened Reassembly

  // ---- Numbers ----

  predicate AllDigits(s: string) {
    forall i :: 0 <= i < |s| ==> '0' <= s[i] <= '9'
  }

  lemma {:induction false} DigitsAppend(s: string, c: char, acc: nat)
    requires AllDigits(s) && '0' <= c <= '9'
    ensures Digits(s + [c], acc) == 10 * Digits(s, acc) + (c as nat - '0' as nat)
    decreases |s|
  {
    if s == [] {
      assert s + [c] == [c];
      assert [c][1..] == [];
    } else {
      assert (s + [c])[1..] == s[1..] + [c];
      DigitsAppend(s[1..], c, 10 * acc + (s[0] as nat - '0' as nat));
    }
  }

  /** Printing and reading a number are inverses. */
  lemma {:induction false} DecimalRoundTrip(n: nat, width: nat)
    requires n < Pow10(width)
    ensures AllDigits(Decimal(n, width)) && Digits(Decimal(n, width), 0) == n
  {
    if width > 0 {
      DecimalRoundTrip(n / 10, width - 1);
      var c := '0' + (n % 10) as char;
      assert '0' <= c <= '9' && c as nat - '0' as nat == n % 10;
      DigitsAppend(Decimal(n / 10, width - 1), c, 0);
    }
  }

  lemma FourDigits(n: nat)
    requires n <= 9999
    ensures Atoi(Decimal(n, 4)) == n
  {
    assert Pow10(4) == 10 * Pow10(3) == 100 * Pow10(2) == 1000 * Pow10(1) == 10000 * Pow10(0);
    DecimalRoundTrip(n, 4);
    var s := Decimal(n, 4);
    assert '0' <= s[0] <= '9';
  }

  /** A number ends at the first character that is no digit. */
  lemma {:induction false} DigitsStop(s: string, rest: string, acc: nat)
    requires AllDigits(s) && (rest != [] ==> !('0' <= rest[0] <= '9'))
    ensures Digits(s + rest, acc) == Digits(s, acc)
    decreases |s|
  {
    if s == [] {
      assert s + rest == rest;
    } else {
      assert (s + rest)[1..] == s[1..] + rest;
      DigitsStop(s[1..], rest, 10 * acc + (s[0] as nat - '0' as nat));
    }
  }

  predicate AllBlank(s: string) {
    forall i :: 0 <= i < |s| ==> s[i] in [' ', '\t', '\n', '\r', '\U{0B}', '\U{0C}']
  }

  lemma {:induction false} AtoiSkipsBlanks(blanks: string, s: string)
    requires AllBlank(blanks)
    ensures Atoi(blanks + s) == Atoi(s)
    decreases |blanks|
  {
    if blanks == [] {
      assert blanks + s == s;
    } else {
      assert (blanks + s)[0] == blanks[0];
      assert (blanks + s)[1..] == blanks[1..] + s;
      AtoiSkipsBlanks(blanks[1..], s);
    }
  }

  /** Reading a printed number finds it behind any blanks and a sign and before anything but a digit. */
  lemma AtoiReads(blanks: string, sign: string, n: nat, width: nat, rest: string)
    requires AllBlank(blanks) && sign in ["", "+", "-"] && width > 0 && n < Pow10(width)
    requires rest != [] ==> !('0' <= rest[0] <= '9')
    ensures Atoi(blanks + (sign + (Decimal(n, width) + rest))) == if sign == "-" then 0 - (n as int) else n
  {
    var digits := Decimal(n, width);
    AtoiSkipsBlanks(blanks, sign + (digits + rest));
    DecimalRoundTrip(n, width);
    DigitsStop(digits, rest, 0);
    assert (digits + rest)[0] == digits[0] && '0' <= digits[0] <= '9';
    if sign == "" {
      assert sign + (digits + rest) == digits + rest;
    } else {
      assert (sign + (digits + rest))[0] == sign[0] && (sign + (digits + rest))[1..] == digits + rest;
    }
  }

  // ---- Strings ----

  predicate NoTerminator(s: string) {
    forall i :: 0 <= i < |s| ==> s[i] != '\0'
  }

  lemma {:induction false} CStringWhole(s: string)
    requires NoTerminator(s)
    ensures CString(s) == s
  {
    if s != [] {
      CStringWhole(s[1..]);
    }
  }

  /** A character array ends at its terminator. */
  lemma {:induction false} CStringStops(s: string, rest: string)
    requires NoTerminator(s)
    ensures CString(s + ['\0'] + rest) == s
  {
    var t := s + ['\0'] + rest;
    if s == [] {
      assert t[0] == '\0';
    } else {
      assert t[0] == s[0] && t[1..] == s[1..] + ['\0'] + rest;
      CStringStops(s[1..], rest);
    }
  }
}
