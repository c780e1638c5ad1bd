/** Counting the elements of a sequence, and gathering what they hold, and how updates change the result. */
module Counting {
  import opened Arithmetic

  ghost function Count<T>(s: seq<T>, p: T -> bool): nat {
    if s == [] then 0 else Count(s[..|s| - 1], p) + (if p(s[|s| - 1]) then 1 else 0)
  }

  lemma {:induction false} CountUpdate<T>(s: seq<T>, i: nat, x: T, p: T -> bool)
    requires i < |s|
    ensures Count(s[i := x], p) + (if p(s[i]) then 1 else 0) == Count(s, p) + (if p(x) then 1 else 0)
  {
    var n := |s| - 1;
    if i < n {
      CountUpdate(s[..n], i, x, p);
      assert s[i := x][..n] == s[..n][i := x];
    } else {
      assert s[i := x][..n] == s[..n];
    }
  }

  lemma CountAppend<T>(s: seq<T>, x: T, p: T -> bool)
    ensures Count(s + [x], p) == Count(s, p) + (if p(x) then 1 else 0)
  {
    assert (s + [x])[..|s|] == s;
  }

  lemma {:induction false} CountPositive<T>(s: seq<T>, i: nat, p: T -> bool)
    requires i < |s| && p(s[i])
    ensures Count(s, p) > 0
  {
    if i < |s| - 1 {
      CountPositive(s[..|s| - 1], i, p);
    }
  }

  lemma {:induction false} CountZero<T>(s: seq<T>, p: T -> bool)
    requires Count(s, p) == 0
    ensures forall i :: 0 <= i < |s| ==> !p(s[i])
  {
    if s != [] {
      CountZero(s[..|s| - 1], p);
    }
  }

  lemma {:induction false} CountAtMost<T>(s: seq<T>, p: T -> bool)
    ensures Count(s, p) <= |s|
    ensures Count(s, p) == |s| ==> forall i :: 0 <= i < |s| ==> p(s[i])
  {
    if s != [] {
      CountAtMost(s[..|s| - 1], p);
    }
  }

  // ---- The same with multisets instead of numbers ----

  /** What the elements of a sequence contribute together. */
  ghost function Gather<T, U>(s: seq<T>, f: T -> multiset<U>): multiset<U> {
    if s == [] then multiset{} else Gather(s[..|s| - 1], f) + f(s[|s| - 1])
  }

  lemma GatherAppend<T, U>(s: seq<T>, x: T, f: T -> multiset<U>)
    ensures Gather(s + [x], f) == Gather(s, f) + f(x)
  {
    assert (s + [x])[..|s|] == s;
  }

  lemma {:induction false} GatherUpdate<T, U>(s: seq<T>, i: nat, x: T, f: T -> multiset<U>)
    requires i < |s|
    ensures Gather(s[i := x], f) + f(s[i]) == Gather(s, f) + f(x)
  {
    var n := |s| - 1;
    var p, y := s[..n], s[n];
    assert s == p + [y];
    GatherAppend(p, y, f);
    if i < n {
      assert s[i := x] == p[i := x] + [y] && p[i] == s[i];
      GatherAppend(p[i := x], y, f);
      GatherUpdate(p, i, x, f);
      SwapSum(Gather(p[i := x], f), f(y), f(s[i]));
      SwapSum(Gather(p, f), f(y), f(x));
    } else {
      assert s[i := x] == p + [x];
      GatherAppend(p, x, f);
      SwapSum(Gather(p, f), f(x), f(y));
    }
  }

  /** One element apart from the others. */
  lemma {:induction false} GatherApart<T, U>(a: seq<T>, x: T, b: seq<T>, f: T -> multiset<U>)
    ensures Gather(a + [x] + b, f) == Gather(a + b, f) + f(x)
  {
    if b == [] {
      assert a + [x] + b == a + [x] && a + b == a;
      GatherAppend(a, x, f);
    } else {
      var c, y := b[..|b| - 1], b[|b| - 1];
      GatherApart(a, x, c, f);
      assert a + [x] + b == (a + [x] + c) + [y] && a + b == (a + c) + [y];
      GatherAppend(a + [x] + c, y, f);
      GatherAppend(a + c, y, f);
      SwapSum(Gather(a + c, f), f(x), f(y));
    }
  }

  lemma {:induction false} GatherSame<T, U>(s: seq<T>, f: T -> multiset<U>, g: T -> multiset<U>)
    requires forall i :: 0 <= i < |s| ==> f(s[i]) == g(s[i])
    ensures Gather(s, f) == Gather(s, g)
  {
    if s != [] {
      GatherSame(s[..|s| - 1], f, g);
    }
  }

  lemma {:induction false} GatherHas<T, U>(s: seq<T>, i: nat, f: T -> multiset<U>)
    requires i < |s|
    ensures f(s[i]) <= Gather(s, f)
  {
    if i < |s| - 1 {
      GatherHas(s[..|s| - 1], i, f);
    }
  }

  lemma {:induction false} GatherNothing<T, U>(s: seq<T>, f: T -> multiset<U>)
    requires forall i :: 0 <= i < |s| ==> f(s[i]) == multiset{}
    ensures Gather(s, f) == multiset{}
  {
    if s != [] {
      GatherNothing(s[..|s| - 1], f);
    }
  }
}
