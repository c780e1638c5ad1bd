/**
 The intrusive circular doubly linked list. A list is a head node and the sequence of
 the nodes linked after it; every operation rewires next and prev of at most five nodes.
 */
module LinkedList {

  class Node {
    var next: Node?
    var prev: Node?

    /** INIT_LIST_HEAD: a node alone is an empty list. */
    constructor ()
      ensures IsList(this, [])
    {
      next := this;
      prev := this;
    }
  }

  /** The nodes of r point at each other, in order and around the end: next and prev are mutual inverses. */
  ghost predicate Ring(r: seq<Node>)
    reads r
  {
    && |r| > 0
    && (forall i, j :: 0 <= i < j < |r| ==> r[i] != r[j])
    && (forall i {:trigger r[i].next} :: 0 <= i < |r| - 1 ==> r[i].next == r[i + 1])
    && (forall i {:trigger r[i].prev} :: 1 <= i < |r| ==> r[i].prev == r[i - 1])
    && r[|r| - 1].next == r[0] && r[0].prev == r[|r| - 1]
  }

  ghost predicate IsList(head: Node, s: seq<Node>)
    reads [head] + s
  {
    Ring([head] + s)
  }

  /** __list_add: links a node between two neighbours of a ring. */
  method LinkBetween(node: Node, before: Node, after: Node, ghost r: seq<Node>, ghost k: nat)
    requires Ring(r) && node !in r
    requires 1 <= k <= |r| && before == r[k - 1] && after == r[if k < |r| then k else 0]
    modifies node, before, after
    ensures Ring(r[..k] + [node] + r[k..])
  {
    after.prev := node;
    node.next := after;
    node.prev := before;
    before.next := node;
    ghost var r' := r[..k] + [node] + r[k..];
    assert forall i :: 0 <= i < k ==> r'[i] == r[i];
    assert r'[k] == node;
    assert forall i :: k < i < |r'| ==> r'[i] == r[i - 1];
  }

  /** list_add: the new node becomes the first. */
  method Add(node: Node, head: Node, ghost s: seq<Node>)
    requires IsList(head, s) && node !in [head] + s
    modifies node, head, head.next
    ensures IsList(head, [node] + s)
  {
    ghost var r := [head] + s;
    assert head == r[0];
    LinkBetween(node, head, head.next, r, 1);
    assert r[..1] + [node] + r[1..] == [head] + ([node] + s);
  }

  /** list_add_tail: the new node becomes the last. */
  method AddTail(node: Node, head: Node, ghost s: seq<Node>)
    requires IsList(head, s) && node !in [head] + s
    modifies node, head, head.prev
    ensures IsList(head, s + [node])
  {
    ghost var r := [head] + s;
    assert head == r[0];
    LinkBetween(node, head.prev, head, r, |r|);
    assert r[..|r|] + [node] + r[|r|..] == [head] + (s + [node]);
  }

  /** __list_del: makes the two neighbours of a node point at each other. */
  method Unlink(before: Node, after: Node, ghost r: seq<Node>, ghost k: nat)
    requires Ring(r) && 1 <= k < |r|
    requires before == r[k - 1] && after == r[if k + 1 < |r| then k + 1 else 0]
    modifies before, after
    ensures Ring(r[..k] + r[k + 1..])
  {
    after.prev := before;
    before.next := after;
  }

  function Without(s: seq<Node>, i: nat): seq<Node>
    requires i < |s|
  {
    s[..i] + s[i + 1..]
  }

  /** __list_del on an entry of a list. */
  method Remove(entry: Node, ghost head: Node, ghost s: seq<Node>, ghost i: nat)
    requires IsList(head, s) && i < |s| && s[i] == entry
    modifies entry.prev, entry.next
    ensures IsList(head, Without(s, i))
    ensures entry !in [head] + Without(s, i)
  {
    ghost var r := [head] + s;
    ghost var k := i + 1;
    assert r[k] == entry;
    Unlink(entry.prev, entry.next, r, k);
    assert r[..k] + r[k + 1..] == [head] + Without(s, i);
  }

  /** list_del: the entry leaves the list and points nowhere. */
  method Del(entry: Node, ghost head: Node, ghost s: seq<Node>, ghost i: nat)
    requires IsList(head, s) && i < |s| && s[i] == entry
    modifies entry, entry.prev, entry.next
    ensures IsList(head, Without(s, i))
    ensures entry.next == null && entry.prev == null
  {
    Remove(entry, head, s, i);
    entry.next := null;
    entry.prev := null;
  }

  /** list_del_init: the entry leaves the list and is an empty list itself. */
  method DelInit(entry: Node, ghost head: Node, ghost s: seq<Node>, ghost i: nat)
    requires IsList(head, s) && i < |s| && s[i] == entry
    modifies entry, entry.prev, entry.next
    ensures IsList(head, Without(s, i)) && IsList(entry, [])
  {
    Remove(entry, head, s, i);
    entry.next := entry;
    entry.prev := entry;
  }

  /** No node is in both rings. */
  ghost predicate Disjoint(r: seq<Node>, t: seq<Node>) {
    forall i, j :: 0 <= i < |r| && 0 <= j < |t| ==> r[i] != t[j]
  }

  lemma DisjointGrows(r: seq<Node>, head: Node, t: seq<Node>, x: Node)
    requires Disjoint(r, [head] + t) && x !in r
    ensures Disjoint(r, [head] + ([x] + t)) && Disjoint(r, [head] + (t + [x]))
  {
    var q, front, back := [head] + t, [head] + ([x] + t), [head] + (t + [x]);
    assert forall j :: 0 <= j < |front| ==> front[j] == if j == 0 then q[0] else if j == 1 then x else q[j - 1];
    assert forall j :: 0 <= j < |back| ==> back[j] == if j < |q| then q[j] else x;
  }

  /** What is left of the target list of a move: itself, or itself without the entry when it is the same list. */
  ghost function Target(from: Node, s: seq<Node>, i: nat, head: Node, t: seq<Node>): seq<Node>
    requires i < |s|
  {
    if from == head then Without(s, i) else t
  }

  lemma DisjointParts(r: seq<Node>, q: seq<Node>, k: nat)
    requires Disjoint(r, q) && k < |r|
    ensures Disjoint(r[..k] + r[k + 1..], q)
  {
  }

  /** __list_del before a move: afterwards the entry is free, and its old list and the target list are lists. */
  method Detach(entry: Node, ghost head: Node, ghost from: Node, ghost s: seq<Node>, ghost i: nat, ghost t: seq<Node>)
    requires IsList(from, s) && i < |s| && s[i] == entry && IsList(head, t)
    requires (from == head && s == t) || Disjoint([from] + s, [head] + t)
    modifies entry.prev, entry.next
    ensures IsList(from, Without(s, i)) && entry !in [from] + Without(s, i)
    ensures IsList(head, Target(from, s, i, head, t)) && entry !in [head] + Target(from, s, i, head, t)
    ensures from != head ==> Disjoint([from] + Without(s, i), [head] + t)
    ensures head.next == old(head.next) || head.next == old(entry.next)
    ensures head.prev == old(head.prev) || head.prev == old(entry.prev)
  {
    ghost var r, q := [from] + s, [head] + t;
    assert r[0] == from && r[i + 1] == entry && q[0] == head;
    Remove(entry, from, s, i);
    ghost var r' := [from] + Without(s, i);
    assert r'[0] == from;
    if from != head {
      DisjointParts(r, q, i + 1);
      assert r[..i + 1] + r[i + 2..] == r';
      assert Ring(q);
    }
  }

  /** list_move: the entry becomes the first of the target list, which may be its own. */
  method Move(entry: Node, head: Node, ghost from: Node, ghost s: seq<Node>, ghost i: nat, ghost t: seq<Node>)
    requires IsList(from, s) && i < |s| && s[i] == entry && IsList(head, t)
    requires (from == head && s == t) || Disjoint([from] + s, [head] + t)
    modifies entry, entry.prev, entry.next, head, head.next
    ensures IsList(head, [entry] + Target(from, s, i, head, t))
    ensures from != head ==> IsList(from, Without(s, i)) && Disjoint([from] + Without(s, i), [head] + ([entry] + t))
  {
    Detach(entry, head, from, s, i, t);
    if from != head {
      DisjointGrows([from] + Without(s, i), head, t, entry);
    }
    Add(entry, head, Target(from, s, i, head, t));
  }

  /** list_move_tail: the entry becomes the last of the target list, which may be its own. */
  method MoveTail(entry: Node, head: Node, ghost from: Node, ghost s: seq<Node>, ghost i: nat, ghost t: seq<Node>)
    requires IsList(from, s) && i < |s| && s[i] == entry && IsList(head, t)
    requires (from == head && s == t) || Disjoint([from] + s, [head] + t)
    modifies entry, entry.prev, entry.next, head, head.prev
    ensures IsList(head, Target(from, s, i, head, t) + [entry])
    ensures from != head ==> IsList(from, Without(s, i)) && Disjoint([from] + Without(s, i), [head] + (t + [entry]))
  {
    Detach(entry, head, from, s, i, t);
    if from != head {
      DisjointGrows([from] + Without(s, i), head, t, entry);
    }
    AddTail(entry, head, Target(from, s, i, head, t));
  }

  method IsEmpty(head: Node, ghost s: seq<Node>) returns (empty: bool)
    requires IsList(head, s)
    ensures empty <==> s == []
  {
    ghost var r := [head] + s;
    assert r[0] == head;
    empty := head.next == head;
  }

  /** __list_splice: the whole of one non-empty list goes in front of another. */
  method SpliceRing(list: Node, head: Node, ghost s: seq<Node>, ghost t: seq<Node>)
    requires IsList(list, s) && IsList(head, t) && Disjoint([list] + s, [head] + t) && s != []
    modifies head, list.next, list.prev, head.next
    ensures IsList(head, s + t)
    ensures list !in [head] + (s + t)
  {
    ghost var r, q := [list] + s, [head] + t;
    assert r[0] == list && q[0] == head && r[1] == s[0] && r[|r| - 1] == s[|s| - 1];
    var first := list.next;
    var last := list.prev;
    var at := head.next;
    first.prev := head;
    head.next := first;
    last.next := at;
    at.prev := last;
    ghost var w := [head] + (s + t);
    assert forall i :: 0 <= i < |w| ==> w[i] == if i == 0 then head else if i <= |s| then r[i] else q[i - |s|];
  }

  /** list_splice_init: prepends the whole list and leaves its head an empty list. */
  method SpliceInit(list: Node, head: Node, ghost s: seq<Node>, ghost t: seq<Node>)
    requires IsList(list, s) && IsList(head, t) && Disjoint([list] + s, [head] + t)
    modifies list, head, list.next, list.prev, head.next
    ensures IsList(head, s + t) && IsList(list, []) && Disjoint([list], [head] + (s + t))
  {
    var empty := IsEmpty(list, s);
    if !empty {
      SpliceRing(list, head, s, t);
      list.next := list;
      list.prev := list;
    } else {
      assert s + t == t;
    }
  }

  // ---- Iteration ----

  /** The nodes that a pass leaves in the list. */
  function Kept(s: seq<Node>, doomed: seq<bool>): seq<Node>
    requires |doomed| == |s|
  {
    if s == [] then []
    else Kept(s[..|s| - 1], doomed[..|s| - 1]) + (if doomed[|s| - 1] then [] else [s[|s| - 1]])
  }

  /**
   list_for_each_safe with a body that deletes the current entry whenever it is doomed: every
   original node is visited once, in order, and exactly the others remain.
   */
  method ForEachSafe(head: Node, doomed: seq<bool>, ghost s: seq<Node>, ghost nodes: set<Node>)
    returns (visited: seq<Node>)
    requires IsList(head, s) && |doomed| == |s| && nodes == NodesOf(head, s)
    modifies nodes
    ensures visited == s
    ensures IsList(head, Kept(s, doomed))
  {
    visited := [];
    ghost var k: nat := 0;
    Entrance(head, s);
    KeptAtEnds(s, doomed);
    var pos: Node := head.next;
    var n: Node := pos.next;
    while pos != head
      invariant At(head, s, doomed, k, pos, n) && visited == s[..k]
      decreases |s| - k
    {
      TakeOne(s, k);
      visited := visited + [pos];
      Visit(pos, head, doomed[|visited| - 1], doomed, s, k, nodes);
      k := k + 1;
      pos := n;
      NextAfter(head, Kept(s[..k], doomed[..k]), s, k);
      n := pos.next;
    }
    assert k == |s|;
  }

  lemma KeptAtEnds(s: seq<Node>, doomed: seq<bool>)
    requires |doomed| == |s|
    ensures Kept(s[..0], doomed[..0]) + s[0..] == s && s[..0] == []
    ensures Kept(s[..|s|], doomed[..|s|]) + s[|s|..] == Kept(s, doomed) && s[..|s|] == s
  {
    assert s[..|s|] == s && doomed[..|s|] == doomed;
  }

  /** The loop stands before the k-th original node: what was visited is settled, the rest untouched. */
  ghost predicate At(head: Node, s: seq<Node>, doomed: seq<bool>, k: nat, pos: Node, n: Node)
    requires |doomed| == |s|
    reads NodesOf(head, s), if k <= |s| then [head] + (Kept(s[..k], doomed[..k]) + s[k..]) else []
  {
    && k <= |s|
    && IsList(head, Kept(s[..k], doomed[..k]) + s[k..])
    && head !in s
    && pos == (if k < |s| then s[k] else head)
    && (k < |s| ==> n == if k + 1 < |s| then s[k + 1] else head)
  }

  lemma Entrance(head: Node, s: seq<Node>)
    requires IsList(head, s)
    ensures head !in s
    ensures head.next == (if s == [] then head else s[0])
    ensures s != [] ==> s[0].next == if |s| > 1 then s[1] else head
  {
    var r := [head] + s;
    assert r[0] == head && forall i :: 0 <= i < |s| ==> s[i] == r[i + 1];
  }

  lemma TakeOne(s: seq<Node>, k: nat)
    requires k < |s|
    ensures s[..k] + [s[k]] == s[..k + 1]
  {
  }

  ghost function NodesOf(head: Node, s: seq<Node>): set<Node> {
    {head} + set x | x in s
  }

  /** The loop body at the k-th original node. */
  method Visit(pos: Node, head: Node, doom: bool, ghost doomed: seq<bool>, ghost s: seq<Node>, ghost k: nat,
               ghost nodes: set<Node>)
    requires |doomed| == |s| && k < |s| && doom == doomed[k] && pos == s[k] && nodes == NodesOf(head, s)
    requires IsList(head, Kept(s[..k], doomed[..k]) + s[k..])
    modifies nodes
    ensures IsList(head, Kept(s[..k + 1], doomed[..k + 1]) + s[k + 1..])
  {
    ghost var kept := Kept(s[..k], doomed[..k]);
    OneMoreKept(s, doomed, k);
    ghost var now := kept + s[k..];
    assert now[|kept|] == pos;
    if doom {
      KeptIsPart(s[..k], doomed[..k]);
      NeighboursInside(head, now, |kept|, nodes);
      DelInit(pos, head, now, |kept|);
      assert Without(now, |kept|) == kept + s[k + 1..];
      assert kept + [] == kept;
    } else {
      assert (kept + [pos]) + s[k + 1..] == now;
    }
  }

  lemma NeighboursInside(head: Node, now: seq<Node>, i: nat, nodes: set<Node>)
    requires IsList(head, now) && i < |now| && head in nodes && forall x :: x in now ==> x in nodes
    ensures now[i] in nodes && now[i].prev in nodes && now[i].next in nodes
  {
    var ring := [head] + now;
    assert ring[i + 1] == now[i];
    assert forall j :: 0 <= j < |ring| ==> ring[j] in nodes;
  }

  /** What follows the kept nodes is the rest of the original list. */
  lemma NextAfter(head: Node, kept: seq<Node>, s: seq<Node>, k: nat)
    requires k <= |s| && IsList(head, kept + s[k..])
    ensures head.next != null
    ensures k < |s| ==> s[k].next == (if k + 1 < |s| then s[k + 1] else head)
  {
    var ring := [head] + (kept + s[k..]);
    assert ring[0] == head;
    if k < |s| {
      assert ring[|kept| + 1] == s[k];
      assert k + 1 < |s| ==> ring[|kept| + 2] == s[k + 1];
    }
  }

  lemma {:induction false} KeptIsPart(s: seq<Node>, doomed: seq<bool>)
    requires |doomed| == |s|
    ensures forall x :: x in Kept(s, doomed) ==> x in s
  {
    if s != [] {
      KeptIsPart(s[..|s| - 1], doomed[..|s| - 1]);
    }
  }

  lemma OneMoreKept(s: seq<Node>, doomed: seq<bool>, k: nat)
    requires |doomed| == |s| && k < |s|
    ensures Kept(s[..k + 1], doomed[..k + 1]) == Kept(s[..k], doomed[..k]) + (if doomed[k] then [] else [s[k]])
  {
    assert s[..k + 1][..k] == s[..k] && doomed[..k + 1][..k] == doomed[..k];
  }

  // ---- Walks ----

  ghost function Forward(n: Node, k: nat, nodes: set<Node>): Node?
    reads nodes
  {
    if k == 0 then n
    else if n !in nodes || n.next == null then null
    else Forward(n.next, k - 1, nodes)
  }

  ghost function Backward(n: Node, k: nat, nodes: set<Node>): Node?
    reads nodes
  {
    if k == 0 then n
    else if n !in nodes || n.prev == null then null
    else Backward(n.prev, k - 1, nodes)
  }

  lemma {:induction false} ForwardFrom(r: seq<Node>, i: nat, k: nat)
    requires Ring(r) && i < |r| && i + k <= |r|
    ensures Forward(r[i], k, set x | x in r) == if i + k < |r| then r[i + k] else r[0]
    decreases k
  {
    if k > 0 && i + 1 < |r| {
      ForwardFrom(r, i + 1, k - 1);
    }
  }

  lemma {:induction false} BackwardFrom(r: seq<Node>, i: nat, k: nat)
    requires Ring(r) && i < |r| && k <= i
    ensures Backward(r[i], k, set x | x in r) == r[i - k]
    decreases k
  {
    if k > 0 {
      BackwardFrom(r, i - 1, k - 1);
    }
  }

  /** Walking forward from the head meets the list in order, walking backward meets it in reverse, and both return. */
  lemma WalksAreReverses(head: Node, s: seq<Node>, k: nat)
    requires IsList(head, s) && 1 <= k <= |s| + 1
    ensures var nodes := set x | x in [head] + s;
            && Forward(head, k, nodes) == (if k <= |s| then s[k - 1] else head)
            && Backward(head, k, nodes) == (if k <= |s| then s[|s| - k] else head)
  {
    var r := [head] + s;
    assert r[0] == head;
    ForwardFrom(r, 0, k);
    BackwardFrom(r, |r| - 1, k - 1);
  }
}
