/**
 Runs of list operations over any number of disjoint lists: whatever is added, removed, moved
 and spliced, every list on the heap is the sequence that the same operations give on plain
 sequences.
 */
module ListRuns {
  import opened LinkedList

  /** A number of lists by their heads, and the nodes that list_del_init has left as empty lists of their own. */
  datatype World = World(lists: map<Node, seq<Node>>, idle: set<Node>)

  datatype Op =
    | AddOp(node: Node, head: Node)
    | AddTailOp(node: Node, head: Node)
    | DelOp(entry: Node)
    | DelInitOp(entry: Node)
    | MoveOp(entry: Node, head: Node)
    | MoveTailOp(entry: Node, head: Node)
    | SpliceInitOp(list: Node, head: Node)

  /** A sequence without every occurrence of one node. */
  function Minus(s: seq<Node>, x: Node): (r: seq<Node>)
    ensures forall y :: y in r ==> y in s && y != x
    ensures forall y :: y in s && y != x ==> y in r
  {
    if s == [] then [] else (if s[0] == x then [] else [s[0]]) + Minus(s[1..], x)
  }

  function AllMinus(lists: map<Node, seq<Node>>, x: Node): map<Node, seq<Node>> {
    map h | h in lists :: Minus(lists[h], x)
  }

  /** Some list has this entry. */
  ghost predicate Listed(w: World, entry: Node) {
    exists h :: h in w.lists && entry in w.lists[h]
  }

  /** No list has this node, as a head or as an entry. */
  ghost predicate Unlisted(w: World, node: Node) {
    forall h :: h in w.lists ==> node !in NodesOf(h, w.lists[h])
  }

  /** What a caller must see to. */
  ghost predicate Allowed(w: World, op: Op) {
    match op
    case AddOp(node, head) => head in w.lists && Unlisted(w, node)
    case AddTailOp(node, head) => head in w.lists && Unlisted(w, node)
    case DelOp(entry) => Listed(w, entry)
    case DelInitOp(entry) => Listed(w, entry)
    case MoveOp(entry, head) => head in w.lists && Listed(w, entry)
    case MoveTailOp(entry, head) => head in w.lists && Listed(w, entry)
    case SpliceInitOp(list, head) => list in w.lists && head in w.lists && list != head
  }

  /** What an operation does to plain sequences. */
  ghost function Step(w: World, op: Op): World
    requires Allowed(w, op)
  {
    match op
    case AddOp(node, head) => World(w.lists[head := [node] + w.lists[head]], w.idle - {node})
    case AddTailOp(node, head) => World(w.lists[head := w.lists[head] + [node]], w.idle - {node})
    case DelOp(entry) => World(AllMinus(w.lists, entry), w.idle)
    case DelInitOp(entry) => World(AllMinus(w.lists, entry), w.idle + {entry})
    case MoveOp(entry, head) =>
      var rest := AllMinus(w.lists, entry);
      World(rest[head := [entry] + rest[head]], w.idle)
    case MoveTailOp(entry, head) =>
      var rest := AllMinus(w.lists, entry);
      World(rest[head := rest[head] + [entry]], w.idle)
    case SpliceInitOp(list, head) =>
      World(w.lists[head := w.lists[list] + w.lists[head]][list := []], w.idle)
  }

  /** All nodes are among the given ones, no two lists share one, and idle nodes are in no list. */
  ghost predicate Apart(w: World, nodes: set<Node>) {
    && (forall h :: h in w.lists ==> h !in w.lists[h] && NodesOf(h, w.lists[h]) <= nodes)
    && (forall h, k :: h in w.lists && k in w.lists && h != k ==> NodesOf(h, w.lists[h]) !! NodesOf(k, w.lists[k]))
    && w.idle <= nodes
    && (forall n :: n in w.idle ==> Unlisted(w, n))
  }

  /** The given lists and idle nodes lie within the frame and are on the heap what they should be. */
  ghost predicate Linked(w: World, frame: set<Node>)
    reads frame
  {
    && (forall h :: h in w.lists ==> NodesOf(h, w.lists[h]) <= frame && IsList(h, w.lists[h]))
    && (forall n :: n in w.idle ==> n in frame && IsList(n, []))
  }

  ghost predicate Good(w: World, nodes: set<Node>)
    reads nodes
  {
    Apart(w, nodes) && Linked(w, nodes)
  }

  /** Removing the one occurrence of an entry, or nothing. */
  lemma {:induction false} MinusOne(s: seq<Node>, i: nat)
    requires i < |s| && Distinct(s)
    ensures Minus(s, s[i]) == Without(s, i)
  {
    if i == 0 {
      MinusNone(s[1..], s[0]);
    } else {
      assert s[1..][i - 1] == s[i];
      MinusOne(s[1..], i - 1);
      assert Without(s, i) == [s[0]] + Without(s[1..], i - 1);
    }
  }

  lemma {:induction false} MinusNone(s: seq<Node>, x: Node)
    requires x !in s
    ensures Minus(s, x) == s
  {
    if s != [] {
      MinusNone(s[1..], x);
    }
  }

  ghost predicate Distinct(s: seq<Node>) {
    forall j, k :: 0 <= j < k < |s| ==> s[j] != s[k]
  }

  lemma EntriesAreDistinct(h: Node, s: seq<Node>)
    requires IsList(h, s)
    ensures Distinct(s)
  {
    var r := [h] + s;
    assert forall j :: 0 <= j < |s| ==> s[j] == r[j + 1];
  }

  // ---- Steps keep the lists apart ----

  lemma AddKeepsApart(w: World, nodes: set<Node>, node: Node, head: Node, s: seq<Node>)
    requires Apart(w, nodes) && head in w.lists && Unlisted(w, node) && node in nodes
    requires NodesOf(head, s) == NodesOf(head, w.lists[head]) + {node} && head !in s
    ensures Apart(World(w.lists[head := s], w.idle - {node}), nodes)
  {
    var w' := World(w.lists[head := s], w.idle - {node});
    forall n | n in w'.idle ensures Unlisted(w', n) {
      assert Unlisted(w, n);
    }
  }

  lemma DelKeepsApart(w: World, nodes: set<Node>, entry: Node)
    requires Apart(w, nodes) && Listed(w, entry)
    ensures entry in nodes && entry !in w.idle
    ensures var w' := World(AllMinus(w.lists, entry), w.idle);
            Apart(w', nodes) && Unlisted(w', entry) && Apart(w'.(idle := w.idle + {entry}), nodes)
  {
    var w' := World(AllMinus(w.lists, entry), w.idle);
    var home :| home in w.lists && entry in w.lists[home];
    assert entry in NodesOf(home, w.lists[home]);
    forall h | h in w.lists ensures NodesOf(h, w'.lists[h]) == NodesOf(h, w.lists[h]) - {entry} {
      assert h != entry;
    }
    forall n | n in w.idle ensures Unlisted(w', n) {
      assert Unlisted(w, n);
    }
  }

  /** In the model, moving is removing and adding. */
  lemma MoveKeepsApart(w: World, nodes: set<Node>, entry: Node, head: Node, s: seq<Node>)
    requires Apart(w, nodes) && Listed(w, entry) && head in w.lists
    requires var rest := Minus(w.lists[head], entry); s == [entry] + rest || s == rest + [entry]
    ensures Apart(World(AllMinus(w.lists, entry)[head := s], w.idle), nodes)
  {
    DelKeepsApart(w, nodes, entry);
    var w1 := World(AllMinus(w.lists, entry), w.idle);
    assert w1.idle - {entry} == w.idle;
    AddKeepsApart(w1, nodes, entry, head, s);
  }

  lemma SpliceKeepsApart(w: World, nodes: set<Node>, list: Node, head: Node)
    requires Apart(w, nodes) && list in w.lists && head in w.lists && list != head
    ensures Apart(Step(w, SpliceInitOp(list, head)), nodes)
  {
    var s, t := w.lists[list], w.lists[head];
    var w' := Step(w, SpliceInitOp(list, head));
    assert NodesOf(head, s + t) == (NodesOf(list, s) - {list}) + NodesOf(head, t);
    forall n | n in w'.idle ensures Unlisted(w', n) {
      assert Unlisted(w, n);
    }
  }

  // ---- Steps on the heap ----

  /** The nodes a list operation may write belong to the list. */
  lemma NeighboursOf(head: Node, s: seq<Node>)
    requires IsList(head, s)
    ensures head.next in NodesOf(head, s) && head.prev in NodesOf(head, s)
    ensures forall i :: 0 <= i < |s| ==> s[i].next in NodesOf(head, s) && s[i].prev in NodesOf(head, s)
  {
    var r := [head] + s;
    assert r[0] == head && forall i :: 0 <= i < |s| ==> s[i] == r[i + 1];
    assert forall j :: 0 <= j < |r| ==> r[j] in NodesOf(head, s);
  }

  lemma ApartIsDisjoint(w: World, nodes: set<Node>, h: Node, k: Node)
    requires Apart(w, nodes) && h in w.lists && k in w.lists && h != k
    ensures Disjoint([h] + w.lists[h], [k] + w.lists[k])
  {
    var r, t := [h] + w.lists[h], [k] + w.lists[k];
    assert forall i :: 0 <= i < |r| ==> r[i] in NodesOf(h, w.lists[h]);
    assert forall i :: 0 <= i < |t| ==> t[i] in NodesOf(k, w.lists[k]);
    assert NodesOf(h, w.lists[h]) !! NodesOf(k, w.lists[k]);
  }

  ghost function Home(w: World, entry: Node): (h: Node)
    requires Listed(w, entry)
    ensures h in w.lists && entry in w.lists[h]
  {
    var h :| h in w.lists && entry in w.lists[h];
    h
  }

  /** The lists an operation changes. */
  ghost function Heads(w: World, op: Op): (hs: set<Node>)
    requires Allowed(w, op)
    ensures hs <= w.lists.Keys
  {
    match op
    case AddOp(_, head) => {head}
    case AddTailOp(_, head) => {head}
    case DelOp(entry) => {Home(w, entry)}
    case DelInitOp(entry) => {Home(w, entry)}
    case MoveOp(entry, head) => {Home(w, entry), head}
    case MoveTailOp(entry, head) => {Home(w, entry), head}
    case SpliceInitOp(list, head) => {list, head}
  }

  /** The nodes an operation may write. */
  ghost function Touched(w: World, op: Op): set<Node>
    requires Allowed(w, op)
  {
    (set h, n | h in Heads(w, op) && n in NodesOf(h, w.lists[h]) :: n)
    + if op.AddOp? || op.AddTailOp? then {op.node} else {}
  }

  method ExecuteAdd(node: Node, head: Node, tail: bool, ghost s: seq<Node>)
    requires IsList(head, s) && node !in [head] + s
    modifies NodesOf(head, s) + {node}
    ensures IsList(head, if tail then s + [node] else [node] + s)
  {
    NeighboursOf(head, s);
    if tail {
      AddTail(node, head, s);
    } else {
      Add(node, head, s);
    }
  }

  method ExecuteDel(entry: Node, init: bool, ghost head: Node, ghost s: seq<Node>)
    requires IsList(head, s) && entry in s
    modifies NodesOf(head, s)
    ensures IsList(head, Minus(s, entry)) && (init ==> IsList(entry, []))
  {
    NeighboursOf(head, s);
    EntriesAreDistinct(head, s);
    ghost var i :| 0 <= i < |s| && s[i] == entry;
    MinusOne(s, i);
    if init {
      DelInit(entry, head, s, i);
    } else {
      Del(entry, head, s, i);
    }
  }

  method ExecuteMove(entry: Node, head: Node, tail: bool, ghost from: Node, ghost s: seq<Node>, ghost t: seq<Node>)
    requires IsList(from, s) && entry in s && IsList(head, t)
    requires (from == head && s == t) || Disjoint([from] + s, [head] + t)
    modifies NodesOf(from, s) + NodesOf(head, t)
    ensures IsList(head, if tail then Minus(t, entry) + [entry] else [entry] + Minus(t, entry))
    ensures from != head ==> IsList(from, Minus(s, entry))
  {
    NeighboursOf(from, s);
    NeighboursOf(head, t);
    EntriesAreDistinct(from, s);
    ghost var i :| 0 <= i < |s| && s[i] == entry;
    MinusOne(s, i);
    if from != head {
      NotInOther(from, s, head, t, i);
      MinusNone(t, entry);
    }
    if tail {
      MoveTail(entry, head, from, s, i, t);
    } else {
      Move(entry, head, from, s, i, t);
    }
  }

  lemma NotInOther(from: Node, s: seq<Node>, head: Node, t: seq<Node>, i: nat)
    requires Disjoint([from] + s, [head] + t) && i < |s|
    ensures s[i] !in t
  {
    var r, q := [from] + s, [head] + t;
    assert r[i + 1] == s[i];
    assert forall j :: 0 <= j < |t| ==> t[j] == q[j + 1];
  }

  method ExecuteSplice(list: Node, head: Node, ghost s: seq<Node>, ghost t: seq<Node>)
    requires IsList(list, s) && IsList(head, t) && Disjoint([list] + s, [head] + t)
    modifies NodesOf(list, s) + NodesOf(head, t)
    ensures IsList(head, s + t) && IsList(list, [])
  {
    NeighboursOf(list, s);
    NeighboursOf(head, t);
    SpliceInit(list, head, s, t);
  }

  /** The operation on the heap: the lists it is about become what the model says. */
  method Execute(op: Op, ghost w: World, ghost nodes: set<Node>)
    requires Good(w, nodes) && Allowed(w, op)
    modifies Touched(w, op)
    ensures forall h :: h in Heads(w, op) ==> IsList(h, Step(w, op).lists[h])
    ensures op.DelInitOp? ==> IsList(op.entry, [])
  {
    match op {
      case AddOp(node, head) =>
        assert node !in NodesOf(head, w.lists[head]);
        ExecuteAdd(node, head, false, w.lists[head]);
      case AddTailOp(node, head) =>
        assert node !in NodesOf(head, w.lists[head]);
        ExecuteAdd(node, head, true, w.lists[head]);
      case DelOp(entry) =>
        ExecuteDel(entry, false, Home(w, entry), w.lists[Home(w, entry)]);
      case DelInitOp(entry) =>
        ExecuteDel(entry, true, Home(w, entry), w.lists[Home(w, entry)]);
      case MoveOp(entry, head) =>
        ghost var from := Home(w, entry);
        if from != head {
          ApartIsDisjoint(w, nodes, from, head);
        }
        ExecuteMove(entry, head, false, from, w.lists[from], w.lists[head]);
      case MoveTailOp(entry, head) =>
        ghost var from := Home(w, entry);
        if from != head {
          ApartIsDisjoint(w, nodes, from, head);
        }
        ExecuteMove(entry, head, true, from, w.lists[from], w.lists[head]);
      case SpliceInitOp(list, head) =>
        ApartIsDisjoint(w, nodes, list, head);
        ExecuteSplice(list, head, w.lists[list], w.lists[head]);
    }
  }

  /** In the model an operation leaves all other lists alone. */
  lemma OthersAreSame(w: World, nodes: set<Node>, op: Op)
    requires Apart(w, nodes) && Allowed(w, op)
    ensures Step(w, op).lists.Keys == w.lists.Keys
    ensures forall h :: h in w.lists && h !in Heads(w, op) ==> Step(w, op).lists[h] == w.lists[h]
  {
    if op.DelOp? || op.DelInitOp? || op.MoveOp? || op.MoveTailOp? {
      var home := Home(w, op.entry);
      forall h | h in w.lists && h != home ensures Minus(w.lists[h], op.entry) == w.lists[h] {
        assert op.entry in NodesOf(home, w.lists[home]);
        assert NodesOf(home, w.lists[home]) !! NodesOf(h, w.lists[h]);
        MinusNone(w.lists[h], op.entry);
      }
    }
  }

  /** On the heap it writes no node of another list, and no idle node but the one it adds. */
  lemma OthersAreUntouched(w: World, nodes: set<Node>, op: Op)
    requires Apart(w, nodes) && Allowed(w, op)
    ensures forall h :: h in w.lists && h !in Heads(w, op) ==> NodesOf(h, w.lists[h]) !! Touched(w, op)
    ensures forall n :: n in w.idle && n in Touched(w, op) ==> n !in Step(w, op).idle
    ensures (op.AddOp? || op.AddTailOp? ==> op.node in nodes) ==> Touched(w, op) <= nodes
  {
    forall h, n | h in w.lists && h !in Heads(w, op) && n in NodesOf(h, w.lists[h]) ensures n !in Touched(w, op) {
      forall k | k in Heads(w, op) ensures n !in NodesOf(k, w.lists[k]) {
        assert NodesOf(h, w.lists[h]) !! NodesOf(k, w.lists[k]);
      }
    }
  }

  lemma StepKeepsApart(w: World, nodes: set<Node>, op: Op)
    requires Apart(w, nodes) && Allowed(w, op)
    requires op.AddOp? || op.AddTailOp? ==> op.node in nodes
    ensures Apart(Step(w, op), nodes)
  {
    match op {
      case AddOp(node, head) => AddKeepsApart(w, nodes, node, head, [node] + w.lists[head]);
      case AddTailOp(node, head) => AddKeepsApart(w, nodes, node, head, w.lists[head] + [node]);
      case DelOp(entry) => DelKeepsApart(w, nodes, entry);
      case DelInitOp(entry) => DelKeepsApart(w, nodes, entry);
      case MoveOp(entry, head) => MoveKeepsApart(w, nodes, entry, head, [entry] + Minus(w.lists[head], entry));
      case MoveTailOp(entry, head) => MoveKeepsApart(w, nodes, entry, head, Minus(w.lists[head], entry) + [entry]);
      case SpliceInitOp(list, head) => SpliceKeepsApart(w, nodes, list, head);
    }
  }

  /** What an operation leaves alone. */
  ghost function Rest(w: World, op: Op): World
    requires Allowed(w, op)
  {
    World(w.lists - Heads(w, op), w.idle - Touched(w, op))
  }

  lemma RestIsLinked(w: World, nodes: set<Node>, op: Op)
    requires Good(w, nodes) && Allowed(w, op)
    ensures Linked(Rest(w, op), nodes - Touched(w, op))
  {
    OthersAreUntouched(w, nodes, op);
  }

  lemma LinkedAgain(w: World, nodes: set<Node>, op: Op)
    requires Apart(w, nodes) && Allowed(w, op) && Apart(Step(w, op), nodes)
    requires Linked(Rest(w, op), nodes - Touched(w, op))
    requires forall h :: h in Heads(w, op) ==> IsList(h, Step(w, op).lists[h])
    requires op.DelInitOp? ==> IsList(op.entry, [])
    ensures Linked(Step(w, op), nodes)
  {
    OthersAreSame(w, nodes, op);
    OthersAreUntouched(w, nodes, op);
    var w' := Step(w, op);
    forall h | h in w'.lists ensures IsList(h, w'.lists[h]) {
      if h !in Heads(w, op) {
        assert h in Rest(w, op).lists;
      }
    }
    forall n | n in w'.idle ensures IsList(n, []) {
      if n in w.idle {
        assert n in Rest(w, op).idle;
      }
    }
  }

  /** One operation keeps every list, changed or not, equal to its model sequence. */
  method Apply(op: Op, ghost w: World, ghost nodes: set<Node>)
    requires Good(w, nodes) && Allowed(w, op)
    requires op.AddOp? || op.AddTailOp? ==> op.node in nodes
    modifies nodes
    ensures Good(Step(w, op), nodes)
  {
    StepKeepsApart(w, nodes, op);
    OthersAreUntouched(w, nodes, op);
    RestIsLinked(w, nodes, op);
    Execute(op, w, nodes);
    LinkedAgain(w, nodes, op);
  }

  /** The model after a run. */
  ghost function After(w: World, ops: seq<Op>): World
    requires AllAllowed(w, ops)
    decreases |ops|
  {
    if ops == [] then w else After(Step(w, ops[0]), ops[1..])
  }

  ghost predicate AllAllowed(w: World, ops: seq<Op>)
    decreases |ops|
  {
    ops == [] || (Allowed(w, ops[0]) && AllAllowed(Step(w, ops[0]), ops[1..]))
  }

  /**
   Any run of operations over disjoint lists: every list is its model sequence, linked forward
   and backward, and the lists are still disjoint.
   */
  method Run(ops: seq<Op>, ghost w: World, ghost nodes: set<Node>)
    requires Good(w, nodes) && AllAllowed(w, ops)
    requires forall i :: 0 <= i < |ops| && (ops[i].AddOp? || ops[i].AddTailOp?) ==> ops[i].node in nodes
    modifies nodes
    ensures Good(After(w, ops), nodes)
  {
    if ops != [] {
      Apply(ops[0], w, nodes);
      Run(ops[1..], Step(w, ops[0]), nodes);
    }
  }

  /** So after any run the two walks from any head meet its model sequence, one in reverse of the other. */
  lemma WalksMeetModel(w: World, nodes: set<Node>, head: Node, k: nat)
    requires Good(w, nodes) && head in w.lists && 1 <= k <= |w.lists[head]| + 1
    ensures var s := w.lists[head]; var ring := set x | x in [head] + s;
            && Forward(head, k, ring) == (if k <= |s| then s[k - 1] else head)
            && Backward(head, k, ring) == (if k <= |s| then s[|s| - k] else head)
  {
    WalksAreReverses(head, w.lists[head], k);
  }
}
