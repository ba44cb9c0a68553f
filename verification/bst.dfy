/** The binary search tree of bst/tree.go with its mutex removed.

    Nodes are an immutable inductive tree over integer keys; `Leaf` stands for
    a nil `*Node`. Every descent of the source (lookup, predecessor lookup,
    insertion) iterates `chooseNext`, modelled here by `ChooseNext`. */
module Bst {
  import opened Optional

  datatype Tree = Leaf | Node(left: Tree, val: int, right: Tree)

  /** The `Tree` struct: its root, its node counter and its duplicate policy. */
  datatype Bst = Bst(root: Tree, size: int, duplicates: bool)

  /** The decision `chooseNext` takes at one node; `Stop` is its nil return. */
  datatype Step = GoLeft | GoRight | Stop

  /* ---------------------------------------------------------------------- */
  /* Contents and shape                                                      */
  /* ---------------------------------------------------------------------- */

  /** The values stored in a tree, with multiplicity. */
  function Elems(t: Tree): multiset<int> {
    match t
    case Leaf => multiset{}
    case Node(l, x, r) => Elems(l) + multiset{x} + Elems(r)
  }

  /** Number of nodes: what the `size` counter is meant to hold. */
  function Count(t: Tree): (n: nat)
    ensures n == |Elems(t)|
  {
    match t
    case Leaf => 0
    case Node(l, _, r) => Count(l) + 1 + Count(r)
  }

  /** `s` is `t` or hangs somewhere below it. */
  predicate IsSubtree(s: Tree, t: Tree)
    ensures IsSubtree(s, t) ==> Elems(s) <= Elems(t) && Count(s) <= Count(t)
  {
    s == t || (t.Node? && (IsSubtree(s, t.left) || IsSubtree(s, t.right)))
  }

  /** `y` may sit in the left subtree of a node holding `x`: equal values go
      left only when duplicates are allowed. */
  predicate LeftOf(dup: bool, y: int, x: int) {
    if dup then y <= x else y < x
  }

  /** The BST ordering invariant under the duplicate policy `dup`: left
      subtree values are at most the node's value (strictly below it when
      duplicates are forbidden), right subtree values are above it. */
  ghost predicate Ordered(dup: bool, t: Tree) {
    match t
    case Leaf => true
    case Node(l, x, r) =>
      && Ordered(dup, l)
      && Ordered(dup, r)
      && (forall y :: y in Elems(l) ==> LeftOf(dup, y, x))
      && (forall y :: y in Elems(r) ==> y > x)
  }

  /** The size counter agrees with the number of nodes. */
  predicate Valid(b: Bst) {
    b.size == Count(b.root)
  }

  /* ---------------------------------------------------------------------- */
  /* chooseNext                                                              */
  /* ---------------------------------------------------------------------- */

  /** The three-way decision of `chooseNext` at a node holding `curr` for the
      query `query`. */
  function ChooseNext(dup: bool, curr: int, query: int): (s: Step)
    ensures s == GoLeft <==> curr > query || (dup && curr == query)
    ensures s == GoRight <==> curr < query
    ensures s == Stop <==> !dup && curr == query
  {
    if (dup && curr == query) || curr > query then GoLeft
    else if curr < query then GoRight
    else Stop
  }

  /** The child a step leads to; `Stop` leads nowhere. */
  function Child(t: Tree, s: Step): (c: Tree)
    requires t.Node?
    ensures Count(c) < Count(t)
  {
    match s
    case GoLeft => t.left
    case GoRight => t.right
    case Stop => Leaf
  }

  /** What `chooseNext(curr, n)` returns: the chosen child, or nil. */
  function Next(dup: bool, curr: Tree, query: int): (c: Tree)
    requires curr.Node?
    ensures Count(c) < Count(curr)
  {
    Child(curr, ChooseNext(dup, curr.val, query))
  }

  /** Under the ordering invariant `chooseNext` never steers away from a
      stored value that the current node does not hold. */
  lemma ChooseNextKeepsTarget(dup: bool, t: Tree, q: int)
    requires t.Node? && Ordered(dup, t)
    requires q in Elems(t) && t.val != q
    ensures q in Elems(Next(dup, t, q))
  {
  }

  /* ---------------------------------------------------------------------- */
  /* find, Contains                                                          */
  /* ---------------------------------------------------------------------- */

  /** `find`: descend from `t` by `chooseNext` and return the first node
      whose value equals `q` (as the subtree it roots), or nothing. */
  function Find(dup: bool, t: Tree, q: int): (r: Option<Tree>)
    ensures t == Leaf ==> r == None
    ensures r.Some? ==> r.value.Node? && r.value.val == q && IsSubtree(r.value, t)
  {
    match t
    case Leaf => None
    case Node(l, x, rt) =>
      if x == q then Some(t)
      else match ChooseNext(dup, x, q)
        case GoLeft => Find(dup, l, q)
        case GoRight => Find(dup, rt, q)
        case Stop => None
  }

  /** The loop of `find` as written, on an immutable tree. */
  method FindLoop(b: Bst, q: int) returns (r: Option<Tree>)
    ensures r == Find(b.duplicates, b.root, q)
  {
    var trav := b.root;
    while trav != Leaf
      invariant Find(b.duplicates, trav, q) == Find(b.duplicates, b.root, q)
      decreases Count(trav)
    {
      if trav.val == q {
        return Some(trav);
      }
      trav := Next(b.duplicates, trav, q);
    }
    return None;
  }

  /** `Contains`: whether `find` returns a node. It only answers true for
      values that are stored. */
  function Contains(b: Bst, v: int): (r: bool)
    ensures r ==> v in Elems(b.root)
  {
    Find(b.duplicates, b.root, v).Some?
  }

  lemma {:induction false} FindComplete(dup: bool, t: Tree, q: int)
    requires Ordered(dup, t)
    ensures Find(dup, t, q).Some? <==> q in Elems(t)
  {
    match t
    case Leaf =>
    case Node(l, x, r) =>
      if x != q {
        if q in Elems(t) {
          ChooseNextKeepsTarget(dup, t, q);
        }
        if x > q {
          FindComplete(dup, l, q);
        } else {
          FindComplete(dup, r, q);
        }
      }
  }

  /** `Contains` is exactly membership on every tree ordered under the
      loose invariant (left values at most the node's value), whatever the
      current policy; a tree ordered under the strict invariant is one. */
  lemma ContainsIsMembership(b: Bst, v: int)
    requires Ordered(true, b.root)
    ensures Contains(b, v) <==> v in Elems(b.root)
  {
    FindIgnoresPolicy(b.root, v);
    FindComplete(true, b.root, v);
  }

  /** `find` tests equality before `chooseNext`, so the duplicate policy
      never changes its answer. */
  lemma {:induction false} FindIgnoresPolicy(t: Tree, q: int)
    ensures Find(true, t, q) == Find(false, t, q)
  {
    match t
    case Leaf =>
    case Node(l, x, r) =>
      if x != q {
        FindIgnoresPolicy(l, q);
        FindIgnoresPolicy(r, q);
      }
  }

  /* ---------------------------------------------------------------------- */
  /* findPrev                                                                */
  /* ---------------------------------------------------------------------- */

  /** The loop of `findPrev` from node `t`, where `prev` is the node visited
      just before `t`. Results are (prev, found). */
  function FindPrevFrom(dup: bool, t: Tree, q: int, prev: Option<Tree>): (r: (Option<Tree>, Option<Tree>))
    requires prev.Some? ==> prev.value.Node? && Next(dup, prev.value, q) == t
    ensures r.1 == Find(dup, t, q)
    ensures r.1.None? ==> r.0.None?
    ensures r.1 == Some(t) ==> r.0 == prev
    ensures r.1.Some? && r.1 != Some(t) ==>
      r.0.Some? && r.0.value.Node? && IsSubtree(r.0.value, t) && Next(dup, r.0.value, q) == r.1.value
  {
    match t
    case Leaf => (None, None)
    case Node(l, x, rt) =>
      if x == q then (prev, Some(t))
      else match ChooseNext(dup, x, q)
        case GoLeft => FindPrevFrom(dup, l, q, Some(t))
        case GoRight => FindPrevFrom(dup, rt, q, Some(t))
        case Stop => (None, None)
  }

  /** `findPrev`: the node equal to `v` that `find` reaches, together with
      the node visited just before it; (nil, nil) when there is no match. */
  function FindPrev(b: Bst, v: int): (r: (Option<Tree>, Option<Tree>))
    ensures r.1 == Find(b.duplicates, b.root, v)
    ensures r.1.None? ==> r == (None, None)
    ensures r.1.Some? ==> r.1.value.val == v && (r.0.None? <==> r.1.value == b.root)
    ensures r.0.Some? ==>
      && r.0.value.Node?
      && IsSubtree(r.0.value, b.root)
      && Next(b.duplicates, r.0.value, v) == r.1.value
  {
    FindPrevFrom(b.duplicates, b.root, v, None)
  }

  /* ---------------------------------------------------------------------- */
  /* insert, Insert                                                          */
  /* ---------------------------------------------------------------------- */

  /** The loop of `insert` followed by `prev.insert(n)`: descend by
      `chooseNext` and attach a new leaf holding `v` in the nil slot reached.
      When an equal value is met while duplicates are forbidden, `chooseNext`
      stops at that node; the new node becomes its left child and the former
      left subtree hangs below the new node. */
  function InsertTree(dup: bool, t: Tree, v: int): (r: Tree)
    ensures Elems(r) == Elems(t) + multiset{v}
  {
    match t
    case Leaf => Node(Leaf, v, Leaf)
    case Node(l, x, rt) =>
      match ChooseNext(dup, x, v)
      case GoLeft => Node(InsertTree(dup, l, v), x, rt)
      case GoRight => Node(l, x, InsertTree(dup, rt, v))
      case Stop =>
        assert Elems(Node(l, v, Leaf)) + multiset{x} + Elems(rt) == Elems(t) + multiset{v};
        Node(Node(l, v, Leaf), x, rt)
  }

  /** `isEmpty` (without the nil-receiver case). */
  function IsEmpty(b: Bst): (r: bool)
    ensures Valid(b) ==> (r <==> Elems(b.root) == multiset{})
  {
    b.size == 0 || b.root == Leaf
  }

  /** `Insert`: an empty tree gets the new node as its root and size 1
      (`init`); otherwise the node is attached by `insert` and the size grows
      by one. */
  function Insert(b: Bst, v: int): (r: Bst)
    ensures r.duplicates == b.duplicates
    ensures IsEmpty(b) ==> r.root == Node(Leaf, v, Leaf) && r.size == 1
    ensures !IsEmpty(b) ==> r.size == b.size + 1 && Elems(r.root) == Elems(b.root) + multiset{v}
    ensures Valid(b) ==> Valid(r) && Elems(r.root) == Elems(b.root) + multiset{v}
  {
    if IsEmpty(b) then Bst(Node(Leaf, v, Leaf), 1, b.duplicates)
    else Bst(InsertTree(b.duplicates, b.root, v), b.size + 1, b.duplicates)
  }

  /** Inserting under policy `dup` into a tree ordered under the invariant of
      policy `inv` keeps that invariant, provided the value is not stored yet
      or both the insertion and the invariant admit duplicates. */
  lemma {:induction false} InsertTreeKeepsOrder(inv: bool, dup: bool, t: Tree, v: int)
    requires Ordered(inv, t)
    requires v !in Elems(t) || (dup && inv)
    ensures Ordered(inv, InsertTree(dup, t, v))
  {
    match t
    case Leaf =>
    case Node(l, x, r) =>
      match ChooseNext(dup, x, v)
      case GoLeft =>
        InsertTreeKeepsOrder(inv, dup, l, v);
        assert LeftOf(inv, v, x);
      case GoRight =>
        InsertTreeKeepsOrder(inv, dup, r, v);
      case Stop =>
        assert false;
  }

  /** `Insert` keeps the ordering invariant of policy `inv` (the current
      policy's, or the loose one after a toggle), for a value the tree does
      not hold, or for any value when both the policy and the invariant
      admit duplicates. */
  lemma InsertKeepsOrder(inv: bool, b: Bst, v: int)
    requires Ordered(inv, b.root)
    requires v !in Elems(b.root) || (b.duplicates && inv)
    ensures Ordered(inv, Insert(b, v).root)
  {
    if !IsEmpty(b) {
      InsertTreeKeepsOrder(inv, b.duplicates, b.root, v);
    }
  }

  lemma {:induction false} FindAfterInsertTree(dup: bool, t: Tree, v: int)
    ensures Find(dup, InsertTree(dup, t, v), v).Some?
  {
    match t
    case Leaf =>
    case Node(l, x, r) =>
      if x != v {
        match ChooseNext(dup, x, v)
        case GoLeft => FindAfterInsertTree(dup, l, v);
        case GoRight => FindAfterInsertTree(dup, r, v);
        case Stop =>
      }
  }

  /** A value just inserted is found again, whatever the tree's shape: `find`
      and `insert` follow the same `chooseNext` path. */
  lemma InsertThenContains(b: Bst, v: int)
    ensures Contains(Insert(b, v), v)
  {
    if !IsEmpty(b) {
      FindAfterInsertTree(b.duplicates, b.root, v);
    }
  }

  /* ---------------------------------------------------------------------- */
  /* Where insert attaches the new node                                      */
  /* ---------------------------------------------------------------------- */

  /** The steps `insert` takes from `t` until `chooseNext` yields nil. */
  function AttachPath(dup: bool, t: Tree, v: int): seq<Step> {
    match t
    case Leaf => []
    case Node(l, x, r) =>
      match ChooseNext(dup, x, v)
      case GoLeft => [GoLeft] + AttachPath(dup, l, v)
      case GoRight => [GoRight] + AttachPath(dup, r, v)
      case Stop => []
  }

  /** The subtree reached by following `p` from `t`. */
  function At(t: Tree, p: seq<Step>): Tree {
    if |p| == 0 then t
    else match t
      case Leaf => Leaf
      case Node(l, _, r) =>
        match p[0]
        case GoLeft => At(l, p[1..])
        case GoRight => At(r, p[1..])
        case Stop => Leaf
  }

  /** `t` with the subtree at `p` replaced by `n`, everything else kept. */
  function Graft(t: Tree, p: seq<Step>, n: Tree): Tree {
    if |p| == 0 then n
    else match t
      case Leaf => t
      case Node(l, x, r) =>
        match p[0]
        case GoLeft => Node(Graft(l, p[1..], n), x, r)
        case GoRight => Node(l, x, Graft(r, p[1..], n))
        case Stop => t
  }

  /** Away from the tie case the `chooseNext` path ends in a nil slot. */
  lemma {:induction false} AttachPathEndsAtNil(dup: bool, t: Tree, v: int)
    requires dup || v !in Elems(t)
    ensures At(t, AttachPath(dup, t, v)) == Leaf
  {
    match t
    case Leaf =>
    case Node(l, x, r) =>
      match ChooseNext(dup, x, v)
      case GoLeft =>
        AttachPathEndsAtNil(dup, l, v);
        assert ([GoLeft] + AttachPath(dup, l, v))[1..] == AttachPath(dup, l, v);
      case GoRight =>
        AttachPathEndsAtNil(dup, r, v);
        assert ([GoRight] + AttachPath(dup, r, v))[1..] == AttachPath(dup, r, v);
      case Stop =>
        assert false;
  }

  /** Away from the tie case `insert` changes exactly one nil slot, the one
      at the end of the `chooseNext` path, which receives the new leaf. */
  lemma {:induction false} InsertGraftsAtPathEnd(dup: bool, t: Tree, v: int)
    requires dup || v !in Elems(t)
    ensures InsertTree(dup, t, v) == Graft(t, AttachPath(dup, t, v), Node(Leaf, v, Leaf))
  {
    match t
    case Leaf =>
    case Node(l, x, r) =>
      match ChooseNext(dup, x, v)
      case GoLeft =>
        InsertGraftsAtPathEnd(dup, l, v);
        assert ([GoLeft] + AttachPath(dup, l, v))[1..] == AttachPath(dup, l, v);
      case GoRight =>
        InsertGraftsAtPathEnd(dup, r, v);
        assert ([GoRight] + AttachPath(dup, r, v))[1..] == AttachPath(dup, r, v);
      case Stop =>
        assert false;
  }

  /** Following a step and then a path is following the longer path. */
  lemma AtCons(t: Tree, s: Step, q: seq<Step>)
    requires t.Node? && s != Stop
    ensures At(t, [s] + q) == At(Child(t, s), q)
  {
  }

  /** Away from the tie case the new node hangs under the last node visited,
      on the side `chooseNext` picks there. */
  lemma {:induction false} AttachPathLastStep(dup: bool, t: Tree, v: int)
    requires t.Node?
    requires dup || v !in Elems(t)
    ensures var p := AttachPath(dup, t, v);
      && |p| > 0
      && At(t, p[..|p| - 1]).Node?
      && p[|p| - 1] == ChooseNext(dup, At(t, p[..|p| - 1]).val, v)
  {
    var s := ChooseNext(dup, t.val, v);
    if s == Stop {
      assert false;
    }
    var c := Child(t, s);
    var pc := AttachPath(dup, c, v);
    var p := AttachPath(dup, t, v);
    assert p == [s] + pc;
    if c.Node? {
      AttachPathLastStep(dup, c, v);
      assert p[..|p| - 1] == [s] + pc[..|pc| - 1];
      AtCons(t, s, pc[..|pc| - 1]);
    } else {
      assert pc == [];
      assert p[..|p| - 1] == [];
    }
  }

  /* ---------------------------------------------------------------------- */
  /* clear, duplicate policy                                                 */
  /* ---------------------------------------------------------------------- */

  /** `Clear`: drop every node, reset the counter, keep the policy. */
  function Clear(b: Bst): (r: Bst)
    ensures IsEmpty(r) && Valid(r)
    ensures Elems(r.root) == multiset{}
    ensures r.duplicates == b.duplicates
    ensures forall v :: !Contains(r, v)
  {
    Bst(Leaf, 0, b.duplicates)
  }

  /** `allowDuplicate`: switch the policy on, touching no node. */
  function AllowDuplicate(b: Bst): (r: Bst)
    ensures r.duplicates
    ensures r.root == b.root && r.size == b.size
    ensures Ordered(b.duplicates, b.root) ==> Ordered(r.duplicates, r.root)
  {
    AllowKeepsOrder(b.root);
    b.(duplicates := true)
  }

  /** `forbidDuplicate`: switch the policy off, touching no node. */
  function ForbidDuplicate(b: Bst): (r: Bst)
    ensures !r.duplicates
    ensures r.root == b.root && r.size == b.size
  {
    b.(duplicates := false)
  }

  /** Toggling the policy changes no answer of `Contains`: it affects only
      later inserts. */
  lemma PolicyKeepsContains(b: Bst, v: int)
    ensures Contains(AllowDuplicate(b), v) == Contains(b, v)
    ensures Contains(ForbidDuplicate(b), v) == Contains(b, v)
  {
    FindIgnoresPolicy(b.root, v);
  }

  /** A tree ordered under the strict policy stays ordered when duplicates
      become allowed: the policy change is never retroactive. */
  lemma {:induction false} AllowKeepsOrder(t: Tree)
    ensures Ordered(false, t) ==> Ordered(true, t)
  {
    match t
    case Leaf =>
    case Node(l, x, r) =>
      if Ordered(false, t) {
        AllowKeepsOrder(l);
        AllowKeepsOrder(r);
        forall y | y in Elems(l) ensures LeftOf(true, y, x) {
          assert LeftOf(false, y, x);
        }
      }
  }

  /** Forbidding duplicates is not retroactive: a tree that took a duplicate
      while they were allowed keeps it, so only the loose invariant holds,
      and `Contains` still finds the value. */
  lemma ForbidDuplicateKeepsDuplicates()
    ensures var b := ForbidDuplicate(Insert(Insert(Bst(Leaf, 0, true), 5), 5));
      && b.root == Node(Node(Leaf, 5, Leaf), 5, Leaf)
      && !Ordered(false, b.root)
      && Ordered(true, b.root)
      && Contains(b, 5)
  {
  }
}
