/** Nodes of include/data/btree.h and the abstract trees they represent.

    `Node` is the source's `btree_node`: one object whose two fixed-size buffers lie inside it, which
    is why they are sequence fields of that object and not arrays of their own.  `Tree` is the shape
    that a set of nodes represents: which node sits where, which slots are in use, which children
    hang below.  Everything about order, occupancy and contents is stated on `Tree`; `Rep` says that
    the heap holds exactly that shape. */
module BTreeModel {

  type Degree = m: nat | 2 <= m witness 2

  // The minimum degree.  It has no value on purpose: every result holds for every M >= 2.
  const M: Degree

  const MAX_DATA: nat := 2 * M - 1
  const MAX_CHILDREN: nat := 2 * M

  // One element; all of the source's comparisons look at the key only (btree_impl::pair).
  datatype Entry = Entry(key: int, value: int)

  const EMPTY := Entry(0, 0)

  class Node {
    var data: seq<Entry>
    var children: seq<Node?>
    var size: nat

    constructor ()
      ensures size == 0
      ensures |data| == MAX_DATA && |children| == MAX_CHILDREN
      ensures forall i :: 0 <= i < MAX_DATA ==> data[i] == EMPTY
      ensures forall i :: 0 <= i < MAX_CHILDREN ==> children[i] == null
    {
      data := seq(MAX_DATA, _ => EMPTY);
      children := seq(MAX_CHILDREN, _ => null);
      size := 0;
    }
  }

  // A leaf has no kids; an inner node has one more kid than it has keys.
  datatype Tree = Tree(ref: Node, keys: seq<Entry>, kids: seq<Tree>)

  // ---------------------------------------------------------------- contents

  // Kids and keys in turn, kid first; a leaf is just its keys.
  ghost function Weave(keys: seq<Entry>, kids: seq<Tree>): seq<Entry>
    decreases kids
  {
    if kids == [] then keys
    else Inorder(kids[0]) + if keys == [] then [] else [keys[0]] + Weave(keys[1..], kids[1..])
  }

  ghost function Inorder(t: Tree): seq<Entry>
    decreases t
  {
    Weave(t.keys, t.kids)
  }

  lemma LeafInorder(t: Tree)
    requires t.kids == []
    ensures Inorder(t) == t.keys
  {
  }

  ghost predicate Sorted(s: seq<Entry>) {
    forall i, j :: 0 <= i < j < |s| ==> s[i].key <= s[j].key
  }

  ghost predicate Has(s: seq<Entry>, key: int) {
    exists i :: 0 <= i < |s| && s[i].key == key
  }

  lemma {:induction false} WeaveConcat(k1: seq<Entry>, c1: seq<Tree>, k2: seq<Entry>, c2: seq<Tree>)
    requires |k1| == |c1| && c2 != []
    ensures Weave(k1 + k2, c1 + c2) == Weave(k1, c1) + Weave(k2, c2)
    decreases |k1|
  {
    if k1 == [] {
      assert k1 + k2 == k2 && c1 + c2 == c2;
    } else {
      assert (k1 + k2)[1..] == k1[1..] + k2 && (c1 + c2)[1..] == c1[1..] + c2;
      WeaveConcat(k1[1..], c1[1..], k2, c2);
    }
  }

  // ---------------------------------------------------------------- occupancy and depth

  // All leaves at depth h below t; at least lo keys here, M-1 below, at most 2M-1 everywhere.
  ghost predicate Shape(t: Tree, h: nat, lo: nat)
    decreases h
  {
    && lo <= |t.keys| <= MAX_DATA
    && (h == 0 ==> t.kids == [])
    && (h > 0 ==>
          && |t.kids| == |t.keys| + 1
          && forall i :: 0 <= i < |t.kids| ==> Shape(t.kids[i], h - 1, M - 1))
  }

  ghost predicate Regular(t: Tree)
    decreases t
  {
    RegularKids(t.keys, t.kids)
  }

  // Every inner node has one kid more than it has keys.
  ghost predicate RegularKids(keys: seq<Entry>, kids: seq<Tree>)
    decreases kids
  {
    kids != [] ==> |kids| == |keys| + 1 && forall i :: 0 <= i < |kids| ==> Regular(kids[i])
  }

  lemma {:induction false} ShapeIsRegular(t: Tree, h: nat, lo: nat)
    requires Shape(t, h, lo)
    ensures Regular(t)
    decreases h
  {
    forall i | 0 <= i < |t.kids|
      ensures Regular(t.kids[i])
    {
      ShapeIsRegular(t.kids[i], h - 1, M - 1);
    }
  }

  // ---------------------------------------------------------------- node identity

  ghost function Refs(t: Tree): set<Node>
    decreases t, 0
  {
    {t.ref} + KidRefs(t.kids)
  }

  ghost function KidRefs(kids: seq<Tree>): set<Node>
    decreases kids, 1
  {
    if kids == [] then {} else Refs(kids[0]) + KidRefs(kids[1..])
  }

  // No node occurs twice in the tree: two parents never share a child.
  ghost predicate Distinct(t: Tree)
    decreases t, 0
  {
    t.ref !in KidRefs(t.kids) && DistinctKids(t.kids)
  }

  ghost predicate DistinctKids(kids: seq<Tree>)
    decreases kids, 1
  {
    kids != [] ==>
      Distinct(kids[0]) && Refs(kids[0]) !! KidRefs(kids[1..]) && DistinctKids(kids[1..])
  }

  lemma {:induction false} KidRefsConcat(a: seq<Tree>, b: seq<Tree>)
    ensures KidRefs(a + b) == KidRefs(a) + KidRefs(b)
    decreases |a|
  {
    if a == [] {
      assert a + b == b;
    } else {
      assert (a + b)[1..] == a[1..] + b;
      KidRefsConcat(a[1..], b);
    }
  }

  lemma {:induction false} DistinctConcat(a: seq<Tree>, b: seq<Tree>)
    ensures DistinctKids(a + b) <==> DistinctKids(a) && DistinctKids(b) && KidRefs(a) !! KidRefs(b)
    decreases |a|
  {
    if a == [] {
      assert a + b == b;
    } else {
      assert (a + b)[1..] == a[1..] + b;
      DistinctConcat(a[1..], b);
      KidRefsConcat(a[1..], b);
    }
  }

  lemma KidRefsOne(t: Tree)
    ensures KidRefs([t]) == Refs(t)
    ensures DistinctKids([t]) <==> Distinct(t)
  {
    assert [t][1..] == [];
  }

  // Kid i among its siblings.
  lemma {:induction false} KidRefsAt(kids: seq<Tree>, i: nat)
    requires i < |kids|
    ensures KidRefs(kids) == KidRefs(kids[..i]) + Refs(kids[i]) + KidRefs(kids[i + 1..])
    ensures DistinctKids(kids) <==>
              && DistinctKids(kids[..i]) && Distinct(kids[i]) && DistinctKids(kids[i + 1..])
              && KidRefs(kids[..i]) !! Refs(kids[i]) && KidRefs(kids[..i]) !! KidRefs(kids[i + 1..])
              && Refs(kids[i]) !! KidRefs(kids[i + 1..])
  {
    var a, b := kids[..i], kids[i..];
    assert kids == a + b && b[1..] == kids[i + 1..];
    KidRefsConcat(a, b);
    DistinctConcat(a, b);
  }

  lemma {:induction false} KidApart(t: Tree, i: nat)
    requires Distinct(t) && i < |t.kids|
    ensures t.kids[i].ref in Refs(t) && t.kids[i].ref != t.ref && t.ref in Refs(t)
  {
    KidRefsAt(t.kids, i);
  }

  lemma {:induction false} KidsDisjoint(kids: seq<Tree>, i: nat, j: nat)
    requires DistinctKids(kids) && i < |kids| && j < |kids| && i != j
    ensures Refs(kids[i]) !! Refs(kids[j]) && Refs(kids[i]) <= KidRefs(kids)
  {
    KidRefsAt(kids, i);
    if j < i {
      assert kids[..i][j] == kids[j];
      KidRefsAt(kids[..i], j);
    } else {
      assert kids[i + 1..][j - i - 1] == kids[j];
      KidRefsAt(kids[i + 1..], j - i - 1);
    }
  }

  // ---------------------------------------------------------------- the heap

  // What a node holds at one moment, and what a set of nodes holds.
  datatype State = State(data: seq<Entry>, children: seq<Node?>, size: nat)

  ghost function StateOf(r: Node): State
    reads r
  {
    State(r.data, r.children, r.size)
  }

  ghost predicate IsSnap(m: map<Node, State>, nodes: set<Node>)
    reads nodes
  {
    m.Keys == nodes && forall r :: r in nodes ==> m[r] == StateOf(r)
  }

  lemma SnapExists(nodes: set<Node>)
    ensures exists m :: IsSnap(m, nodes)
  {
    if nodes == {} {
      assert IsSnap(map[], nodes);
    } else {
      var r :| r in nodes;
      SnapExists(nodes - {r});
      var m :| IsSnap(m, nodes - {r});
      assert IsSnap(m[r := State(r.data, r.children, r.size)], nodes);
    }
  }

  ghost function Snap(nodes: set<Node>): (m: map<Node, State>)
    reads nodes
    ensures IsSnap(m, nodes)
  {
    SnapExists(nodes);
    var m :| IsSnap(m, nodes);
    m
  }

  ghost predicate Holds(n: State, t: Tree) {
    && |n.data| == MAX_DATA && |n.children| == MAX_CHILDREN
    && n.size == |t.keys| <= MAX_DATA
    && n.data[..|t.keys|] == t.keys
    && (t.kids == [] ==> forall i :: 0 <= i < MAX_CHILDREN ==> n.children[i] == null)
    && (t.kids != [] ==>
          && |t.kids| == |t.keys| + 1
          && forall i :: 0 <= i < |t.kids| ==> n.children[i] == t.kids[i].ref)
  }

  // The nodes in m are laid out as t says.
  ghost predicate RepIn(m: map<Node, State>, t: Tree)
    decreases t
  {
    && t.ref in m && Holds(m[t.ref], t)
    && forall i :: 0 <= i < |t.kids| ==> RepIn(m, t.kids[i])
  }

  ghost predicate Rep(t: Tree)
    reads Refs(t)
  {
    RepIn(Snap(Refs(t)), t)
  }

  ghost predicate AllRep(m: map<Node, State>, kids: seq<Tree>) {
    forall i :: 0 <= i < |kids| ==> RepIn(m, kids[i])
  }

  ghost predicate SameOutside(m: map<Node, State>, m': map<Node, State>, touched: set<Node>) {
    forall r :: r in m && r !in touched ==> r in m' && m'[r] == m[r]
  }

  // A representation only depends on the nodes of its tree.
  lemma {:induction false} RepFrame(m: map<Node, State>, m': map<Node, State>, t: Tree, touched: set<Node>)
    requires RepIn(m, t) && SameOutside(m, m', touched) && Refs(t) !! touched
    ensures RepIn(m', t)
    decreases t, 0
  {
    AllRepFrame(m, m', t.kids, touched);
  }

  lemma {:induction false} AllRepFrame(m: map<Node, State>, m': map<Node, State>, kids: seq<Tree>, touched: set<Node>)
    requires AllRep(m, kids) && SameOutside(m, m', touched) && KidRefs(kids) !! touched
    ensures AllRep(m', kids)
    decreases kids, 1
  {
    forall i | 0 <= i < |kids|
      ensures RepIn(m', kids[i])
    {
      KidRefsAt(kids, i);
      RepFrame(m, m', kids[i], touched);
    }
  }

  lemma {:induction false} RepNodes(m: map<Node, State>, t: Tree)
    requires RepIn(m, t)
    ensures Refs(t) <= m.Keys
    decreases t, 0
  {
    AllRepNodes(m, t.kids);
  }

  lemma {:induction false} AllRepNodes(m: map<Node, State>, kids: seq<Tree>)
    requires AllRep(m, kids)
    ensures KidRefs(kids) <= m.Keys
    decreases kids, 1
  {
    if kids != [] {
      RepNodes(m, kids[0]);
      AllRepNodes(m, kids[1..]);
    }
  }

  // The heap holds t if any snapshot that contains t's nodes does.
  lemma RepOfSnap(t: Tree, nodes: set<Node>)
    requires RepIn(Snap(nodes), t)
    ensures Rep(t)
  {
    var m := Snap(nodes);
    RepNodes(m, t);
    RepFrame(m, Snap(Refs(t)), t, nodes - Refs(t));
  }

  lemma RepToSnap(t: Tree, nodes: set<Node>)
    requires Rep(t) && Refs(t) <= nodes
    ensures RepIn(Snap(nodes), t)
  {
    RepFrame(Snap(Refs(t)), Snap(nodes), t, {});
  }

  // ---------------------------------------------------------------- joining two siblings

  ghost function Join(l: Tree, m: Entry, r: Tree): Tree {
    Tree(l.ref, l.keys + [m] + r.keys, l.kids + r.kids)
  }

  ghost predicate WellShaped(t: Tree) {
    t.kids == [] || |t.kids| == |t.keys| + 1
  }

  lemma {:induction false} JoinInorder(l: Tree, m: Entry, r: Tree)
    requires WellShaped(l) && WellShaped(r) && (l.kids == [] <==> r.kids == [])
    ensures Inorder(Join(l, m, r)) == Inorder(l) + [m] + Inorder(r)
  {
    if l.kids != [] {
      var n := |l.keys|;
      var c := l.kids[n];
      assert l.keys + [m] + r.keys == l.keys + ([m] + r.keys);
      assert l.kids + r.kids == l.kids[..n] + ([c] + r.kids);
      WeaveConcat(l.keys, l.kids[..n], [m] + r.keys, [c] + r.kids);
      assert ([m] + r.keys)[1..] == r.keys && ([c] + r.kids)[1..] == r.kids;
      assert l.keys == l.keys + [] && l.kids == l.kids[..n] + [c];
      WeaveConcat(l.keys, l.kids[..n], [], [c]);
    }
  }

  // Kid i of t replaced by two kids with a key between them.
  ghost function Opened(t: Tree, i: nat, l: Tree, m: Entry, r: Tree): Tree
    requires i < |t.kids| == |t.keys| + 1
  {
    Tree(t.ref, t.keys[..i] + [m] + t.keys[i..], t.kids[..i] + [l, r] + t.kids[i + 1..])
  }

  // What follows kid i of a weave.
  ghost function After(keys: seq<Entry>, kids: seq<Tree>): seq<Entry> {
    if keys == [] then [] else [keys[0]] + Weave(keys[1..], kids)
  }

  // Kid i in the middle of its siblings.
  lemma {:induction false} WeaveAround(k1: seq<Entry>, c1: seq<Tree>, c: Tree, k2: seq<Entry>, c2: seq<Tree>)
    requires |k1| == |c1|
    ensures Weave(k1 + k2, c1 + [c] + c2) == Weave(k1, c1) + Inorder(c) + After(k2, c2)
  {
    assert c1 + [c] + c2 == c1 + ([c] + c2);
    assert ([c] + c2)[1..] == c2;
    WeaveConcat(k1, c1, k2, [c] + c2);
  }

  lemma {:induction false} AroundKid(t: Tree, i: nat)
    requires i < |t.kids| == |t.keys| + 1
    ensures Inorder(t) == Weave(t.keys[..i], t.kids[..i]) + Inorder(t.kids[i]) + After(t.keys[i..], t.kids[i + 1..])
  {
    assert t.keys[..i] + t.keys[i..] == t.keys;
    assert t.kids[..i] + [t.kids[i]] + t.kids[i + 1..] == t.kids;
    WeaveAround(t.keys[..i], t.kids[..i], t.kids[i], t.keys[i..], t.kids[i + 1..]);
  }

  lemma {:induction false} AfterCons(m: Entry, r: Tree, keys: seq<Entry>, kids: seq<Tree>)
    ensures After([m] + keys, [r] + kids) == [m] + Inorder(r) + After(keys, kids)
  {
    assert ([m] + keys)[1..] == keys && [] + keys == keys && [] + [r] + kids == [r] + kids;
    WeaveAround([], [], r, keys, kids);
    assert Weave([], []) == [];
  }

  lemma {:induction false} OpenedInorder(t: Tree, i: nat, l: Tree, m: Entry, r: Tree)
    requires i < |t.kids| == |t.keys| + 1
    requires Inorder(t.kids[i]) == Inorder(l) + [m] + Inorder(r)
    ensures Inorder(Opened(t, i, l, m, r)) == Inorder(t)
  {
    hide Inorder, Weave, After;
    var o := Opened(t, i, l, m, r);
    AroundKid(t, i);
    AroundKid(o, i);
    assert o.keys[..i] == t.keys[..i] && o.kids[..i] == t.kids[..i];
    assert o.keys[i..] == [m] + t.keys[i..] && o.kids[i + 1..] == [r] + t.kids[i + 1..];
    AfterCons(m, r, t.keys[i..], t.kids[i + 1..]);
    Regroup(Weave(t.keys[..i], t.kids[..i]), Inorder(l), m, Inorder(r), After(t.keys[i..], t.kids[i + 1..]));
  }

  // A cut through the middle one of three sequences.
  lemma CutAt(b: seq<Entry>, k: seq<Entry>, y: seq<Entry>, i: nat)
    requires i <= |k|
    ensures (b + k + y)[..|b| + i] == b + k[..i] && (b + k + y)[|b| + i..] == k[i..] + y
  {
    hide *;
  }

  lemma Grouped(b: seq<Entry>, p: seq<Entry>, q: seq<Entry>, y: seq<Entry>)
    ensures b + (p + q) + y == (b + p) + (q + y)
  {
    hide *;
  }

  lemma GroupedAround(b: seq<Entry>, p: seq<Entry>, e: Entry, q: seq<Entry>, y: seq<Entry>)
    ensures b + (p + [e] + q) + y == (b + p) + [e] + (q + y)
  {
    hide *;
  }

  lemma Regroup(w: seq<Entry>, l: seq<Entry>, m: Entry, r: seq<Entry>, a: seq<Entry>)
    ensures w + l + ([m] + r + a) == w + (l + [m] + r) + a
  {
  }

  // ---------------------------------------------------------------- order around a kid

  ghost predicate AllLeq(s: seq<Entry>, key: int) {
    forall i :: 0 <= i < |s| ==> s[i].key <= key
  }

  ghost predicate AllGeq(s: seq<Entry>, key: int) {
    forall i :: 0 <= i < |s| ==> key <= s[i].key
  }

  lemma {:induction false} WeaveLast(keys: seq<Entry>, kids: seq<Tree>)
    requires 0 < |keys| == |kids|
    ensures Weave(keys, kids) ==
            Weave(keys[..|keys| - 1], kids[..|keys| - 1]) + (Inorder(kids[|keys| - 1]) + [keys[|keys| - 1]])
  {
    var n := |keys| - 1;
    assert keys == keys[..n] + [keys[n]] && kids == kids[..n] + [kids[n]];
    WeaveConcat(keys[..n], kids[..n], [keys[n]], [kids[n]]);
  }

  // In a sorted node, what lies left of kid i is bounded by the key before it, what lies right by the key after it.
  lemma {:induction false} SideBounds(t: Tree, i: nat)
    requires i < |t.kids| == |t.keys| + 1 && Sorted(Inorder(t))
    ensures if i == 0 then Weave(t.keys[..i], t.kids[..i]) == []
            else AllLeq(Weave(t.keys[..i], t.kids[..i]), t.keys[i - 1].key)
    ensures if i == |t.keys| then After(t.keys[i..], t.kids[i + 1..]) == []
            else After(t.keys[i..], t.kids[i + 1..]) != [] && After(t.keys[i..], t.kids[i + 1..])[0] == t.keys[i]
                 && AllGeq(After(t.keys[i..], t.kids[i + 1..]), t.keys[i].key)
  {
    AroundKid(t, i);
    var w, a, all := Weave(t.keys[..i], t.kids[..i]), After(t.keys[i..], t.kids[i + 1..]), Inorder(t);
    if i > 0 {
      WeaveLast(t.keys[..i], t.kids[..i]);
      assert w[|w| - 1] == t.keys[i - 1];
      forall j | 0 <= j < |w|
        ensures w[j].key <= w[|w| - 1].key
      {
        assert w[j] == all[j] && w[|w| - 1] == all[|w| - 1];
      }
    }
    if i < |t.keys| {
      var n := |all| - |a|;
      forall j | 0 <= j < |a|
        ensures a[0].key <= a[j].key
      {
        assert a[j] == all[n + j] && a[0] == all[n];
      }
    }
  }

  ghost predicate AllLess(s: seq<Entry>, key: int) {
    forall i :: 0 <= i < |s| ==> s[i].key < key
  }

  // The elements of kid i lie between the keys around it.
  lemma {:induction false} KidBounds(t: Tree, i: nat)
    requires i < |t.kids| == |t.keys| + 1 && Sorted(Inorder(t))
    ensures i > 0 ==> AllGeq(Inorder(t.kids[i]), t.keys[i - 1].key)
    ensures i < |t.keys| ==> AllLeq(Inorder(t.kids[i]), t.keys[i].key)
  {
    hide Inorder, Weave, After;
    AroundKid(t, i);
    SideBounds(t, i);
    var w, c, a := Weave(t.keys[..i], t.kids[..i]), Inorder(t.kids[i]), After(t.keys[i..], t.kids[i + 1..]);
    var all := Inorder(t);
    assert forall j :: 0 <= j < |c| ==> c[j] == all[|w| + j];
    if i > 0 {
      WeaveLast(t.keys[..i], t.kids[..i]);
      assert all[|w| - 1] == t.keys[i - 1];
    }
    if i < |t.keys| {
      assert all[|w| + |c|] == t.keys[i];
    }
  }

  // A node's own keys are among its elements.
  lemma {:induction false} KeyInside(t: Tree, i: nat) returns (at: nat)
    requires i < |t.keys| && WellShaped(t)
    ensures at < |Inorder(t)| && Inorder(t)[at] == t.keys[i]
  {
    at := i;
    if t.kids != [] {
      AroundKid(t, i);
      at := |Weave(t.keys[..i], t.kids[..i])| + |Inorder(t.kids[i])|;
    }
  }

  lemma {:induction false} KeysSorted(t: Tree, i: nat, j: nat)
    requires WellShaped(t) && Sorted(Inorder(t)) && i <= j < |t.keys|
    ensures t.keys[i].key <= t.keys[j].key
    decreases j - i
  {
    if t.kids == [] {
      assert Inorder(t) == t.keys;
    } else if i < j {
      hide *;
      KeysSorted(t, i, j - 1);
      NextKey(t, j);
    }
  }

  // The key before kid j comes before the one behind it.
  lemma {:induction false} NextKey(t: Tree, j: nat)
    requires WellShaped(t) && t.kids != [] && Sorted(Inorder(t)) && 0 < j < |t.keys|
    ensures t.keys[j - 1].key <= t.keys[j].key
  {
    hide Inorder, Weave;
    AroundKid(t, j);
    WeaveLast(t.keys[..j], t.kids[..j]);
    var w, a, all := Weave(t.keys[..j], t.kids[..j]), After(t.keys[j..], t.kids[j + 1..]), Inorder(t);
    assert a[0] == t.keys[j];
    hide After;
    assert w[|w| - 1] == t.keys[j - 1] && w[|w| - 1] == all[|w| - 1] && a[0] == all[|all| - |a|];
  }

  // ---------------------------------------------------------------- identity of nodes under edits

  // Two siblings, seen through the kids they have together.
  lemma {:induction false} PairRefs(l: Tree, r: Tree)
    ensures KidRefs([l, r]) == {l.ref, r.ref} + KidRefs(l.kids + r.kids)
    ensures DistinctKids([l, r]) <==>
              l.ref != r.ref && {l.ref, r.ref} !! KidRefs(l.kids + r.kids) && DistinctKids(l.kids + r.kids)
  {
    assert [l, r][1..] == [r];
    KidRefsOne(r);
    KidRefsConcat(l.kids, r.kids);
    DistinctConcat(l.kids, r.kids);
  }

  // Replacing a run of kids by others that only reuse its nodes, or bring new ones, keeps nodes distinct.
  lemma {:induction false} DistinctSplice(a: seq<Tree>, mid: seq<Tree>, b: seq<Tree>, mid': seq<Tree>,
      fresh': set<Node>)
    requires DistinctKids(a + mid + b)
    requires DistinctKids(mid') && KidRefs(mid') <= KidRefs(mid) + fresh'
    requires fresh' !! KidRefs(a + mid + b)
    ensures DistinctKids(a + mid' + b)
    ensures KidRefs(a + mid' + b) <= KidRefs(a + mid + b) + fresh'
  {
    DistinctConcat(a + mid, b);
    DistinctConcat(a, mid);
    KidRefsConcat(a + mid, b);
    KidRefsConcat(a, mid);
    DistinctConcat(a + mid', b);
    DistinctConcat(a, mid');
    KidRefsConcat(a + mid', b);
    KidRefsConcat(a, mid');
  }
}
