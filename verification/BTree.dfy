/** The tree object: include/data/btree.h:65-143, and btree_map at 428-454 (an Entry is its pair). */
module BTreeObject {
  import opened BTreeModel
  import opened BTreePath
  import opened BTreeInsert
  import opened BTreeRemove
  import opened Common

  // ---------------------------------------------------------------- find

  lemma {:induction false} SearchStep(t: Tree, path: seq<nat>, key: int, off: nat)
    requires OnPath(t, path) && Removing(t, path, key, false, 0) && Sorted(Inorder(t)) && WellShaped(At(t, path))
    requires off <= |At(t, path).keys| && forall j :: 0 <= j < off ==> At(t, path).keys[j].key < key
    requires off < |At(t, path).keys| ==> key <= At(t, path).keys[off].key
    ensures var s := At(t, path);
            if off < |s.keys| && s.keys[off].key == key then Has(Inorder(t), key) && s.keys[off] in Inorder(t)
            else if s.kids == [] then !Has(Inorder(t), key)
            else
              && OnPath(t, path + [off]) && Removing(t, path + [off], key, false, 0)
              && At(t, path + [off]) == s.kids[off]
  {
    var s := At(t, path);
    SortedAt(t, path);
    if off < |s.keys| && s.keys[off].key == key {
      ElementInside(t, path, off);
    } else if s.kids == [] {
      forall j | 0 <= j < |s.keys|
        ensures s.keys[j].key != key
      {
        if off <= j {
          KeysSorted(s, off, j);
        }
      }
      NotThere(t, path, key, 0);
    } else {
      RemovingStep(t, path, key, false, 0, off);
    }
  }

  lemma {:induction false} ElementInside(t: Tree, path: seq<nat>, i: nat)
    requires OnPath(t, path) && WellShaped(At(t, path)) && i < |At(t, path).keys|
    ensures At(t, path).keys[i] in Inorder(t)
    ensures Has(Inorder(t), At(t, path).keys[i].key)
  {
    InorderAt(t, path);
    var at := KeyInside(At(t, path), i);
    assert Inorder(t)[|Before(t, path)| + at] == At(t, path).keys[i];
  }

  // The walk of `find` from the root.
  method FindFrom(root: Node, key: int, ghost t: Tree, ghost h: nat) returns (r: Option<Entry>)
    requires Rep(t) && Shape(t, h, 1) && Sorted(Inorder(t)) && root == t.ref
    ensures r.Some? <==> Has(Inorder(t), key)
    ensures r.Some? ==> r.value.key == key && r.value in Inorder(t)
  {
    hide Inorder, Removing;
    var node: Node? := root;
    ghost var path: seq<nat> := [];
    ghost var m := Snap(Refs(t));
    CursorStart(t, key);
    while node != null
      invariant node == null ==> !Has(Inorder(t), key)
      invariant node != null ==> OnPath(t, path) && Removing(t, path, key, false, 0) && At(t, path).ref == node
      invariant node != null ==> |path| <= h
      decreases node != null, h - |path|
    {
      ReadNode(t, path);
      ReplaceShape(t, path, At(t, path), h, 1);
      var off := FirstGeq(node.data, node.size, key);
      SearchStep(t, path, key, off);
      if off < node.size && node.data[off].key == key {
        return Some(node.data[off]);
      }
      path := path + [off];
      node := node.children[off];
    }
    return None;
  }

  // ---------------------------------------------------------------- iterate

  // iter_impl, with a callable that carries a state and says whether to go on.  When a call below
  // stops early, the loop above it does not notice: the next key of the parent is still visited.
  ghost function IterTree<S>(t: Tree, step: (S, Entry) -> (S, bool), s: S): S
    decreases t
  {
    IterKids(t.keys, t.kids, step, s)
  }

  ghost function IterKids<S>(keys: seq<Entry>, kids: seq<Tree>, step: (S, Entry) -> (S, bool), s: S): S
    decreases kids, |keys|
  {
    var s1 := if kids == [] then s else IterTree(kids[0], step, s);
    if keys == [] then s1
    else if !step(s1, keys[0]).1 then step(s1, keys[0]).0
    else IterKids(keys[1..], if kids == [] then [] else kids[1..], step, step(s1, keys[0]).0)
  }

  // The documented meaning: every element in order, until the callable says stop.
  ghost function Visit<S>(elements: seq<Entry>, step: (S, Entry) -> (S, bool), s: S): S {
    if elements == [] then s
    else if !step(s, elements[0]).1 then step(s, elements[0]).0
    else Visit(elements[1..], step, step(s, elements[0]).0)
  }

  ghost predicate Stopped<S>(elements: seq<Entry>, step: (S, Entry) -> (S, bool), s: S) {
    elements != [] && (!step(s, elements[0]).1 || Stopped(elements[1..], step, step(s, elements[0]).0))
  }

  // In state s, no element with key lo or more changes anything.
  ghost predicate Frozen<S(!new)>(step: (S, Entry) -> (S, bool), s: S, lo: int) {
    forall e: Entry :: lo <= e.key ==> step(s, e).0 == s
  }

  // Once it has said stop, the callable changes nothing on later elements, whatever it answers there.
  ghost predicate FreezesOnStop<S(!new)>(step: (S, Entry) -> (S, bool)) {
    forall s: S, e: Entry :: !step(s, e).1 ==> Frozen(step, step(s, e).0, e.key)
  }

  lemma {:induction false} VisitConcat<S>(a: seq<Entry>, b: seq<Entry>, step: (S, Entry) -> (S, bool), s: S)
    ensures Visit(a + b, step, s) ==
            if Stopped(a, step, s) then Visit(a, step, s) else Visit(b, step, Visit(a, step, s))
    ensures Stopped(a + b, step, s) <==> Stopped(a, step, s) || Stopped(b, step, Visit(a, step, s))
    decreases |a|
  {
    if a == [] {
      assert a + b == b;
    } else {
      assert (a + b)[1..] == a[1..] + b;
      VisitConcat(a[1..], b, step, step(s, a[0]).0);
    }
  }

  lemma {:induction false} StopFreezes<S(!new)>(a: seq<Entry>, hi: int, step: (S, Entry) -> (S, bool), s: S)
    requires FreezesOnStop(step) && Stopped(a, step, s) && AllLeq(a, hi)
    ensures Frozen(step, Visit(a, step, s), hi)
    decreases |a|
  {
    if step(s, a[0]).1 {
      StopFreezes(a[1..], hi, step, step(s, a[0]).0);
    } else {
      assert Frozen(step, step(s, a[0]).0, a[0].key);
    }
  }

  // A frozen state survives whatever part of the tree is still walked.
  lemma {:induction false} FrozenIter<S(!new)>(keys: seq<Entry>, kids: seq<Tree>, step: (S, Entry) -> (S, bool),
      s: S, lo: int, h: nat)
    requires Frozen(step, s, lo) && AllGeq(Weave(keys, kids), lo)
    requires kids != [] ==> |kids| == |keys| + 1 && h > 0
    requires forall i :: 0 <= i < |kids| ==> Shape(kids[i], h - 1, M - 1)
    ensures IterKids(keys, kids, step, s) == s
    decreases kids, |keys|
  {
    var all := Weave(keys, kids);
    if kids == [] {
      if keys != [] {
        assert step(s, all[0]).0 == s;
        FrozenIter(keys[1..], [], step, s, lo, h);
      }
    } else {
      var c, first := kids[0], Inorder(kids[0]);
      var rest := if keys == [] then [] else [keys[0]] + Weave(keys[1..], kids[1..]);
      assert all == first + rest;
      assert AllGeq(first, lo) && AllGeq(rest, lo) by { GeqParts(first, rest, lo); }
      FrozenIter(c.keys, c.kids, step, s, lo, h - 1);
      if keys != [] {
        assert rest[0] == keys[0] && rest[1..] == Weave(keys[1..], kids[1..]);
        FrozenIter(keys[1..], kids[1..], step, s, lo, h);
      }
    }
  }

  lemma GeqParts(a: seq<Entry>, b: seq<Entry>, lo: int)
    requires AllGeq(a + b, lo)
    ensures AllGeq(a, lo) && AllGeq(b, lo)
  {
    assert forall i :: 0 <= i < |a| ==> a[i] == (a + b)[i];
    assert forall i :: 0 <= i < |b| ==> b[i] == (a + b)[|a| + i];
  }

  // The walk that overlooks an early stop below it still does what is documented.
  lemma {:induction false} IterIsVisit<S(!new)>(t: Tree, h: nat, lo: nat, step: (S, Entry) -> (S, bool), s: S)
    requires Shape(t, h, lo) && Sorted(Inorder(t)) && FreezesOnStop(step)
    ensures IterTree(t, step, s) == Visit(Inorder(t), step, s)
    decreases t
  {
    IterKidsIsVisit(t.keys, t.kids, h, step, s);
  }

  lemma {:induction false} IterKidsIsVisit<S(!new)>(keys: seq<Entry>, kids: seq<Tree>, h: nat,
      step: (S, Entry) -> (S, bool), s: S)
    requires kids != [] ==> |kids| == |keys| + 1 && h > 0
    requires forall i :: 0 <= i < |kids| ==> Shape(kids[i], h - 1, M - 1)
    requires Sorted(Weave(keys, kids)) && FreezesOnStop(step)
    ensures IterKids(keys, kids, step, s) == Visit(Weave(keys, kids), step, s)
    decreases kids, |keys|
  {
    var all := Weave(keys, kids);
    if kids == [] {
      if keys != [] && step(s, keys[0]).1 {
        IterKidsIsVisit(keys[1..], [], h, step, step(s, keys[0]).0);
      }
    } else {
      var first := Inorder(kids[0]);
      var rest := if keys == [] then [] else [keys[0]] + Weave(keys[1..], kids[1..]);
      assert all == first + rest;
      SortedParts(first, rest);
      IterIsVisit(kids[0], h - 1, M - 1, step, s);
      VisitConcat(first, rest, step, s);
      if keys != [] {
        assert rest[1..] == Weave(keys[1..], kids[1..]);
        if Stopped(first, step, s) {
          LateStepsFrozen(keys, kids, h, step, s);
        } else if step(Visit(first, step, s), keys[0]).1 {
          IterKidsIsVisit(keys[1..], kids[1..], h, step, step(Visit(first, step, s), keys[0]).0);
        }
      }
    }
  }

  // The first kid has stopped; the rest of the node's loop comes to nothing.
  lemma {:induction false} LateStepsFrozen<S(!new)>(keys: seq<Entry>, kids: seq<Tree>, h: nat,
      step: (S, Entry) -> (S, bool), s: S)
    requires |kids| == |keys| + 1 && h > 0 && keys != []
    requires forall i :: 0 <= i < |kids| ==> Shape(kids[i], h - 1, M - 1)
    requires Sorted(Weave(keys, kids)) && FreezesOnStop(step) && Stopped(Inorder(kids[0]), step, s)
    requires IterTree(kids[0], step, s) == Visit(Inorder(kids[0]), step, s)
    ensures IterKids(keys, kids, step, s) == Visit(Inorder(kids[0]), step, s)
  {
    var first, rest := Inorder(kids[0]), Weave(keys[1..], kids[1..]);
    var all, n := Weave(keys, kids), |Inorder(kids[0])|;
    var lo := keys[0].key;
    assert all == first + ([keys[0]] + rest);
    assert AllLeq(first, lo) by {
      assert forall i :: 0 <= i < n ==> first[i] == all[i];
      assert all[n] == keys[0];
    }
    assert AllGeq(rest, lo) by {
      assert forall i :: 0 <= i < |rest| ==> rest[i] == all[n + 1 + i];
      assert all[n] == keys[0];
    }
    StopFreezes(first, lo, step, s);
    FrozenIter(keys[1..], kids[1..], step, Visit(first, step, s), lo, h);
  }

  method IterImpl<S>(node: Node?, step: (S, Entry) -> (S, bool), s: S, ghost t: Tree, ghost nodes: set<Node>)
    returns (s': S)
    requires node != null ==> node == t.ref && RepIn(Snap(nodes), t)
    ensures s' == if node == null then s else IterTree(t, step, s)
    decreases node != null, t
  {
    s' := s;
    if node == null {
      return;
    }
    ghost var m := Snap(nodes);
    ghost var kids := t.kids;
    var i := 0;
    while i < node.size
      invariant i <= node.size == |t.keys| && kids == if t.kids == [] then [] else t.kids[i..]
      invariant Snap(nodes) == m
      invariant IterKids(t.keys[i..], kids, step, s') == IterTree(t, step, s)
    {
      assert Holds(m[node], t) && t.keys[i] == node.data[i];
      s' := IterImpl(node.children[i], step, s', if t.kids == [] then t else t.kids[i], nodes);
      var go := step(s', node.data[i]).1;
      s' := step(s', node.data[i]).0;
      if !go {
        return;
      }
      i := i + 1;
      kids := if t.kids == [] then [] else t.kids[i..];
    }
    s' := IterImpl(node.children[node.size], step, s', if t.kids == [] then t else t.kids[i], nodes);
  }

  lemma SortedParts(a: seq<Entry>, b: seq<Entry>)
    requires Sorted(a + b)
    ensures Sorted(a) && Sorted(b)
  {
    assert forall i :: 0 <= i < |a| ==> a[i] == (a + b)[i];
    assert forall i :: 0 <= i < |b| ==> b[i] == (a + b)[|a| + i];
  }

  // ---------------------------------------------------------------- the object

  // What the root pointer leads to.
  datatype Stored = Nothing | Stored(tree: Tree, height: nat)

  class BTree {
    var root: Node?
    var size: nat
    ghost var stored: Stored

    ghost function Nodes(): set<Node>
      reads this
    {
      if stored.Nothing? then {} else Refs(stored.tree)
    }

    // The elements in order.
    ghost function Contents(): seq<Entry>
      reads this
    {
      if stored.Nothing? then [] else Inorder(stored.tree)
    }

    // A B-tree: sorted, all leaves at one depth, every node but the root at least half full, no node
    // shared, and the counter right.
    ghost predicate Valid()
      reads this, Nodes()
    {
      && size == |Contents()| && Sorted(Contents())
      && (stored.Nothing? ==> root == null)
      && (stored.Stored? ==>
            && root == stored.tree.ref && Rep(stored.tree)
            && Distinct(stored.tree) && Shape(stored.tree, stored.height, 1))
    }

    constructor ()
      ensures Valid() && Contents() == [] && Nodes() == {}
    {
      root, size := null, 0;
      stored := Nothing;
    }

    method Find(key: int) returns (r: Option<Entry>)
      requires Valid()
      ensures Valid()
      ensures r.Some? <==> Has(Contents(), key)
      ensures r.Some? ==> r.value.key == key && r.value in Contents()
    {
      if root == null {
        return None;
      }
      ghost var m := Snap(Nodes());
      r := FindFrom(root, key, stored.tree, stored.height);
    }

    // The callable sees the elements in order until it says stop, provided that it then changes nothing any more.
    method Iterate<S(!new)>(step: (S, Entry) -> (S, bool), s: S) returns (s': S)
      requires Valid()
      ensures Valid()
      ensures FreezesOnStop(step) ==> s' == Visit(Contents(), step, s)
    {
      ghost var m := Snap(Nodes());
      s' := s;
      if root != null {
        s' := IterImpl(root, step, s, stored.tree, Nodes());
        if FreezesOnStop(step) {
          IterIsVisit(stored.tree, stored.height, 1, step, s);
        }
      }
    }

    // A new root above a full one: lines 112-118.
    method GrowRoot(ghost t: Tree, ghost h: nat) returns (ghost t': Tree)
      requires root == t.ref && Rep(t) && Distinct(t) && Shape(t, h, 1) && Sorted(Inorder(t))
      requires |t.keys| == MAX_DATA
      modifies this`root, Refs(t)
      ensures root == t'.ref && Rep(t') && Distinct(t') && Shape(t', h + 1, 1) && Inorder(t') == Inorder(t)
      ensures fresh(Refs(t') - Refs(t)) && |t'.keys| == 1
    {
      hide Inorder, Distinct, Shape, Refs, Snap, Rep, RepIn, Split;
      ghost var nodes := Refs(t);
      ghost var before := Snap(nodes);
      var newRoot := new Node();
      assert newRoot !in nodes;
      newRoot.children := newRoot.children[0 := root];
      ghost var above := Tree(newRoot, [], [t]);
      RepToSnap(t, {newRoot} + nodes);
      RootAbove(Snap({newRoot} + nodes), t, newRoot, h);
      RepOfSnap(above, {newRoot} + nodes);
      root := newRoot;
      var right := SplitChild(newRoot, 0, above);
      t' := Split(above, 0, right);
      SplitInorder(above, 0, right);
      SplitDistinct(above, 0, right);
      RootSplit(above, right, h);
    }

    // Lines 111-121: the tree is not empty.
    method InsertBelow(e: Entry, ghost t: Tree, ghost h: nat) returns (ghost t': Tree, ghost h': nat, ghost at: nat)
      requires root == t.ref && Rep(t) && Distinct(t) && Shape(t, h, 1) && Sorted(Inorder(t))
      modifies this`root, Refs(t)
      ensures root == t'.ref && Rep(t') && Distinct(t') && Shape(t', h', 1) && Sorted(Inorder(t'))
      ensures forall r :: r in Refs(t') && r !in Refs(t) ==> fresh(r)
      ensures at <= |Inorder(t)| && Inorder(t') == Inorder(t)[..at] + [e] + Inorder(t)[at..]
    {
      hide Inorder, Distinct, Snap, Refs, Rep;
      ReadNode(t, []);
      t', h' := t, h;
      if root.size == MAX_DATA {
        t' := GrowRoot(t, h);
        h' := h + 1;
      }
      ghost var nodes := Refs(t');
      label Grown:
      t', at := InsertNonFull(root, e, t', h', 1);
      forall r | r in Refs(t') && r !in Refs(t)
        ensures fresh(r)
      {
        if r in nodes {
          assert r in nodes - Refs(t);
        } else {
          assert fresh@Grown(r);
        }
      }
    }

    method Insert(e: Entry) returns (ghost at: nat)
      requires Valid()
      modifies this, Nodes()
      ensures Valid() && fresh(Nodes() - old(Nodes()))
      ensures at <= |old(Contents())|
      ensures Contents() == old(Contents())[..at] + [e] + old(Contents())[at..]
    {
      hide Inorder, Distinct, Snap, RepIn;
      if root == null {
        root := new Node();
        root.data := root.data[0 := e];
        root.size := 1;
        at := 0;
        stored := Stored(Tree(root, [e], []), 0);
        NewLeaf(root, e);
      } else {
        ghost var t, h;
        t, h, at := InsertBelow(e, stored.tree, stored.height);
        stored := Stored(t, h);
      }
      size := size + 1;
    }

    method Remove(key: int) returns (removed: bool, ghost at: nat)
      requires Valid()
      modifies this, Nodes()
      ensures Valid() && Nodes() <= old(Nodes())
      ensures removed <==> Has(old(Contents()), key)
      ensures !removed ==> Contents() == old(Contents())
      ensures removed ==> at < |old(Contents())| && old(Contents())[at].key == key
                          && Contents() == old(Contents())[..at] + old(Contents())[at + 1..]
    {
      hide Inorder, Distinct, Snap, Shape, Rep;
      at := 0;
      if root == null {
        return false, 0;
      }
      var root';
      ghost var t, h;
      removed, root', t, at, h := RemoveImpl(root, key, stored.tree, stored.height);
      root := root';
      stored := if root == null then Nothing else Stored(t, h);
      if removed {
        SortedWithout(old(Contents()), at);
        size := size - 1;
      }
    }
  }

  lemma NewLeaf(n: Node, e: Entry)
    requires Holds(State(n.data, n.children, n.size), Tree(n, [e], []))
    ensures var t := Tree(n, [e], []);
            Rep(t) && Distinct(t) && Shape(t, 0, 1) && Inorder(t) == [e] && Refs(t) == {n}
  {
  }

  lemma RootAbove(m: map<Node, State>, t: Tree, root: Node, h: nat)
    requires RepIn(m, t) && Distinct(t) && Shape(t, h, 1) && |t.keys| == MAX_DATA && root !in Refs(t)
    requires root in m && Holds(m[root], Tree(root, [], [t]))
    ensures var above := Tree(root, [], [t]);
            && RepIn(m, above) && Distinct(above) && Shape(above, h + 1, 0) && Inorder(above) == Inorder(t)
            && Refs(above) == {root} + Refs(t) && CanSplit(above, 0)
  {
    KidRefsOne(t);
  }

  lemma RootSplit(above: Tree, right: Node, h: nat)
    requires CanSplit(above, 0) && Shape(above, h + 1, 0) && above.keys == []
    ensures var t := Split(above, 0, right);
            Shape(t, h + 1, 1) && |t.keys| == 1 && t.ref == above.ref
  {
    SplitShape(above, 0, right, h + 1, 0);
  }

  lemma SortedWithout(s: seq<Entry>, at: nat)
    requires Sorted(s) && at < |s|
    ensures Sorted(s[..at] + s[at + 1..])
  {
  }
}
