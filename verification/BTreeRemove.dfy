/** Removal: include/data/btree.h:198-321.

    One pass from the root: every node is filled before the descent enters it, so the key that is taken
    out of a leaf never leaves it too small.  A key found in an inner node is remembered (q) and later
    overwritten with its predecessor. */
module BTreeRemove {
  import opened BTreeModel
  import opened BTreePath
  import opened Slots
  import opened BTreeSiblings

  // ---------------------------------------------------------------- filling a child

  // Kid k is where the descent for `key` goes: everything before it is smaller.
  ghost predicate Leads(s: Tree, k: nat, key: int) {
    && k <= |s.keys|
    && (k > 0 ==> s.keys[k - 1].key < key)
    && (k < |s.keys| ==> key <= s.keys[k].key)
  }

  // An inner node of a sorted tree, with its children as full as the descent leaves them.
  ghost predicate InnerNode(s: Tree, h: nat, lo: nat) {
    h > 0 && Shape(s, h, lo) && Sorted(Inorder(s))
  }

  // s' is s with child k filled; the descent goes on at child k'.
  ghost predicate Filled(s: Tree, s': Tree, k': nat, key: int, h: nat) {
    && s.keys != [] && s'.ref == s.ref && InnerNode(s', h, |s.keys| - 1)
    && Leads(s', k', key) && |s'.kids[k'].keys| >= M
  }

  lemma {:induction false} MergeFills(s: Tree, a: nat, k: nat, key: int, h: nat)
    requires InnerNode(s, h, 1) && Leads(s, k, key) && HasPair(s, a)
    requires |s.kids[a].keys| == |s.kids[a + 1].keys| == M - 1
    requires k == a || (k == a + 1 == |s.keys|)
    ensures var s' := Closed(s, a, Join(s.kids[a], s.keys[a], s.kids[a + 1]));
            Inorder(s') == Inorder(s) && Filled(s, s', a, key, h)
  {
    var c := Join(s.kids[a], s.keys[a], s.kids[a + 1]);
    var s' := Closed(s, a, c);
    assert Shape(s.kids[a], h - 1, M - 1) && Shape(s.kids[a + 1], h - 1, M - 1);
    ClosedInorder(s, a);
    assert Shape(c, h - 1, M - 1);
    ClosedShape(s, a, c, h);
    if k == a && a + 1 < |s.keys| {
      KeysSorted(s, a, a + 1);
    }
    if k == a + 1 && a > 0 {
      KeysSorted(s, a - 1, a);
    }
  }

  lemma {:induction false} ClosedShape(s: Tree, a: nat, c: Tree, h: nat)
    requires h > 0 && Shape(s, h, 1) && HasPair(s, a) && Shape(c, h - 1, M - 1)
    ensures Shape(Closed(s, a, c), h, |s.keys| - 1)
  {
    var s' := Closed(s, a, c);
    forall j | 0 <= j < |s'.kids|
      ensures Shape(s'.kids[j], h - 1, M - 1)
    {
      if j > a {
        assert s'.kids[j] == s.kids[j + 1];
      }
    }
  }

  // A key of a kid lies between the keys beside the kid.
  lemma {:induction false} KeyWithin(s: Tree, i: nat, j: nat)
    requires i < |s.kids| == |s.keys| + 1 && Sorted(Inorder(s)) && WellShaped(s.kids[i]) && j < |s.kids[i].keys|
    ensures i > 0 ==> s.keys[i - 1].key <= s.kids[i].keys[j].key
    ensures i < |s.keys| ==> s.kids[i].keys[j].key <= s.keys[i].key
  {
    hide Inorder, Sorted;
    KidBounds(s, i);
    var at := KeyInside(s.kids[i], j);
  }

  // Two siblings after a rotation, and their parent.
  lemma RotatedLeft(l: Tree, m: Entry, r: Tree, h: nat)
    requires Shape(l, h, M - 1) && Shape(r, h, M - 1) && |l.keys| == M - 1 < |r.keys|
    ensures Shape(LeftGrown(l, m, r), h, M - 1) && Shape(RightShrunk(r), h, M - 1)
    ensures |LeftGrown(l, m, r).keys| == M
  {
  }

  lemma RotatedRight(l: Tree, m: Entry, r: Tree, h: nat)
    requires Shape(l, h, M - 1) && Shape(r, h, M - 1) && |r.keys| == M - 1 < |l.keys|
    ensures Shape(LeftShrunk(l), h, M - 1) && Shape(RightGrown(l, m, r), h, M - 1)
    ensures |RightGrown(l, m, r).keys| == M
  {
  }

  lemma PairShape(s: Tree, k: nat, h: nat)
    requires Shape(s, h, 1) && h > 0 && k < |s.keys|
    ensures |s.kids| == |s.keys| + 1 && HasPair(s, k) && Siblings(s.kids[k], s.kids[k + 1])
    ensures WellShaped(s.kids[k]) && WellShaped(s.kids[k + 1])
  {
    assert Shape(s.kids[k], h - 1, M - 1) && Shape(s.kids[k + 1], h - 1, M - 1);
  }

  lemma ResplitShape(s: Tree, k: nat, l: Tree, m: Entry, r: Tree, h: nat)
    requires HasPair(s, k) && h > 0 && Shape(s, h, 1) && Shape(l, h - 1, M - 1) && Shape(r, h - 1, M - 1)
    ensures Shape(Resplit(s, k, l, m, r), h, |s.keys| - 1)
  {
  }

  lemma {:induction false} ShiftLeftFills(s: Tree, k: nat, key: int, h: nat)
    requires InnerNode(s, h, 1) && Leads(s, k, key) && k < |s.keys|
    requires |s.kids[k].keys| == M - 1 < |s.kids[k + 1].keys|
    ensures var l, m, r := s.kids[k], s.keys[k], s.kids[k + 1];
            var s' := Resplit(s, k, LeftGrown(l, m, r), r.keys[0], RightShrunk(r));
            Inorder(s') == Inorder(s) && Filled(s, s', k, key, h)
  {
    hide Inorder, Weave, After, Refs, Sorted, LeftGrown, RightShrunk;
    var l, m, r := s.kids[k], s.keys[k], s.kids[k + 1];
    assert Shape(l, h - 1, M - 1) && Shape(r, h - 1, M - 1);
    hide Shape;
    PairShape(s, k, h);
    LeftResplits(s, k);
    ResplitInorder(s, k, LeftGrown(l, m, r), r.keys[0], RightShrunk(r));
    RotatedLeft(l, m, r, h - 1);
    KeyWithin(s, k + 1, 0);
    ResplitShape(s, k, LeftGrown(l, m, r), r.keys[0], RightShrunk(r), h);
  }

  lemma {:induction false} ShiftRightFills(s: Tree, k: nat, key: int, h: nat)
    requires InnerNode(s, h, 1) && Leads(s, k, key) && 0 < k == |s.keys|
    requires |s.kids[k].keys| == M - 1 < |s.kids[k - 1].keys|
    ensures var l, m, r := s.kids[k - 1], s.keys[k - 1], s.kids[k];
            var s' := Resplit(s, k - 1, LeftShrunk(l), l.keys[|l.keys| - 1], RightGrown(l, m, r));
            Inorder(s') == Inorder(s) && Filled(s, s', k, key, h)
  {
    hide Inorder, Weave, After, Refs, Sorted, LeftShrunk, RightGrown;
    var l, m, r := s.kids[k - 1], s.keys[k - 1], s.kids[k];
    assert Shape(l, h - 1, M - 1) && Shape(r, h - 1, M - 1);
    hide Shape;
    PairShape(s, k - 1, h);
    RightResplits(s, k - 1);
    ResplitInorder(s, k - 1, LeftShrunk(l), l.keys[|l.keys| - 1], RightGrown(l, m, r));
    RotatedRight(l, m, r, h - 1);
    KeyWithin(s, k - 1, |l.keys| - 1);
    ResplitShape(s, k - 1, LeftShrunk(l), l.keys[|l.keys| - 1], RightGrown(l, m, r), h);
  }

  // What the pointer to an inner node reads about its children.
  lemma KidSizes(s: Tree, h: nat)
    requires Rep(s) && h > 0 && Shape(s, h, 1)
    ensures s.ref in Refs(s) && s.ref.size == |s.keys| && |s.ref.children| == MAX_CHILDREN
    ensures forall j :: 0 <= j < |s.kids| ==>
              s.kids[j].ref in Refs(s) && s.ref.children[j] == s.kids[j].ref
              && s.kids[j].ref.size == |s.kids[j].keys| && Shape(s.kids[j], h - 1, M - 1)
  {
    var m := Snap(Refs(s));
    forall j | 0 <= j < |s.kids|
      ensures s.kids[j].ref in Refs(s) && s.kids[j].ref.size == |s.kids[j].keys|
    {
      KidRefsAt(s.kids, j);
      assert RepIn(m, s.kids[j]);
    }
  }

  // Lines 291-305: child k gets a key from a sibling, or is merged with it.
  method FillChild(p: Node, k: nat, key: int, ghost s: Tree, ghost h: nat)
    returns (ghost s': Tree, ghost k': nat)
    requires p == s.ref && Rep(s) && Distinct(s) && InnerNode(s, h, 1) && Leads(s, k, key)
    requires |s.keys| == 1 ==> |s.kids[0].keys| + |s.kids[1].keys| > 2 * (M - 1)
    modifies Refs(s)
    ensures Rep(s') && Refs(s') <= Refs(s) && Distinct(s') && Inorder(s') == Inorder(s)
    ensures Filled(s, s', k', key, h)
    ensures |s.keys| == 1 ==> |s'.keys| == 1
  {
    hide Inorder, Distinct, Rep, Refs;
    KidSizes(s, h);
    s', k' := s, k;
    if p.children[k].size == M - 1 {
      if k == p.size {
        if p.children[k - 1].size == M - 1 {
          // REPAIR of include/data/btree.h:294, which passes k - 1 to a function that decrements it.
          s' := MergeTwoSiblings(p, k, s);
          k' := k - 1;
          MergeFills(s, k - 1, k, key, h);
        } else {
          s' := ShiftKeyToSibling(p, k, true, s);
          ShiftRightFills(s, k, key, h);
        }
      } else {
        if p.children[k + 1].size == M - 1 {
          s' := MergeTwoSiblings(p, k + 1, s);
          MergeFills(s, k, k, key, h);
        } else {
          s' := ShiftKeyToSibling(p, k + 1, false, s);
          ShiftLeftFills(s, k, key, h);
        }
      }
    }
  }

  // ---------------------------------------------------------------- the descent

  // Key number path[d] of the node at depth d is the last key passed on the way: everything the
  // descent did below that node was to keep right.
  ghost predicate LastKeyPassed(t: Tree, path: seq<nat>, d: nat) {
    && OnPath(t, path) && d < |path|
    && OnPath(t, path[..d]) && OnPath(t, path[..d + 1]) && OnPath(At(t, path[..d + 1]), path[d + 1..])
    && path[d] < |At(t, path[..d]).keys|
    && Beyond(At(t, path[..d + 1]), path[d + 1..]) == []
  }

  // Key j of s is the first that equals `key`, and none before it is larger.
  ghost predicate FirstAt(s: Tree, j: nat, key: int) {
    j < |s.keys| && s.keys[j].key == key && forall i :: 0 <= i < j ==> s.keys[i].key < key
  }

  // The pointer of a removal: smaller elements before it, none beyond it smaller.  The first element
  // beyond it is the key itself if and only if `found`, and then the node at depth d (the source's q)
  // holds it.
  ghost predicate Removing(t: Tree, path: seq<nat>, key: int, found: bool, d: nat) {
    && OnPath(t, path) && AllLess(Before(t, path), key) && AllGeq(Beyond(t, path), key)
    && (found <==> Beyond(t, path) != [] && Beyond(t, path)[0].key == key)
    && (found ==> LastKeyPassed(t, path, d) && FirstAt(At(t, path[..d]), path[d], key))
  }

  // What the descent needs of the node it stands at, so that one key less is not too few.
  ghost predicate Rich(t: Tree, path: seq<nat>) {
    OnPath(t, path) && |At(t, path).keys| >= if path == [] then 2 else M
  }

  lemma {:induction false} StepSides(t: Tree, path: seq<nat>, key: int, k: nat)
    requires OnPath(t, path) && AllLess(Before(t, path), key) && AllGeq(Beyond(t, path), key) && Sorted(Inorder(t))
    requires |At(t, path).kids| == |At(t, path).keys| + 1 && Leads(At(t, path), k, key)
    ensures OnPath(t, path + [k]) && At(t, path + [k]) == At(t, path).kids[k]
    ensures AllLess(Before(t, path + [k]), key) && AllGeq(Beyond(t, path + [k]), key)
    ensures if k < |At(t, path).keys|
            then Beyond(t, path + [k]) != [] && Beyond(t, path + [k])[0] == At(t, path).keys[k]
            else Beyond(t, path + [k]) == Beyond(t, path)
  {
    Descend(t, path, k);
    DescendSides(t, path, k);
    SortedAt(t, path);
    SideBounds(At(t, path), k);
    hide Inorder, Weave, After, At, OnPath, Before, Beyond, Refs, Sorted;
  }

  lemma {:induction false} RemovingStep(t: Tree, path: seq<nat>, key: int, found: bool, d: nat, k: nat)
    requires Removing(t, path, key, found, d) && Sorted(Inorder(t))
    requires |At(t, path).kids| == |At(t, path).keys| + 1 && Leads(At(t, path), k, key)
    requires forall j :: 0 <= j < k ==> At(t, path).keys[j].key < key
    ensures var s := At(t, path);
            var here := k < |s.keys| && s.keys[k].key == key;
            Removing(t, path + [k], key, found || here, if here then |path| else d)
            && At(t, path + [k]) == s.kids[k]
  {
    hide Inorder, Before, Refs, AllLess, AllGeq, Sorted;
    var s := At(t, path);
    var path' := path + [k];
    StepSides(t, path, key, k);
    if k < |s.keys| && s.keys[k].key == key {
      PassedHere(t, path, k);
      hide At, OnPath, LastKeyPassed, Beyond;
    } else if k < |s.keys| {
      OrderBeyond(t, path);
    } else if found {
      KeepRight(t, path, d, k);
      assert path'[..d] == path[..d];
    }
  }

  lemma PassedHere(t: Tree, path: seq<nat>, k: nat)
    requires OnPath(t, path) && OnPath(t, path + [k]) && k < |At(t, path).keys|
    ensures (path + [k])[..|path|] == path && (path + [k])[|path|] == k
    ensures LastKeyPassed(t, path + [k], |path|)
  {
    var path' := path + [k];
    assert path'[..|path|] == path && path'[..|path| + 1] == path' && path'[|path| + 1..] == [];
    hide At, Inorder, Refs;
  }

  // The subtree's own keys come before whatever lies beyond it.
  lemma {:induction false} OrderBeyond(t: Tree, path: seq<nat>)
    requires OnPath(t, path) && Sorted(Inorder(t)) && WellShaped(At(t, path))
    ensures Beyond(t, path) != [] ==>
              forall i :: 0 <= i < |At(t, path).keys| ==> At(t, path).keys[i].key <= Beyond(t, path)[0].key
  {
    InorderAt(t, path);
    if Beyond(t, path) != [] {
      forall i | 0 <= i < |At(t, path).keys|
        ensures At(t, path).keys[i].key <= Beyond(t, path)[0].key
      {
        var at := KeyInside(At(t, path), i);
        var b, c := |Before(t, path)|, |Inorder(At(t, path))|;
        assert Inorder(t)[b + at] == At(t, path).keys[i] && Inorder(t)[b + c] == Beyond(t, path)[0];
      }
    }
  }

  // The last child of a node with nothing beyond it has nothing beyond it.
  lemma {:induction false} KeepRightBelow(c: Tree, rest: seq<nat>, k: nat)
    requires OnPath(c, rest) && Beyond(c, rest) == []
    requires k == |At(c, rest).keys| && |At(c, rest).kids| == k + 1
    ensures OnPath(c, rest + [k]) && Beyond(c, rest + [k]) == []
  {
    hide Inorder, Weave, Refs, At, OnPath, Beyond;
    Descend(c, rest, k);
    DescendSides(c, rest, k);
  }

  lemma {:induction false} KeepRight(t: Tree, path: seq<nat>, d: nat, k: nat)
    requires LastKeyPassed(t, path, d)
    requires k == |At(t, path).keys| && |At(t, path).kids| == k + 1 && OnPath(t, path + [k])
    ensures LastKeyPassed(t, path + [k], d)
  {
    hide At, OnPath, Beyond;
    var path' := path + [k];
    var c, rest := At(t, path[..d + 1]), path[d + 1..];
    assert path == path[..d + 1] + rest;
    PathConcat(t, path[..d + 1], rest);
    assert path'[..d] == path[..d] && path'[..d + 1] == path[..d + 1] && path'[d + 1..] == rest + [k];
    KeepRightBelow(c, rest, k);
  }

  // Filling a child below the pointer does not disturb the search.
  lemma {:induction false} RemovingKept(t: Tree, path: seq<nat>, s': Tree, key: int, found: bool, d: nat)
    requires Removing(t, path, key, found, d)
    requires s'.ref == At(t, path).ref
    ensures Removing(Replace(t, path, s'), path, key, found, d)
    ensures found ==> At(Replace(t, path, s'), path[..d]).ref == At(t, path[..d]).ref
  {
    hide Inorder, Before, Replace, At, OnPath;
    var t' := Replace(t, path, s');
    ReplaceAt(t, path, s');
    if found {
      ReplaceSplit(t, path, d, s');
      var q1, q2 := path[..d + 1], path[d + 1..];
      assert path == q1 + q2;
      ReplacePart(t, q1, q2, s');
      ReplaceAt(At(t, q1), q2, s');
    }
  }

  // An edit seen from a node on the way to it.
  lemma {:induction false} ReplacePart(t: Tree, p1: seq<nat>, p2: seq<nat>, s: Tree)
    requires OnPath(t, p1 + p2)
    ensures OnPath(t, p1) && OnPath(At(t, p1), p2)
    ensures OnPath(Replace(t, p1 + p2, s), p1)
    ensures At(Replace(t, p1 + p2, s), p1) == Replace(At(t, p1), p2, s)
  {
    PathConcat(t, p1, p2);
    ReplaceConcat(t, p1, p2, s);
    ReplaceAt(t, p1, Replace(At(t, p1), p2, s));
  }

  // ---------------------------------------------------------------- taking the element out

  // t' is t without the element at position `at`, which has the key.
  ghost predicate Removed(t: Tree, t': Tree, key: int, at: nat, h: nat) {
    && t'.ref == t.ref && Distinct(t') && Refs(t') <= Refs(t) && Shape(t', h, 1)
    && at < |Inorder(t)| && Inorder(t)[at].key == key
    && Inorder(t') == Inorder(t)[..at] + Inorder(t)[at + 1..]
  }

  ghost function Without(s: Tree, i: nat): Tree
    requires i < |s.keys|
  {
    Tree(s.ref, s.keys[..i] + s.keys[i + 1..], [])
  }

  lemma DropBetween(b: seq<Entry>, k: seq<Entry>, y: seq<Entry>, i: nat)
    requires i < |k|
    ensures b + (k[..i] + k[i + 1..]) + y == (b + k + y)[..|b| + i] + (b + k + y)[|b| + i + 1..]
  {
    hide *;
    CutAt(b, k, y, i);
    CutAt(b, k, y, i + 1);
    Grouped(b, k[..i], k[i + 1..], y);
  }

  lemma {:induction false} RemoveFromLeaf(m: map<Node, State>, m': map<Node, State>, t: Tree, path: seq<nat>,
      i: nat, key: int, h: nat)
    requires RepIn(m, t) && Distinct(t) && Shape(t, h, 1) && Rich(t, path)
    requires At(t, path).kids == [] && i < |At(t, path).keys| && At(t, path).keys[i].key == key
    requires SameOutside(m, m', {At(t, path).ref}) && RepIn(m', Without(At(t, path), i))
    ensures var t' := Replace(t, path, Without(At(t, path), i));
            Removed(t, t', key, |Before(t, path)| + i, h) && RepIn(m', t')
  {
    hide Inorder, Weave, Before, Beyond, At, Replace, Holds;
    var s' := Without(At(t, path), i);
    ReplaceShape(t, path, s', h, 1);
    ReplaceInorder(t, path, s');
    InorderAt(t, path);
    LeafInorder(At(t, path));
    LeafInorder(s');
    DropBetween(Before(t, path), At(t, path).keys, Beyond(t, path), i);
    ReplaceDistinct(t, path, s', {});
    ReplaceRep(m, m', t, path, s');
  }

  // A node with key j exchanged.
  ghost function WithKey(s: Tree, j: nat, e: Entry): Tree
    requires j < |s.keys|
  {
    Tree(s.ref, s.keys[j := e], s.kids)
  }

  // The leaf gives its last key to the node at depth d, in place of the key passed there.
  ghost function Pulled(t: Tree, path: seq<nat>, d: nat): Tree
    requires OnPath(t, path) && At(t, path).keys != []
    requires LastKeyPassed(t, path, d)
  {
    var s := At(t, path);
    var t1 := Replace(t, path, Without(s, |s.keys| - 1));
    ReplaceSplit(t, path, d, Without(s, |s.keys| - 1));
    Replace(t1, path[..d], WithKey(At(t1, path[..d]), path[d], s.keys[|s.keys| - 1]))
  }

  lemma {:induction false} ReplaceSplit(t: Tree, path: seq<nat>, d: nat, s: Tree)
    requires OnPath(t, path) && d < |path|
    ensures OnPath(t, path[..d]) && OnPath(At(t, path[..d]), path[d..])
    ensures OnPath(Replace(t, path, s), path[..d])
    ensures At(Replace(t, path, s), path[..d]) == Replace(At(t, path[..d]), path[d..], s)
    ensures At(Replace(t, path, s), path[..d]).keys == At(t, path[..d]).keys
    ensures At(Replace(t, path, s), path[..d]).ref == At(t, path[..d]).ref
  {
    assert path == path[..d] + path[d..];
    ReplacePart(t, path[..d], path[d..], s);
  }

  // Exchanging key j of an inner node exchanges one element.
  lemma {:induction false} WithKeyInorder(s: Tree, j: nat, e: Entry)
    requires j < |s.keys| && |s.kids| == |s.keys| + 1
    ensures Inorder(s) == Weave(s.keys[..j], s.kids[..j]) + Inorder(s.kids[j])
                          + ([s.keys[j]] + Weave(s.keys[j + 1..], s.kids[j + 1..]))
    ensures Inorder(WithKey(s, j, e)) == Weave(s.keys[..j], s.kids[..j]) + Inorder(s.kids[j])
                                         + ([e] + Weave(s.keys[j + 1..], s.kids[j + 1..]))
  {
    var s' := WithKey(s, j, e);
    AroundKid(s, j);
    AroundKid(s', j);
    assert s'.keys[..j] == s.keys[..j] && s'.keys[j..][1..] == s.keys[j + 1..] == s.keys[j..][1..];
  }

  // The same at the node itself: its kid j ends in the leaf, whose last key replaces key j.
  lemma {:induction false} PulledNode(q: Tree, j: nat, rest: seq<nat>) returns (at: nat)
    requires |q.kids| == |q.keys| + 1 && j < |q.keys| && OnPath(q.kids[j], rest)
    requires Beyond(q.kids[j], rest) == [] && At(q.kids[j], rest).kids == [] && At(q.kids[j], rest).keys != []
    ensures var s := At(q.kids[j], rest);
            var n := |s.keys| - 1;
            var q1 := Tree(q.ref, q.keys, q.kids[j := Replace(q.kids[j], rest, Without(s, n))]);
            && at < |Inorder(q)| && Inorder(q)[at] == q.keys[j]
            && Inorder(WithKey(q1, j, s.keys[n])) == Inorder(q)[..at] + Inorder(q)[at + 1..]
  {
    hide Inorder, Weave, Before, Beyond, Replace, At, OnPath;
    var c := q.kids[j];
    var s := At(c, rest);
    var n := |s.keys| - 1;
    var c1 := Replace(c, rest, Without(s, n));
    var q1 := Tree(q.ref, q.keys, q.kids[j := c1]);
    InorderAt(c, rest);
    ReplaceInorder(c, rest, Without(s, n));
    LeafInorder(s);
    LeafInorder(Without(s, n));
    WithKeyInorder(q, j, s.keys[n]);
    WithKeyInorder(q1, j, s.keys[n]);
    assert q1.kids[..j] == q.kids[..j] && q1.kids[j + 1..] == q.kids[j + 1..];
    at := |Weave(q.keys[..j], q.kids[..j])| + |Inorder(c)|;
    PullBack(Weave(q.keys[..j], q.kids[..j]), Before(c, rest), s.keys, q.keys[j],
      Weave(q.keys[j + 1..], q.kids[j + 1..]));
  }

  lemma PullBack(w: seq<Entry>, b: seq<Entry>, k: seq<Entry>, m: Entry, y: seq<Entry>)
    requires k != []
    ensures var n := |k| - 1;
            var all := w + (b + k + []) + ([m] + y);
            var at := |w| + |b + k + []|;
            w + (b + k[..n] + []) + ([k[n]] + y) == all[..at] + all[at + 1..] && all[at] == m
  {
    var n := |k| - 1;
    var all := w + (b + k + []) + ([m] + y);
    var at := |w| + |b + k + []|;
    assert k[..n] + [k[n]] == k;
    assert all[..at] == w + b + k && all[at + 1..] == y;
  }

  lemma {:induction false} PulledInorder(t: Tree, path: seq<nat>, d: nat) returns (at: nat)
    requires OnPath(t, path) && At(t, path).keys != [] && At(t, path).kids == [] && LastKeyPassed(t, path, d)
    ensures at < |Inorder(t)| && Inorder(t)[at] == At(t, path[..d]).keys[path[d]]
    ensures Inorder(Pulled(t, path, d)) == Inorder(t)[..at] + Inorder(t)[at + 1..]
  {
    hide Inorder, Weave, Before, At, OnPath, Beyond, Refs;
    var p, j, rest := path[..d], path[d], path[d + 1..];
    var q := At(t, p);
    var s := At(t, path);
    var leaf := Without(s, |s.keys| - 1);
    var t1 := Replace(t, path, leaf);
    PassedKid(t, path, d);
    ReplaceSplit(t, path, d, leaf);
    var q1 := At(t1, p);
    assert path[d..] == [j] + rest && ([j] + rest)[1..] == rest;
    assert q1 == Tree(q.ref, q.keys, q.kids[j := Replace(q.kids[j], rest, leaf)]);
    var q2 := WithKey(q1, j, s.keys[|s.keys| - 1]);
    var i := PulledNode(q, j, rest);
    SpliceAt(t, path, d, leaf, q2);
    InorderAt(t, p);
    at := |Before(t, p)| + i;
    DropBetween(Before(t, p), Inorder(q), Beyond(t, p), i);
  }

  // What follows depth d of a path whose key there was passed.
  lemma {:induction false} PassedKid(t: Tree, path: seq<nat>, d: nat)
    requires LastKeyPassed(t, path, d)
    ensures var q := At(t, path[..d]);
            && |q.kids| == |q.keys| + 1 && path[d] < |q.keys|
            && OnPath(q.kids[path[d]], path[d + 1..]) && Beyond(q.kids[path[d]], path[d + 1..]) == []
            && At(q.kids[path[d]], path[d + 1..]) == At(t, path)
  {
    hide Inorder, Refs, Before, Beyond;
    var p := path[..d];
    assert path == p + path[d..];
    PathConcat(t, p, path[d..]);
    assert path[d..][1..] == path[d + 1..] && path[d..][0] == path[d];
    assert path[..d + 1] == p + [path[d]];
    Descend(t, p, path[d]);
  }

  // Two edits, the second at a node on the way to the first.
  lemma {:induction false} SpliceAt(t: Tree, path: seq<nat>, d: nat, s: Tree, q: Tree)
    requires OnPath(t, path) && d < |path| && OnPath(t, path[..d]) && OnPath(Replace(t, path, s), path[..d])
    ensures Inorder(Replace(Replace(t, path, s), path[..d], q)) ==
            Before(t, path[..d]) + Inorder(q) + Beyond(t, path[..d])
  {
    var p := path[..d];
    assert path == p + path[d..];
    PathConcat(t, p, path[d..]);
    ReplaceConcat(t, p, path[d..], s);
    ReplaceAt(t, p, Replace(At(t, p), path[d..], s));
    ReplaceInorder(Replace(t, path, s), p, q);
  }

  lemma {:induction false} PulledRep(m: map<Node, State>, m': map<Node, State>, t: Tree, path: seq<nat>, d: nat,
      h: nat)
    requires RepIn(m, t) && Distinct(t) && Shape(t, h, 1) && Rich(t, path)
    requires At(t, path).kids == [] && LastKeyPassed(t, path, d)
    requires var s, q := At(t, path), At(t, path[..d]);
             var n := |s.keys| - 1;
             && SameOutside(m, m', {s.ref, q.ref})
             && s.ref in m' && Holds(m'[s.ref], Without(s, n))
             && q.ref in m && path[d] < |m[q.ref].data|
             && q.ref in m' && m'[q.ref] == m[q.ref].(data := m[q.ref].data[path[d] := s.keys[n]])
    ensures var t' := Pulled(t, path, d);
            && RepIn(m', t') && Distinct(t') && Shape(t', h, 1) && t'.ref == t.ref && Refs(t') <= Refs(t)
  {
    hide Inorder, Weave, Before, Beyond, Distinct, Shape, At, Replace, OnPath, Refs, KidRefs;
    var p := path[..d];
    var s, q := At(t, path), At(t, p);
    var n := |s.keys| - 1;
    var leaf := Without(s, n);
    LeafApart(t, path, d);
    PathRefs(t, path);
    RepNodes(m, t);
    // first the leaf loses its last key ...
    var m1 := m[s.ref := m'[s.ref]];
    RemoveFromLeaf(m, m1, t, path, n, s.keys[n].key, h);
    var t1 := Replace(t, path, leaf);
    // ... then the node above takes it.
    ReplaceSplit(t, path, d, leaf);
    var q2 := WithKey(At(t1, p), path[d], s.keys[n]);
    WithKeyShape(t1, p, path[d], s.keys[n], h);
    WithKeyRep(m1, m', t1, p, path[d], s.keys[n]);
    ReplaceRep(m1, m', t1, p, q2);
    ReplaceDistinct(t1, p, q2, {});
  }

  lemma {:induction false} WithKeyRep(m: map<Node, State>, m': map<Node, State>, t: Tree, path: seq<nat>,
      j: nat, e: Entry)
    requires RepIn(m, t) && Distinct(t) && OnPath(t, path) && j < |At(t, path).keys|
    requires var q := At(t, path);
             && SameOutside(m, m', {q.ref}) && q.ref in m && j < |m[q.ref].data|
             && q.ref in m' && m'[q.ref] == m[q.ref].(data := m[q.ref].data[j := e])
    ensures RepIn(m', WithKey(At(t, path), j, e)) && Distinct(WithKey(At(t, path), j, e))
    ensures Refs(WithKey(At(t, path), j, e)) == Refs(At(t, path)) && SameOutside(m, m', Refs(At(t, path)))
  {
    var q := At(t, path);
    PathRep(m, t, path);
    PathDistinct(t, path);
    AllRepFrame(m, m', q.kids, {q.ref});
    assert m'[q.ref].data[..|q.keys|] == q.keys[j := e];
  }

  lemma {:induction false} WithKeyShape(t: Tree, path: seq<nat>, j: nat, e: Entry, h: nat)
    requires Shape(t, h, 1) && OnPath(t, path) && j < |At(t, path).keys|
    ensures Shape(Replace(t, path, WithKey(At(t, path), j, e)), h, 1)
  {
    ReplaceShape(t, path, WithKey(At(t, path), j, e), h, 1);
  }

  // A node above the leaf is not the leaf.
  lemma {:induction false} LeafApart(t: Tree, path: seq<nat>, d: nat)
    requires Distinct(t) && OnPath(t, path) && d < |path|
    ensures OnPath(t, path[..d]) && At(t, path[..d]).ref != At(t, path).ref
    ensures At(t, path[..d]).ref in Refs(t)
  {
    var p, r := path[..d], path[d..];
    assert path == p + r;
    PathConcat(t, p, r);
    PathDistinct(t, p);
    PathRefs(t, p);
    var q := At(t, p);
    KidRefsAt(q.kids, r[0]);
    PathRefs(q.kids[r[0]], r[1..]);
  }

  // ---------------------------------------------------------------- the loops

  method FirstGeq(data: seq<Entry>, size: nat, key: int) returns (k: nat)
    requires size <= |data|
    ensures k <= size && forall j :: 0 <= j < k ==> data[j].key < key
    ensures k < size ==> key <= data[k].key
  {
    k := 0;
    while k < size && key > data[k].key
      invariant k <= size && forall j :: 0 <= j < k ==> data[j].key < key
    {
      k := k + 1;
    }
  }

  method FirstEqual(data: seq<Entry>, size: nat, key: int) returns (i: nat)
    requires size <= |data|
    ensures i <= size && forall j :: 0 <= j < i ==> data[j].key != key
    ensures i < size ==> data[i].key == key
  {
    i := 0;
    while i < size && data[i].key != key
      invariant i <= size && forall j :: 0 <= j < i ==> data[j].key != key
    {
      i := i + 1;
    }
  }

  // A key leaves a leaf, and the larger ones close up.
  method DropFromLeaf(p: Node, i: nat, ghost s: Tree)
    requires |p.data| == MAX_DATA && |p.children| == MAX_CHILDREN && i < p.size
    requires p == s.ref && s.kids == [] && Holds(State(p.data, p.children, p.size), s)
    modifies p
    ensures Holds(State(p.data, p.children, p.size), Without(s, i))
  {
    p.data := ShiftDown(p.data, i, p.size - 1);
    p.data := p.data[p.size - 1 := EMPTY];
    p.size := p.size - 1;
    assert p.data[..p.size] == s.keys[..i] + s.keys[i + 1..];
  }

  lemma NotAmong(b: seq<Entry>, k: seq<Entry>, y: seq<Entry>, key: int)
    requires AllLess(b, key) && Sorted(b + k + y) && AllGeq(y, key) && !(y != [] && y[0].key == key)
    requires forall j :: 0 <= j < |k| ==> k[j].key != key
    ensures !Has(b + k + y, key)
  {
    var all := b + k + y;
    forall i | 0 <= i < |all|
      ensures all[i].key != key
    {
      if i < |b| {
        assert all[i] == b[i];
      } else if i >= |b| + |k| {
        assert all[i] == y[i - |b| - |k|] && all[|b| + |k|] == y[0];
      }
    }
  }

  lemma {:induction false} NotThere(t: Tree, path: seq<nat>, key: int, d: nat)
    requires Removing(t, path, key, false, d) && Sorted(Inorder(t))
    requires At(t, path).kids == [] && forall j :: 0 <= j < |At(t, path).keys| ==> At(t, path).keys[j].key != key
    ensures !Has(Inorder(t), key)
  {
    InorderAt(t, path);
    LeafInorder(At(t, path));
    NotAmong(Before(t, path), At(t, path).keys, Beyond(t, path), key);
  }

  // What a removal starts from, at a leaf.
  ghost predicate AtLeaf(t: Tree, path: seq<nat>, p: Node, h: nat)
    reads Refs(t)
  {
    && Rep(t) && Distinct(t) && Shape(t, h, 1) && Rich(t, path)
    && At(t, path).ref == p && At(t, path).kids == []
  }

  method TakeOwnKey(p: Node, i: nat, key: int, ghost t: Tree, ghost path: seq<nat>, ghost h: nat)
    returns (ghost t': Tree, ghost at: nat)
    requires AtLeaf(t, path, p, h) && i < |At(t, path).keys| && At(t, path).keys[i].key == key
    modifies Refs(t)
    ensures Rep(t') && Removed(t, t', key, at, h)
  {
    hide Inorder, Weave, Distinct, Shape, Replace, At, Refs, Rep, Snap;
    ghost var before := Snap(Refs(t));
    RepToSnap(t, Refs(t));
    ghost var s := At(t, path);
    ReadNode(t, path);
    DropFromLeaf(p, i, s);
    RemoveFromLeaf(before, Snap(Refs(t)), t, path, i, key, h);
    t', at := Replace(t, path, Without(s, i)), |Before(t, path)| + i;
    RepOfSnap(t', Refs(t));
  }

  method PullKey(p: Node, q: Node, j: nat, key: int, ghost t: Tree, ghost path: seq<nat>, ghost d: nat, ghost h: nat)
    returns (ghost t': Tree, ghost at: nat)
    requires AtLeaf(t, path, p, h) && LastKeyPassed(t, path, d) && j == path[d]
    requires q == At(t, path[..d]).ref && At(t, path[..d]).keys[j].key == key
    modifies Refs(t)
    ensures Rep(t') && Removed(t, t', key, at, h)
  {
    hide Inorder, Weave, Distinct, Shape, Replace, At, Refs, Rep, Snap;
    ghost var before := Snap(Refs(t));
    RepToSnap(t, Refs(t));
    ghost var s := At(t, path);
    ReadNode(t, path);
    LeafApart(t, path, d);
    ReadNode(t, path[..d]);
    assert p.data[..p.size][p.size - 1] == s.keys[|s.keys| - 1];
    q.data := q.data[j := p.data[p.size - 1]];
    // Line 277 blanks the slot and line 278 drops it: the last key of the leaf, so nothing closes up.
    DropFromLeaf(p, p.size - 1, s);
    PulledRep(before, Snap(Refs(t)), t, path, d, h);
    at := PulledInorder(t, path, d);
    t' := Pulled(t, path, d);
    RepOfSnap(t', Refs(t));
  }

  // Lines 262-283: the descent has reached a leaf.
  method TakeFromLeaf(p: Node, q: Node?, found: bool, key: int, ghost t: Tree, ghost path: seq<nat>,
      ghost d: nat, ghost h: nat)
    returns (removed: bool, ghost t': Tree, ghost at: nat)
    requires AtLeaf(t, path, p, h) && Sorted(Inorder(t))
    requires Removing(t, path, key, found, d) && (found ==> q == At(t, path[..d]).ref)
    modifies Refs(t)
    ensures Rep(t')
    ensures removed ==> Removed(t, t', key, at, h)
    ensures !removed ==> t' == t && !Has(Inorder(t), key)
  {
    hide Inorder, Before, Beyond, Distinct, Shape;
    ghost var m := Snap(Refs(t));
    ReadNode(t, path);
    var i := FirstEqual(p.data, p.size, key);
    if i < p.size {
      t', at := TakeOwnKey(p, i, key, t, path, h);
      return true, t', at;
    }
    if found {
      ReadNode(t, path[..d]);
      var j := FirstEqual(q.data, q.size, key);
      assert j == path[d] by {
        assert q.data[..q.size][path[d]] == q.data[path[d]];
      }
      t', at := PullKey(p, q, j, key, t, path, d, h);
      return true, t', at;
    }
    NotThere(t, path, key, d);
    return false, t, 0;
  }

  // ---------------------------------------------------------------- one step of the descent

  // What the descent stands on between two steps.
  ghost predicate Standing(t: Tree, path: seq<nat>, p: Node, q: Node?, key: int, found: bool, d: nat, h: nat)
    reads Refs(t)
  {
    && Rep(t) && Distinct(t) && Shape(t, h, 1) && Sorted(Inorder(t))
    && OnPath(t, path) && Removing(t, path, key, found, d) && At(t, path).ref == p
    && (found ==> d < |path| && OnPath(t, path[..d]) && q == At(t, path[..d]).ref)
  }

  // With one key, a root can be entered only if its two children are not both minimal: otherwise the
  // source collapses it first.
  ghost predicate Enterable(t: Tree, path: seq<nat>)
    requires OnPath(t, path)
  {
    var s := At(t, path);
    && s.kids != []
    && (path != [] ==> |s.keys| >= M)
    && (path == [] && |s.keys| == 1 && |s.kids| == 2 ==> |s.kids[0].keys| + |s.kids[1].keys| > 2 * (M - 1))
  }

  // Lines 285-305, seen in the whole tree.
  method FillBelow(p: Node, q: Node?, k: nat, key: int, found: bool, ghost t: Tree, ghost path: seq<nat>,
      ghost d: nat, ghost h: nat)
    returns (ghost t': Tree, ghost k': nat)
    requires Standing(t, path, p, q, key, found, d, h) && Enterable(t, path) && Leads(At(t, path), k, key)
    modifies Refs(t)
    ensures Standing(t', path, p, q, key, found, d, h) && Inorder(t') == Inorder(t) && t'.ref == t.ref
    ensures Refs(t') <= Refs(t) && |path| < h && Shape(At(t', path), h - |path|, 1)
    ensures Leads(At(t', path), k', key) && |At(t', path).kids| == |At(t', path).keys| + 1
    ensures |At(t', path).kids[k'].keys| >= M
  {
    hide Inorder, Before, Beyond, Distinct, At, Replace, Refs, Rep, RepIn, Snap, Sorted;
    ghost var s := At(t, path);
    ghost var before := Snap(Refs(t));
    RepToSnap(t, Refs(t));
    ghost var lo := if path == [] then 1 else M - 1;
    ReplaceShape(t, path, s, h, 1);
    SortedAt(t, path);
    PathRefs(t, path);
    PathRep(before, t, path);
    PathDistinct(t, path);
    RepOfSnap(s, Refs(t));
    ghost var s';
    s', k' := FillChild(p, k, key, s, h - |path|);
    RepToSnap(s', Refs(t));
    EditInTree(before, Snap(Refs(t)), t, path, s', {}, h, 1);
    RemovingKept(t, path, s', key, found, d);
    t' := Replace(t, path, s');
    RepOfSnap(t', Refs(t));
  }

  lemma {:induction false} SameLead(s: Tree, k: nat, k': nat, key: int)
    requires WellShaped(s) && Sorted(Inorder(s)) && Leads(s, k, key) && Leads(s, k', key)
    ensures k == k'
  {
    if k < k' {
      KeysSorted(s, k, k' - 1);
    } else if k' < k {
      KeysSorted(s, k', k - 1);
    }
  }

  lemma {:induction false} EqualIsLead(s: Tree, k: nat, i: nat, key: int)
    requires WellShaped(s) && Sorted(Inorder(s)) && k <= |s.keys| && forall j :: 0 <= j < k ==> s.keys[j].key < key
    requires k < |s.keys| ==> key <= s.keys[k].key
    requires i <= |s.keys| && (i < |s.keys| ==> s.keys[i].key == key) && forall j :: 0 <= j < i ==> s.keys[j].key != key
    ensures i < |s.keys| <==> k < |s.keys| && s.keys[k].key == key
  {
    if i < |s.keys| {
      KeysSorted(s, k, i);
    }
  }

  // Lines 306-318: note the key if this node holds it, and go to the child it leads to.
  method StepDown(p: Node, q: Node?, key: int, found: bool, ghost t: Tree, ghost path: seq<nat>, ghost d: nat,
      ghost h: nat, ghost k': nat)
    returns (p': Node, q': Node?, found': bool, ghost path': seq<nat>, ghost d': nat)
    requires Standing(t, path, p, q, key, found, d, h) && |path| < h && Shape(At(t, path), h - |path|, 1)
    requires Leads(At(t, path), k', key) && |At(t, path).kids| == |At(t, path).keys| + 1
    requires |At(t, path).kids[k'].keys| >= M
    ensures Standing(t, path', p', q', key, found', d', h) && |path'| == |path| + 1 && Rich(t, path')
  {
    hide Inorder, Before, Beyond, Distinct, At, Weave;
    ghost var m := Snap(Refs(t));
    ReadNode(t, path);
    found', q', d' := found, q, d;
    var i := FirstEqual(p.data, p.size, key);
    if i < p.size {
      found', q', d' := true, p, |path|;
    }
    var k := FirstGeq(p.data, p.size, key);
    SortedAt(t, path);
    SameLead(At(t, path), k, k', key);
    EqualIsLead(At(t, path), k, i, key);
    RemovingStep(t, path, key, found, d, k);
    path' := path + [k];
    p' := p.children[k];
    assert path'[..|path|] == path;
    assert found' ==> path'[..d'] == if i < p.size then path else path[..d];
  }

  // Lines 284-319: fill the child the search leads to, then go down.
  method DescendOne(p: Node, q: Node?, key: int, found: bool, ghost t: Tree, ghost path: seq<nat>, ghost d: nat,
      ghost h: nat)
    returns (p': Node, q': Node?, found': bool, ghost t': Tree, ghost path': seq<nat>, ghost d': nat)
    requires Standing(t, path, p, q, key, found, d, h) && Enterable(t, path)
    modifies Refs(t)
    ensures Standing(t', path', p', q', key, found', d', h) && Inorder(t') == Inorder(t) && t'.ref == t.ref
    ensures Refs(t') <= Refs(t) && |path'| == |path| + 1 <= h && Rich(t', path')
  {
    hide Inorder, Before, Beyond, Distinct, At, Weave, Removing;
    ghost var m := Snap(Refs(t));
    ReadNode(t, path);
    ReplaceShape(t, path, At(t, path), h, 1);
    var k := FirstGeq(p.data, p.size, key);
    ghost var k';
    t', k' := FillBelow(p, q, k, key, found, t, path, d, h);
    ghost var m' := Snap(Refs(t'));
    p', q', found', path', d' := StepDown(p, q, key, found, t', path, d, h, k');
  }

  // ---------------------------------------------------------------- the root

  method CollapseSlots(p: Node, p1: Node, p2: Node)
    requires p != p1 && p != p2
    requires |p.data| == |p1.data| == |p2.data| == MAX_DATA
    requires |p.children| == |p1.children| == |p2.children| == MAX_CHILDREN
    modifies p
    ensures p.size == MAX_DATA && p.data == old(p1.data[..M - 1] + [p.data[0]] + p2.data[..M - 1])
    ensures p.children == old(p1.children[..M] + p2.children[..M])
  {
    var data := p.data[M - 1 := p.data[0]];
    var children := p.children[0 := p1.children[0]];
    children := children[M := p2.children[0]];
    data := CopyInto(p1.data, 0, M - 1, data, 0);
    children := CopyInto(p1.children, 1, M - 1, children, 1);
    data := CopyInto(p2.data, 0, M - 1, data, M);
    children := CopyInto(p2.children, 1, M - 1, children, M + 1);
    p.data, p.children, p.size := data, children, 2 * M - 1;
  }

  // Lines 223-237: a root with one key and two minimal children takes over what they hold.
  method CollapseRoot(p: Node, ghost t: Tree, ghost h: nat) returns (ghost t': Tree)
    requires p == t.ref && Rep(t) && Distinct(t) && h > 0 && Shape(t, h, 1) && |t.keys| == 1
    requires |t.kids[0].keys| == |t.kids[1].keys| == M - 1
    modifies p
    ensures Rep(t') && Distinct(t') && Shape(t', h - 1, MAX_DATA) && Inorder(t') == Inorder(t)
    ensures t'.ref == t.ref && Refs(t') <= Refs(t)
  {
    ghost var before := Snap(Refs(t));
    ghost var l, m, r := t.kids[0], t.keys[0], t.kids[1];
    PairApart(t, 0);
    PairHolds(before, t, 0);
    assert p.data[0] == p.data[..1][0] == m;
    CollapseSlots(p, p.children[0], p.children[1]);
    t' := Tree(p, l.keys + [m] + r.keys, l.kids + r.kids);
    CollapseHolds(before[l.ref], before[r.ref], State(p.data, p.children, p.size), t, h);
    CollapseTree(before, Snap(Refs(t)), t, h);
    RepOfSnap(t', Refs(t));
  }

  lemma CollapseHolds(l0: State, r0: State, p1: State, t: Tree, h: nat)
    requires h > 0 && Shape(t, h, 1) && |t.keys| == 1 && |t.kids[0].keys| == |t.kids[1].keys| == M - 1
    requires Holds(l0, t.kids[0]) && Holds(r0, t.kids[1])
    requires p1.size == MAX_DATA && p1.data == l0.data[..M - 1] + [t.keys[0]] + r0.data[..M - 1]
    requires p1.children == l0.children[..M] + r0.children[..M]
    ensures Holds(p1, Tree(t.ref, t.kids[0].keys + [t.keys[0]] + t.kids[1].keys, t.kids[0].kids + t.kids[1].kids))
  {
    assert Shape(t.kids[0], h - 1, M - 1) && Shape(t.kids[1], h - 1, M - 1);
  }

  lemma {:induction false} CollapseTree(m: map<Node, State>, m': map<Node, State>, t: Tree, h: nat)
    requires RepIn(m, t) && Distinct(t) && h > 0 && Shape(t, h, 1) && |t.keys| == 1
    requires |t.kids[0].keys| == |t.kids[1].keys| == M - 1
    requires SameOutside(m, m', {t.ref}) && t.ref in m'
    requires Holds(m'[t.ref],
                   Tree(t.ref, t.kids[0].keys + [t.keys[0]] + t.kids[1].keys, t.kids[0].kids + t.kids[1].kids))
    ensures var t' := Tree(t.ref, t.kids[0].keys + [t.keys[0]] + t.kids[1].keys, t.kids[0].kids + t.kids[1].kids);
            && RepIn(m', t') && Distinct(t') && Shape(t', h - 1, MAX_DATA) && Inorder(t') == Inorder(t)
            && Refs(t') <= Refs(t)
  {
    var l, k, r := t.kids[0], t.keys[0], t.kids[1];
    var t' := Tree(t.ref, l.keys + [k] + r.keys, l.kids + r.kids);
    assert Shape(l, h - 1, M - 1) && Shape(r, h - 1, M - 1);
    assert t.kids == [l, r];
    PairRefs(l, r);
    JoinInorder(l, k, r);
    RootInorder(t);
    assert Inorder(t') == Inorder(Join(l, k, r));
    PairApart(t, 0);
    KidRefsConcat(l.kids, r.kids);
    assert AllRep(m, l.kids) && AllRep(m, r.kids) by {
      assert RepIn(m, l) && RepIn(m, r);
    }
    AllRepFrame(m, m', l.kids, {t.ref});
    AllRepFrame(m, m', r.kids, {t.ref});
  }

  lemma {:induction false} RootInorder(t: Tree)
    requires |t.keys| == 1 && |t.kids| == 2
    ensures Inorder(t) == Inorder(t.kids[0]) + [t.keys[0]] + Inorder(t.kids[1])
  {
    AroundKid(t, 0);
    assert t.keys[0..][1..] == [] && t.kids[1..][1..] == [];
    assert Weave([], t.kids[1..]) == Inorder(t.kids[1]) + [];
  }

  // Lines 243-247 and 252-256: the root's only key is compared, and child k entered.
  method LeaveRoot(p: Node, key: int, k: nat, ghost t: Tree, ghost h: nat)
    returns (p': Node, q': Node?, found': bool)
    requires Standing(t, [], p, null, key, false, 0, h) && |t.keys| == 1 && |t.kids| == 2
    requires Leads(t, k, key) && |t.kids[k].keys| >= M
    ensures Standing(t, [k], p', q', key, found', 0, h) && Rich(t, [k])
  {
    hide Inorder, Distinct, Weave, Rep;
    ReadNode(t, []);
    assert p.data[0] == p.data[..1][0] == t.keys[0];
    q', found' := null, false;
    if p.data[0].key == key {
      q', found' := p, true;
    }
    p' := p.children[k];
    RemovingStep(t, [], key, false, 0, k);
    assert [] + [k] == [k] && [k][..0] == [];
  }

  // A small root whose child k has a key to spare.
  ghost predicate RootFilled(t: Tree, t': Tree, k: nat, key: int, h: nat)
    reads Refs(t')
  {
    && Rep(t') && Distinct(t') && Refs(t') <= Refs(t) && t'.ref == t.ref
    && h > 0 && Shape(t', h, 1) && Inorder(t') == Inorder(t)
    && |t'.keys| == 1 && |t'.kids| == 2 && Leads(t', k, key) && |t'.kids[k].keys| >= M
  }

  // Lines 240-242.
  method FillFirst(p: Node, key: int, ghost t: Tree, ghost h: nat) returns (ghost t': Tree)
    requires p == t.ref && Rep(t) && Distinct(t) && InnerNode(t, h, 1) && |t.keys| == 1 && Leads(t, 0, key)
    requires |t.kids[0].keys| + |t.kids[1].keys| > 2 * (M - 1)
    modifies Refs(t)
    ensures RootFilled(t, t', 0, key, h)
  {
    hide Inorder, Distinct, Rep, Refs;
    KidSizes(t, h);
    t' := t;
    if p.children[0].size == M - 1 {
      t' := ShiftKeyToSibling(p, 1, false, t);
      ShiftLeftFills(t, 0, key, h);
    }
  }

  // Lines 249-251.
  method FillSecond(p: Node, key: int, ghost t: Tree, ghost h: nat) returns (ghost t': Tree)
    requires p == t.ref && Rep(t) && Distinct(t) && InnerNode(t, h, 1) && |t.keys| == 1 && Leads(t, 1, key)
    requires |t.kids[0].keys| + |t.kids[1].keys| > 2 * (M - 1)
    modifies Refs(t)
    ensures RootFilled(t, t', 1, key, h)
  {
    hide Inorder, Distinct, Rep, Refs;
    KidSizes(t, h);
    t' := t;
    if p.children[1].size == M - 1 {
      t' := ShiftKeyToSibling(p, 1, true, t);
      ShiftRightFills(t, 1, key, h);
    }
  }

  // Lines 239-257: a root with one key that was not collapsed is left for one of its two children.
  method EnterSmallRoot(p: Node, key: int, ghost t: Tree, ghost h: nat)
    returns (p': Node, q': Node?, found': bool, ghost t': Tree, ghost k: nat)
    requires Standing(t, [], p, null, key, false, 0, h) && t.kids != [] && |t.keys| == 1 && Enterable(t, [])
    modifies Refs(t)
    ensures Standing(t', [k], p', q', key, found', 0, h) && Inorder(t') == Inorder(t) && t'.ref == t.ref
    ensures Refs(t') <= Refs(t) && Rich(t', [k])
  {
    hide Inorder, Distinct, Weave, Snap, RepIn, Refs;
    ReadNode(t, []);
    assert p.data[0] == p.data[..1][0] == t.keys[0];
    if key <= p.data[0].key {
      k := 0;
      t' := FillFirst(p, key, t, h);
      CursorStart(t', key);
      p', q', found' := LeaveRoot(p, key, 0, t', h);
    } else {
      k := 1;
      t' := FillSecond(p, key, t, h);
      CursorStart(t', key);
      p', q', found' := LeaveRoot(p, key, 1, t', h);
    }
  }

  lemma CursorStart(t: Tree, key: int)
    ensures Removing(t, [], key, false, 0)
  {
  }

  // ---------------------------------------------------------------- remove_impl

  // The loop at lines 261-320.
  method RemoveLoop(p0: Node, q0: Node?, found0: bool, key: int, ghost t: Tree, ghost path0: seq<nat>,
      ghost d0: nat, ghost h: nat)
    returns (removed: bool, ghost t': Tree, ghost at: nat)
    requires Standing(t, path0, p0, q0, key, found0, d0, h) && Rich(t, path0) && |path0| <= h
    modifies Refs(t)
    ensures Rep(t')
    ensures removed ==> Removed(t, t', key, at, h)
    ensures !removed ==> Distinct(t') && Shape(t', h, 1) && Inorder(t') == Inorder(t) && Refs(t') <= Refs(t)
                         && t'.ref == t.ref && !Has(Inorder(t), key)
  {
    hide Inorder, Distinct, Removing;
    var p, q, found := p0, q0, found0;
    ghost var path, d := path0, d0;
    t' := t;
    while true
      invariant Standing(t', path, p, q, key, found, d, h) && Rich(t', path) && |path| <= h
      invariant Inorder(t') == Inorder(t) && t'.ref == t.ref && Refs(t') <= Refs(t)
      decreases h - |path|
    {
      ReadNode(t', path);
      ReplaceShape(t', path, At(t', path), h, 1);
      if p.children[0] == null {
        removed, t', at := TakeFromLeaf(p, q, found, key, t', path, d, h);
        return;
      }
      p, q, found, t', path, d := DescendOne(p, q, key, found, t', path, d, h);
    }
  }

  // remove_impl, for a tree that has a root.  A tree of height h shrinks to height h' when its root
  // takes over its two children.
  method RemoveImpl(root: Node, key: int, ghost t: Tree, ghost h: nat)
    returns (removed: bool, root': Node?, ghost t': Tree, ghost at: nat, ghost h': nat)
    requires Rep(t) && Distinct(t) && Shape(t, h, 1) && Sorted(Inorder(t)) && root == t.ref
    modifies Refs(t)
    ensures h' <= h && (root' == root || (root' == null && removed))
    ensures removed && root' == null ==> |Inorder(t)| == 1 && Inorder(t)[0].key == key && at == 0
    ensures removed && root' != null ==> Rep(t') && Removed(t, t', key, at, h')
    ensures !removed ==> Rep(t') && Distinct(t') && Shape(t', h', 1) && Inorder(t') == Inorder(t)
                         && Refs(t') <= Refs(t) && t'.ref == t.ref && !Has(Inorder(t), key)
  {
    hide Inorder, Distinct, Before, Beyond, Refs, Snap, Weave, KidRefs, RepIn, After;
    var p := root;
    root', t', at, h' := root, t, 0, h;
    ReadNode(t, []);
    CursorStart(t, key);
    ghost var m := Snap(Refs(t));
    if p.children[0] == null {
      var i := FirstEqual(p.data, p.size, key);
      if i == p.size {
        NotThere(t, [], key, 0);
        return false, root, t, 0, h;
      }
      if p.size == 1 {
        LeafInorder(t);
        return true, null, t, 0, h;
      }
      t', at := TakeOwnKey(p, i, key, t, [], h);
      return true, root, t', at, h;
    }
    KidSizes(t, h);
    if p.size == 1 {
      if p.children[0].size == p.children[1].size && p.children[1].size == M - 1 {
        t' := CollapseRoot(p, t, h);
        h' := h - 1;
        CursorStart(t', key);
        removed, t', at := RemoveLoop(p, null, false, key, t', [], 0, h');
      } else {
        var q, found;
        ghost var k;
        p, q, found, t', k := EnterSmallRoot(p, key, t, h);
        removed, t', at := RemoveLoop(p, q, found, key, t', [k], 0, h);
      }
    } else {
      removed, t', at := RemoveLoop(p, null, false, key, t, [], 0, h);
    }
  }
}
