/** Insertion: include/data/btree.h:145-196.

    Two lines are repaired here, each marked REPAIR; BTreeAsWritten shows what the lines as they stand
    do, and exactly when that is the same. */
module BTreeInsert {
  import opened BTreeModel
  import opened BTreePath
  import opened Slots

  // The two halves of a full node, around its key number M-1.
  ghost function Lower(c: Tree): Tree
    requires |c.keys| == MAX_DATA && (c.kids != [] ==> |c.kids| == MAX_CHILDREN)
  {
    Tree(c.ref, c.keys[..M - 1], if c.kids == [] then [] else c.kids[..M])
  }

  ghost function Upper(c: Tree, right: Node): Tree
    requires |c.keys| == MAX_DATA && (c.kids != [] ==> |c.kids| == MAX_CHILDREN)
  {
    Tree(right, c.keys[M..], if c.kids == [] then [] else c.kids[M..])
  }

  ghost predicate CanSplit(s: Tree, i: nat) {
    && |s.keys| < MAX_DATA && i < |s.kids| == |s.keys| + 1
    && |s.kids[i].keys| == MAX_DATA
    && (s.kids[i].kids != [] ==> |s.kids[i].kids| == MAX_CHILDREN)
  }

  ghost function Split(s: Tree, i: nat, right: Node): Tree
    requires CanSplit(s, i)
  {
    var c := s.kids[i];
    Opened(s, i, Lower(c), c.keys[M - 1], Upper(c, right))
  }

  lemma {:induction false} SplitInorder(s: Tree, i: nat, right: Node)
    requires CanSplit(s, i)
    ensures Inorder(Split(s, i, right)) == Inorder(s)
  {
    var c := s.kids[i];
    var l, m, r := Lower(c), c.keys[M - 1], Upper(c, right);
    assert Join(l, m, r) == c;
    JoinInorder(l, m, r);
    OpenedInorder(s, i, l, m, r);
  }

  lemma {:induction false} SplitShape(s: Tree, i: nat, right: Node, h: nat, lo: nat)
    requires CanSplit(s, i) && Shape(s, h, lo)
    ensures Shape(Split(s, i, right), h, lo)
  {
    var c := s.kids[i];
    assert Shape(c, h - 1, M - 1);
    assert Shape(Lower(c), h - 1, M - 1);
    assert Shape(Upper(c, right), h - 1, M - 1);
  }

  lemma {:induction false} SplitDistinct(s: Tree, i: nat, right: Node)
    requires CanSplit(s, i) && Distinct(s) && right !in Refs(s)
    ensures Distinct(Split(s, i, right)) && Refs(Split(s, i, right)) <= Refs(s) + {right}
  {
    var c := s.kids[i];
    var l, r := Lower(c), Upper(c, right);
    var a, b := s.kids[..i], s.kids[i + 1..];
    KidRefsAt(s.kids, i);
    assert l.kids + r.kids == c.kids;
    assert DistinctKids([l, r]) && KidRefs([l, r]) <= KidRefs([c]) + {right} by {
      PairRefs(l, r);
      KidRefsOne(c);
    }
    assert s.kids == a + [c] + b;
    DistinctSplice(a, [c], b, [l, r], {right});
  }

  // What the heap must hold after a split for it to be the split tree.
  lemma {:induction false} SplitRep(m: map<Node, State>, m': map<Node, State>, s: Tree, i: nat, right: Node)
    requires CanSplit(s, i) && Distinct(s) && right !in Refs(s) && RepIn(m, s)
    requires s.ref in m' && Holds(m'[s.ref], Split(s, i, right))
    requires s.kids[i].ref in m' && Holds(m'[s.kids[i].ref], Lower(s.kids[i]))
    requires right in m' && Holds(m'[right], Upper(s.kids[i], right))
    requires SameOutside(m, m', {s.ref, s.kids[i].ref, right})
    ensures RepIn(m', Split(s, i, right))
  {
    var c := s.kids[i];
    SplitApart(s, i, right);
    RepKids(m, s, i);
    hide RepIn, Distinct, DistinctKids, Refs, KidRefs, Holds, Inorder, Opened;
    var touched := {s.ref, c.ref, right};
    AllRepFrame(m, m', c.kids, touched);
    AllRepFrame(m, m', s.kids[..i], touched);
    AllRepFrame(m, m', s.kids[i + 1..], touched);
    HalvesRep(m', c, right);
    OpenedRep(m', s, i, Lower(c), c.keys[M - 1], Upper(c, right));
  }

  // What a split touches is none of what stays as it is.
  lemma SplitApart(s: Tree, i: nat, right: Node)
    requires Distinct(s) && i < |s.kids| && right !in Refs(s)
    ensures var touched := {s.ref, s.kids[i].ref, right};
            && KidRefs(s.kids[i].kids) !! touched
            && KidRefs(s.kids[..i]) !! touched && KidRefs(s.kids[i + 1..]) !! touched
  {
    KidRefsAt(s.kids, i);
  }

  lemma RepKids(m: map<Node, State>, s: Tree, i: nat)
    requires RepIn(m, s) && i < |s.kids|
    ensures AllRep(m, s.kids[i].kids) && AllRep(m, s.kids[..i]) && AllRep(m, s.kids[i + 1..])
  {
    hide Holds;
    assert RepIn(m, s.kids[i]);
  }

  lemma HalvesRep(m: map<Node, State>, c: Tree, right: Node)
    requires |c.keys| == MAX_DATA && (c.kids != [] ==> |c.kids| == MAX_CHILDREN) && AllRep(m, c.kids)
    requires c.ref in m && Holds(m[c.ref], Lower(c)) && right in m && Holds(m[right], Upper(c, right))
    ensures RepIn(m, Lower(c)) && RepIn(m, Upper(c, right))
  {
    hide Holds;
  }

  lemma OpenedRep(m: map<Node, State>, t: Tree, i: nat, l: Tree, k: Entry, r: Tree)
    requires i < |t.kids| == |t.keys| + 1
    requires t.ref in m && Holds(m[t.ref], Opened(t, i, l, k, r))
    requires AllRep(m, t.kids[..i]) && AllRep(m, t.kids[i + 1..]) && RepIn(m, l) && RepIn(m, r)
    ensures RepIn(m, Opened(t, i, l, k, r))
  {
    var o := Opened(t, i, l, k, r);
    forall j | 0 <= j < |o.kids|
      ensures RepIn(m, o.kids[j])
    {
      if j < i {
        assert o.kids[j] == t.kids[..i][j];
      } else if j >= i + 2 {
        assert o.kids[j] == t.kids[i + 1..][j - i - 2];
      }
    }
  }

  // ---------------------------------------------------------------- split_child

  lemma SplitHoldsParent(x: State, x': State, s: Tree, i: nat, right: Node)
    requires Holds(x, s) && CanSplit(s, i)
    requires x'.size == x.size + 1
    requires x'.data == (x.data[..i + 1] + x.data[i..x.size] + x.data[x.size + 1..])[i := s.kids[i].keys[M - 1]]
    requires x'.children ==
             (x.children[..i + 2] + x.children[i + 1..x.size + 1] + x.children[x.size + 2..])[i + 1 := right]
    ensures Holds(x', Split(s, i, right))
  {
    var n, o := x.size, Split(s, i, right);
    SplitIs(s, i, right);
    hide Lower, Upper, Opened, Split;
    assert o.kids != [];
    assert |x'.data| == MAX_DATA && x'.size == |o.keys| && x'.data[..|o.keys|] == o.keys by {
      PutAmong(x.data, s.keys, i, s.kids[i].keys[M - 1]);
    }
    assert |x'.children| == MAX_CHILDREN && forall j :: 0 <= j < |o.kids| ==> x'.children[j] == o.kids[j].ref by {
      PutBehind(x.children, i, n + 1, right);
    }
  }

  // Keys and kids of a node with child i split.
  lemma SplitIs(s: Tree, i: nat, right: Node)
    requires CanSplit(s, i)
    ensures var o := Split(s, i, right);
            && o.keys == s.keys[..i] + [s.kids[i].keys[M - 1]] + s.keys[i..] && |o.kids| == |s.kids| + 1
            && forall j :: 0 <= j < |o.kids| ==>
                 o.kids[j].ref == if j <= i then s.kids[j].ref else if j == i + 1 then right else s.kids[j - 1].ref
  {
  }

  lemma SplitHoldsHalves(l: State, l': State, r': State, c: Tree, right: Node)
    requires Holds(l, c) && |c.keys| == MAX_DATA
    requires |l'.data| == |r'.data| == MAX_DATA && |l'.children| == |r'.children| == MAX_CHILDREN
    requires l'.size == r'.size == M - 1
    requires l'.data[..M - 1] == l.data[..M - 1] && r'.data[..M - 1] == l.data[M..]
    requires c.kids == [] ==> l'.children == l.children && forall j :: 0 <= j < MAX_CHILDREN ==> r'.children[j] == null
    requires c.kids != [] ==> l'.children[..M] == l.children[..M] && r'.children[..M] == l.children[M..]
    ensures Holds(l', Lower(c)) && Holds(r', Upper(c, right))
  {
    if c.kids != [] {
      forall j | 0 <= j < M
        ensures l'.children[j] == c.kids[j].ref && r'.children[j] == c.kids[M + j].ref
      {
        assert l'.children[j] == l'.children[..M][j] == l.children[j];
        assert r'.children[j] == r'.children[..M][j] == l.children[M + j];
      }
    }
  }

  // The slots of a node and of a new one, after the upper half has moved.
  ghost predicate Halved(l: State, l': State, r': State) {
    && |l.data| == |l'.data| == |r'.data| == MAX_DATA
    && |l.children| == |l'.children| == |r'.children| == MAX_CHILDREN && l'.size == r'.size == M - 1
    && l'.data[..M - 1] == l.data[..M - 1] && r'.data[..M - 1] == l.data[M..]
    && (l.children[0] == null ==>
          l'.children == l.children && forall j :: 0 <= j < MAX_CHILDREN ==> r'.children[j] == null)
    && (l.children[0] != null ==> l'.children[..M] == l.children[..M] && r'.children[..M] == l.children[M..])
  }

  // The slots of a parent, after it has taken key m and a new child.
  ghost predicate KeyTaken(x: State, x': State, i: nat, m: Entry, right: Node) {
    && i <= x.size < |x.data| && x.size + 1 < |x.children| && x'.size == x.size + 1
    && x'.data == (x.data[..i + 1] + x.data[i..x.size] + x.data[x.size + 1..])[i := m]
    && x'.children ==
       (x.children[..i + 2] + x.children[i + 1..x.size + 1] + x.children[x.size + 2..])[i + 1 := right]
  }

  // The upper half of a full node moves to a new one; the key between the halves comes out.
  method SplitNode(left: Node) returns (m: Entry, right: Node)
    requires |left.data| == MAX_DATA && |left.children| == MAX_CHILDREN
    modifies left
    ensures fresh(right) && left.size == right.size == M - 1
    ensures |left.data| == |right.data| == MAX_DATA && |left.children| == |right.children| == MAX_CHILDREN
    ensures left.data[..M - 1] == old(left.data[..M - 1]) && m == old(left.data[M - 1])
    ensures right.data[..M - 1] == old(left.data[M..])
    ensures old(left.children[0]) == null ==>
              left.children == old(left.children) && forall j :: 0 <= j < MAX_CHILDREN ==> right.children[j] == null
    ensures old(left.children[0]) != null ==>
              left.children[..M] == old(left.children[..M]) && right.children[..M] == old(left.children[M..])
    ensures Halved(old(StateOf(left)), StateOf(left), StateOf(right))
  {
    right := new Node();
    right.size := M - 1;
    var lower, upper := MoveUpper(left.data, M, right.data, EMPTY);
    LastTaken(left.data, lower, M, EMPTY);
    if left.children[0] != null {
      left.children, right.children := MoveUpper(left.children, M, right.children, null);
    }
    left.size := M - 1;
    m := lower[M - 1];
    left.data, right.data := lower[M - 1 := EMPTY], upper;
  }

  // The parent takes key m at slot i and the new node at child slot i + 1.
  method TakeKey(x: Node, i: nat, m: Entry, right: Node)
    requires |x.data| == MAX_DATA && |x.children| == MAX_CHILDREN && i <= x.size < MAX_DATA
    modifies x
    ensures x.size == old(x.size) + 1
    ensures x.data == old((x.data[..i + 1] + x.data[i..x.size] + x.data[x.size + 1..])[i := m])
    ensures x.children ==
            old(x.children[..i + 2] + x.children[i + 1..x.size + 1] + x.children[x.size + 2..])[i + 1 := right]
    ensures KeyTaken(old(StateOf(x)), StateOf(x), i, m, right)
  {
    x.children := ShiftUp(x.children, i + 1, x.size + 1);
    x.children := x.children[i + 1 := right];
    // REPAIR of include/data/btree.h:190-193: the loop that shifts the keys is commented out there.
    x.data := ShiftUp(x.data, i, x.size);
    x.data := x.data[i := m];
    x.size := x.size + 1;
  }

  // What the slots of parent, child and new node have become.
  lemma {:induction false} SplitInHeap(m: map<Node, State>, m': map<Node, State>, s: Tree, i: nat, right: Node)
    requires CanSplit(s, i) && Distinct(s) && RepIn(m, s) && right !in Refs(s)
    requires SameOutside(m, m', {s.ref, s.kids[i].ref, right})
    requires s.ref in m && s.kids[i].ref in m && s.ref in m' && s.kids[i].ref in m' && right in m'
    requires Holds(m[s.ref], s) && Holds(m[s.kids[i].ref], s.kids[i])
    requires KeyTaken(m[s.ref], m'[s.ref], i, s.kids[i].keys[M - 1], right)
    requires Halved(m[s.kids[i].ref], m'[s.kids[i].ref], m'[right])
    ensures RepIn(m', Split(s, i, right))
  {
    hide RepIn, Distinct, Refs, Split, Lower, Upper;
    SplitHoldsParent(m[s.ref], m'[s.ref], s, i, right);
    SplitHoldsHalves(m[s.kids[i].ref], m'[s.kids[i].ref], m'[right], s.kids[i], right);
    hide Holds;
    SplitRep(m, m', s, i, right);
  }

  lemma RepHolds(m: map<Node, State>, s: Tree, i: nat)
    requires RepIn(m, s) && i < |s.kids|
    ensures s.ref in m && Holds(m[s.ref], s)
    ensures s.kids[i].ref in m && Holds(m[s.kids[i].ref], s.kids[i]) && RepIn(m, s.kids[i])
  {
    hide Holds;
    assert RepIn(m, s.kids[i]);
  }

  // What a split reads off the slots.
  lemma SlotsToSplit(x: State, l: State, s: Tree, i: nat)
    requires CanSplit(s, i) && Holds(x, s) && Holds(l, s.kids[i])
    ensures |x.data| == |l.data| == MAX_DATA && |x.children| == |l.children| == MAX_CHILDREN
    ensures x.size == |s.keys| < MAX_DATA && x.children[i] == s.kids[i].ref
    ensures l.data[M - 1] == s.kids[i].keys[M - 1] && (l.children[0] == null <==> s.kids[i].kids == [])
  {
  }

  method SplitChild(x: Node, i: nat, ghost s: Tree) returns (right: Node)
    requires x == s.ref && Rep(s) && Distinct(s) && CanSplit(s, i)
    modifies x, s.kids[i].ref
    ensures fresh(right) && Rep(Split(s, i, right)) && Refs(Split(s, i, right)) <= Refs(s) + {right}
  {
    hide Inorder, Distinct, Shape, Split, Opened, Refs, RepIn, KidRefs, KeyTaken, Halved;
    ghost var c := s.kids[i];
    ghost var before := Snap(Refs(s));
    KidApart(s, i);
    RepHolds(before, s, i);
    SlotsToSplit(before[x], before[c.ref], s, i);
    hide Holds;
    var left := x.children[i];
    var m;
    m, right := SplitNode(left);
    TakeKey(x, i, m, right);
    ghost var after := Snap(Refs(s) + {right});
    SplitDistinct(s, i, right);
    SplitInHeap(before, after, s, i, right);
    RepOfSnap(Split(s, i, right), Refs(s) + {right});
  }

  // ---------------------------------------------------------------- insert_non_full

  // The insertion point in a leaf.
  lemma {:induction false} LeafInsert(t: Tree, path: seq<nat>, e: Entry, i: nat)
    requires Cursor(t, path, e.key) && Sorted(Inorder(t))
    requires At(t, path).kids == [] && i <= |At(t, path).keys|
    requires i > 0 ==> At(t, path).keys[i - 1].key <= e.key
    requires i < |At(t, path).keys| ==> e.key <= At(t, path).keys[i].key
    ensures var s, at := At(t, path), |Before(t, path)| + i;
            var t' := Replace(t, path, Tree(s.ref, s.keys[..i] + [e] + s.keys[i..], []));
            && at <= |Inorder(t)|
            && Inorder(t') == Inorder(t)[..at] + [e] + Inorder(t)[at..]
            && Sorted(Inorder(t'))
  {
    hide Inorder, Before, Beyond, At, Replace;
    var s := At(t, path);
    var s' := Tree(s.ref, s.keys[..i] + [e] + s.keys[i..], []);
    InorderAt(t, path);
    ReplaceInorder(t, path, s');
    SortedAt(t, path);
    LeafInorder(s);
    LeafInorder(s');
    InsertBetween(Before(t, path), s.keys, Beyond(t, path), i, e);
    SortedInsert(Inorder(t), |Before(t, path)| + i, e);
  }

  lemma InsertBetween(b: seq<Entry>, k: seq<Entry>, y: seq<Entry>, i: nat, e: Entry)
    requires i <= |k| && Sorted(k) && AllLeq(b, e.key) && AllGeq(y, e.key)
    requires i > 0 ==> k[i - 1].key <= e.key
    requires i < |k| ==> e.key <= k[i].key
    ensures b + (k[..i] + [e] + k[i..]) + y == (b + k + y)[..|b| + i] + [e] + (b + k + y)[|b| + i..]
    ensures AllLeq((b + k + y)[..|b| + i], e.key) && AllGeq((b + k + y)[|b| + i..], e.key)
  {
    hide *;
    AllLeqBefore(k, i, e.key);
    CutAt(b, k, y, i);
    GroupedAround(b, k[..i], e, k[i..], y);
    BothLeq(b, k[..i], e.key);
    BothGeq(k[i..], y, e.key);
  }

  lemma AllLeqBefore(k: seq<Entry>, i: nat, key: int)
    requires i <= |k| && Sorted(k) && (i > 0 ==> k[i - 1].key <= key) && (i < |k| ==> key <= k[i].key)
    ensures AllLeq(k[..i], key) && AllGeq(k[i..], key)
  {
  }

  lemma BothLeq(a: seq<Entry>, b: seq<Entry>, key: int)
    requires AllLeq(a, key) && AllLeq(b, key)
    ensures AllLeq(a + b, key)
  {
  }

  lemma BothGeq(a: seq<Entry>, b: seq<Entry>, key: int)
    requires AllGeq(a, key) && AllGeq(b, key)
    ensures AllGeq(a + b, key)
  {
  }

  lemma SortedInsert(s: seq<Entry>, at: nat, e: Entry)
    requires Sorted(s) && at <= |s| && AllLeq(s[..at], e.key) && AllGeq(s[at..], e.key)
    ensures Sorted(s[..at] + [e] + s[at..])
  {
    var r := s[..at] + [e] + s[at..];
    forall i, j | 0 <= i < j < |r|
      ensures r[i].key <= r[j].key
    {
      assert i < at ==> r[i] == s[..at][i];
      assert i > at ==> r[i] == s[at..][i - at - 1];
      assert j < at ==> r[j] == s[..at][j];
      assert j > at ==> r[j] == s[at..][j - at - 1];
    }
  }

  // The last slot whose key is at most `key`, searched from the right: the new key goes behind it.
  method SlotFor(data: seq<Entry>, size: nat, key: int) returns (i: nat)
    requires size <= |data|
    ensures i <= size && (i > 0 ==> data[i - 1].key <= key)
    ensures forall j :: i <= j < size ==> key < data[j].key
  {
    i := size;
    while i > 0 && data[i - 1].key > key
      invariant i <= size
      invariant forall j :: i <= j < size ==> key < data[j].key
    {
      i := i - 1;
    }
  }

  // The same search in a leaf, moving the larger keys up as it goes.
  method OpenSlot(data: seq<Entry>, size: nat, key: int) returns (data': seq<Entry>, i: nat)
    requires size < |data|
    ensures i <= size && (i > 0 ==> data[i - 1].key <= key)
    ensures forall j :: i <= j < size ==> key < data[j].key
    ensures data' == data[..i + 1] + data[i..size] + data[size + 1..]
  {
    i := size;
    data' := data;
    while i > 0 && data'[i - 1].key > key
      invariant i <= size
      invariant forall j :: i <= j < size ==> key < data[j].key
      invariant data' == data[..i + 1] + data[i..size] + data[size + 1..]
    {
      data' := data'[i := data'[i - 1]];
      i := i - 1;
    }
  }

  // What the next step of the descent needs to know about a split node.
  ghost predicate SplitDone(s: Tree, s': Tree, i: nat) {
    && s'.ref == s.ref && i <= |s.keys|
    && |s'.keys| == |s.keys| + 1 && |s'.kids| == |s'.keys| + 1
    && (i > 0 ==> s'.keys[i - 1] == s.keys[i - 1])
    && (i < |s.keys| ==> s'.keys[i + 1] == s.keys[i])
    && |s'.kids[i].keys| == |s'.kids[i + 1].keys| == M - 1
  }

  lemma SplitIsDone(s: Tree, i: nat, right: Node)
    requires CanSplit(s, i)
    ensures SplitDone(s, Split(s, i, right), i)
  {
  }

  lemma {:induction false} SplitKeeps(t: Tree, path: seq<nat>, i: nat, right: Node, h: nat, lo: nat)
    requires Distinct(t) && Shape(t, h, lo) && OnPath(t, path) && CanSplit(At(t, path), i) && right !in Refs(t)
    ensures var s, s' := At(t, path), Split(At(t, path), i, right);
            && Distinct(s') && Refs(s') <= Refs(s) + {right} && Inorder(s') == Inorder(s)
            && |path| <= h && Shape(s', h - |path|, if path == [] then lo else M - 1)
  {
    hide *;
    var s := At(t, path);
    PathRefs(t, path);
    PathDistinct(t, path);
    ReplaceShape(t, path, s, h, lo);
    SplitDistinct(s, i, right);
    SplitShape(s, i, right, h - |path|, if path == [] then lo else M - 1);
    SplitInorder(s, i, right);
  }

  method SplitBelow(x: Node, i: nat, ghost t: Tree, ghost path: seq<nat>, ghost h: nat, ghost lo: nat)
    returns (ghost t': Tree)
    requires Rep(t) && Distinct(t) && Shape(t, h, lo) && OnPath(t, path)
    requires x == At(t, path).ref && CanSplit(At(t, path), i)
    modifies Refs(t)
    ensures Kept(t, t', path, h, lo) && fresh(Refs(t') - Refs(t))
    ensures SplitDone(At(t, path), At(t', path), i)
  {
    hide Inorder, Distinct, Shape, Before, Beyond, Split, Replace, Snap, At, Rep, RepIn;
    ghost var s := At(t, path);
    ghost var before := Snap(Refs(t));
    RepToSnap(t, Refs(t));
    PathRefs(t, path);
    PathRep(before, t, path);
    PathDistinct(t, path);
    KidRefsAt(s.kids, i);
    RepOfSnap(s, Refs(t));
    var right := SplitChild(x, i, s);
    ghost var nodes, s' := Refs(t) + {right}, Split(s, i, right);
    SplitIsDone(s, i, right);
    RepToSnap(s', nodes);
    SplitKeeps(t, path, i, right, h, lo);
    EditInTree(before, Snap(nodes), t, path, s', {right}, h, lo);
    t' := Replace(t, path, s');
    RepOfSnap(t', nodes);
  }

  // Kid i is where `key` goes.
  ghost predicate Routes(s: Tree, i: nat, key: int) {
    && i <= |s.keys|
    && (i > 0 ==> s.keys[i - 1].key <= key)
    && (i < |s.keys| ==> key <= s.keys[i].key)
  }

  lemma SplitRoutes(s: Tree, s': Tree, i: nat, key: int)
    requires Routes(s, i, key) && SplitDone(s, s', i)
    ensures Routes(s', if s'.keys[i].key < key then i + 1 else i, key)
  {
  }

  // The child to go down to is split first if it is full.
  method SplitIfFull(x: Node, i0: nat, e: Entry, ghost t: Tree, ghost path: seq<nat>, ghost h: nat, ghost lo: nat)
    returns (i: nat, ghost t': Tree)
    requires Rep(t) && Distinct(t) && Shape(t, h, lo) && OnPath(t, path)
    requires x == At(t, path).ref && At(t, path).kids != [] && |At(t, path).keys| < MAX_DATA
    requires Routes(At(t, path), i0, e.key)
    modifies Refs(t)
    ensures Kept(t, t', path, h, lo) && fresh(Refs(t') - Refs(t))
    ensures |At(t', path).kids| == |At(t', path).keys| + 1
    ensures Routes(At(t', path), i, e.key) && |At(t', path).kids[i].keys| < MAX_DATA
  {
    hide Inorder, Refs, Distinct, Before, Beyond;
    ReplaceShape(t, path, At(t, path), h, lo);
    ReadNode(t, path);
    assert x.children[i0].size == |At(t, path).kids[i0].keys| by {
      Descend(t, path, i0);
      ReadNode(t, path + [i0]);
    }
    i := i0;
    t' := t;
    if x.children[i].size == MAX_DATA {
      t' := SplitBelow(x, i, t, path, h, lo);
      ReadNode(t', path);
      assert x.data[i] == At(t', path).keys[i] by {
        assert x.data[..|At(t', path).keys|][i] == x.data[i];
      }
      SplitRoutes(At(t, path), At(t', path), i, e.key);
      // REPAIR of include/data/btree.h:162, which tests the key before the promoted one.
      if x.data[i].key < e.key {
        i := i + 1;
      }
    }
  }

  lemma LeafHolds(n: State, n': State, s: Tree, i: nat, e: Entry)
    requires Holds(n, s) && s.kids == [] && i <= |s.keys| < MAX_DATA
    requires n'.data == (n.data[..i + 1] + n.data[i..n.size] + n.data[n.size + 1..])[i := e]
    requires n'.size == n.size + 1 && n'.children == n.children
    ensures Holds(n', Tree(s.ref, s.keys[..i] + [e] + s.keys[i..], []))
  {
    assert n'.data[..|s.keys| + 1] == s.keys[..i] + [e] + s.keys[i..];
  }

  // t' is t with e inserted at position `at` of the order.
  ghost predicate Inserted(t: Tree, t': Tree, e: Entry, at: nat, h: nat, lo: nat) {
    && t'.ref == t.ref && Distinct(t') && Shape(t', h, lo) && Sorted(Inorder(t'))
    && at <= |Inorder(t)| && Inorder(t') == Inorder(t)[..at] + [e] + Inorder(t)[at..]
  }

  lemma {:induction false} LeafInTree(m: map<Node, State>, m': map<Node, State>, t: Tree, path: seq<nat>,
      e: Entry, i: nat, h: nat, lo: nat)
    requires RepIn(m, t) && Distinct(t) && Shape(t, h, lo) && Sorted(Inorder(t)) && Cursor(t, path, e.key)
    requires At(t, path).kids == [] && |At(t, path).keys| < MAX_DATA && Routes(At(t, path), i, e.key)
    requires var s := At(t, path);
             && s.ref in m' && SameOutside(m, m', {s.ref})
             && Holds(m'[s.ref], Tree(s.ref, s.keys[..i] + [e] + s.keys[i..], []))
    ensures var s := At(t, path);
            var t' := Replace(t, path, Tree(s.ref, s.keys[..i] + [e] + s.keys[i..], []));
            && RepIn(m', t') && Refs(t') <= Refs(t)
            && Inserted(t, t', e, |Before(t, path)| + i, h, lo)
  {
    var s := At(t, path);
    var s' := Tree(s.ref, s.keys[..i] + [e] + s.keys[i..], []);
    LeafInsert(t, path, e, i);
    ReplaceShape(t, path, s', h, lo);
    ReplaceDistinct(t, path, s', {});
    ReplaceRep(m, m', t, path, s');
  }

  // The element goes into the leaf at the end of the path.
  method InsertInLeaf(x: Node, e: Entry, ghost t: Tree, ghost path: seq<nat>, ghost h: nat, ghost lo: nat)
    returns (ghost t': Tree, ghost at: nat)
    requires Rep(t) && Distinct(t) && Shape(t, h, lo) && Sorted(Inorder(t)) && Cursor(t, path, e.key)
    requires x == At(t, path).ref && At(t, path).kids == [] && |At(t, path).keys| < MAX_DATA
    modifies x
    ensures Inserted(t, t', e, at, h, lo) && Rep(t') && Refs(t') <= Refs(t)
  {
    hide Inorder, Distinct, Shape, Before, Beyond, Refs, Replace, At, Rep, RepIn, Snap;
    RepToSnap(t, Refs(t));
    ghost var s := At(t, path);
    ghost var before := Snap(Refs(t));
    ReadNode(t, path);
    var i;
    x.data, i := OpenSlot(x.data, x.size, e.key);
    x.data := x.data[i := e];
    x.size := x.size + 1;
    ghost var after := Snap(Refs(t));
    LeafHolds(before[x], after[x], s, i, e);
    t', at := Replace(t, path, Tree(x, s.keys[..i] + [e] + s.keys[i..], [])), |Before(t, path)| + i;
    LeafInTree(before, after, t, path, e, i, h, lo);
    RepOfSnap(t', Refs(t));
  }

  method InsertNonFull(x0: Node, e: Entry, ghost t: Tree, ghost h: nat, ghost lo: nat)
    returns (ghost t': Tree, ghost at: nat)
    requires Rep(t) && Distinct(t) && Shape(t, h, lo) && Sorted(Inorder(t))
    requires x0 == t.ref && |t.keys| < MAX_DATA
    modifies Refs(t)
    ensures Inserted(t, t', e, at, h, lo) && Rep(t') && fresh(Refs(t') - Refs(t))
  {
    hide Inorder, Distinct, Before, Beyond;
    var x := x0;
    ghost var path: seq<nat> := [];
    t' := t;
    CursorRoot(t, e.key);
    while true
      invariant Rep(t') && Distinct(t') && Shape(t', h, lo) && Inorder(t') == Inorder(t) && t'.ref == t.ref
      invariant fresh(Refs(t') - Refs(t))
      invariant Cursor(t', path, e.key) && At(t', path).ref == x && |At(t', path).keys| < MAX_DATA
      invariant |path| <= h
      decreases h - |path|
    {
      ReadNode(t', path);
      ReplaceShape(t', path, At(t', path), h, lo);
      if x.children[0] == null {
        t', at := InsertInLeaf(x, e, t', path, h, lo);
        return;
      }
      ghost var nodes := Refs(t');
      ghost var m := Snap(nodes);
      var i := SlotFor(x.data, x.size, e.key);
      assert Snap(nodes) == m;
      label Step:
      i, t' := SplitIfFull(x, i, e, t', path, h, lo);
      forall r | r in Refs(t') && r !in Refs(t)
        ensures fresh(r)
      {
        if r in nodes {
          assert r in nodes - Refs(t);
        } else {
          assert fresh@Step(r);
        }
      }
      ReadNode(t', path);
      CursorStep(t', path, e.key, i);
      path := path + [i];
      x := x.children[i];
    }
  }
}
