/** Moving keys between two neighbouring children: include/data/btree.h:323-409.

    All three edits redistribute what two siblings and the key between them hold.  Three lines are
    repaired, each marked REPAIR; BTreeAsWritten shows what they do as they stand. */
module BTreeSiblings {
  import opened BTreeModel
  import opened Slots

  // Kids k and k+1 of an inner node.
  ghost predicate HasPair(s: Tree, k: nat) {
    k + 1 < |s.kids| == |s.keys| + 1
  }

  // The pair (l, m, r) at k replaced by (l', m', r'), which holds the same keys and kids in the same order.
  ghost predicate Resplits(s: Tree, k: nat, l': Tree, m': Entry, r': Tree) {
    && HasPair(s, k)
    && l'.ref == s.kids[k].ref && r'.ref == s.kids[k + 1].ref
    && l'.keys + [m'] + r'.keys == s.kids[k].keys + [s.keys[k]] + s.kids[k + 1].keys
    && l'.kids + r'.kids == s.kids[k].kids + s.kids[k + 1].kids
    && WellShaped(s.kids[k]) && WellShaped(s.kids[k + 1]) && WellShaped(l') && WellShaped(r')
    && (s.kids[k].kids == [] <==> s.kids[k + 1].kids == [])
    && (l'.kids == [] <==> r'.kids == [])
  }

  ghost function Resplit(s: Tree, k: nat, l': Tree, m': Entry, r': Tree): Tree
    requires HasPair(s, k)
  {
    Tree(s.ref, s.keys[k := m'], s.kids[k := l'][k + 1 := r'])
  }

  // The pair at k replaced by the single kid c.
  ghost function Closed(s: Tree, k: nat, c: Tree): Tree
    requires HasPair(s, k)
  {
    Tree(s.ref, s.keys[..k] + s.keys[k + 1..], s.kids[..k] + [c] + s.kids[k + 2..])
  }

  // Opening a closed pair again.
  lemma {:induction false} OpenClosed(s: Tree, k: nat, c: Tree, l': Tree, m': Entry, r': Tree)
    requires HasPair(s, k)
    ensures Opened(Closed(s, k, c), k, l', m', r') == Resplit(s, k, l', m', r')
  {
    var z := Closed(s, k, c);
    assert z.keys[..k] == s.keys[..k] && z.keys[k..] == s.keys[k + 1..];
    assert z.kids[..k] == s.kids[..k] && z.kids[k + 1..] == s.kids[k + 2..];
    assert s.keys[..k] + [m'] + s.keys[k + 1..] == s.keys[k := m'];
    assert s.kids[..k] + [l', r'] + s.kids[k + 2..] == s.kids[k := l'][k + 1 := r'];
  }

  lemma {:induction false} ClosedInorder(s: Tree, k: nat)
    requires HasPair(s, k) && WellShaped(s.kids[k]) && WellShaped(s.kids[k + 1])
    requires s.kids[k].kids == [] <==> s.kids[k + 1].kids == []
    ensures Inorder(Closed(s, k, Join(s.kids[k], s.keys[k], s.kids[k + 1]))) == Inorder(s)
  {
    var l, m, r := s.kids[k], s.keys[k], s.kids[k + 1];
    var c := Join(l, m, r);
    JoinInorder(l, m, r);
    assert Closed(s, k, c).kids[k] == c;
    OpenedInorder(Closed(s, k, c), k, l, m, r);
    OpenClosed(s, k, c, l, m, r);
    assert Resplit(s, k, l, m, r) == s;
  }

  lemma {:induction false} ResplitInorder(s: Tree, k: nat, l': Tree, m': Entry, r': Tree)
    requires Resplits(s, k, l', m', r')
    ensures Inorder(Resplit(s, k, l', m', r')) == Inorder(s)
  {
    var c := Join(s.kids[k], s.keys[k], s.kids[k + 1]);
    ClosedInorder(s, k);
    assert Join(l', m', r') == c;
    JoinInorder(l', m', r');
    assert Closed(s, k, c).kids[k] == c;
    OpenedInorder(Closed(s, k, c), k, l', m', r');
    OpenClosed(s, k, c, l', m', r');
  }

  lemma {:induction false} PairDistinct(s: Tree, k: nat, mid': seq<Tree>)
    requires HasPair(s, k) && Distinct(s)
    requires DistinctKids([s.kids[k], s.kids[k + 1]]) ==>
               DistinctKids(mid') && KidRefs(mid') <= KidRefs([s.kids[k], s.kids[k + 1]])
    ensures DistinctKids(s.kids[..k] + mid' + s.kids[k + 2..])
    ensures KidRefs(s.kids[..k] + mid' + s.kids[k + 2..]) <= KidRefs(s.kids)
  {
    var a, mid, b := s.kids[..k], [s.kids[k], s.kids[k + 1]], s.kids[k + 2..];
    assert s.kids == a + mid + b;
    DistinctConcat(a + mid, b);
    DistinctConcat(a, mid);
    DistinctSplice(a, mid, b, mid', {});
  }

  lemma {:induction false} ResplitDistinct(s: Tree, k: nat, l': Tree, m': Entry, r': Tree)
    requires Resplits(s, k, l', m', r') && Distinct(s)
    ensures Distinct(Resplit(s, k, l', m', r')) && Refs(Resplit(s, k, l', m', r')) <= Refs(s)
  {
    PairRefs(s.kids[k], s.kids[k + 1]);
    PairRefs(l', r');
    PairDistinct(s, k, [l', r']);
    assert s.kids[..k] + [l', r'] + s.kids[k + 2..] == s.kids[k := l'][k + 1 := r'];
  }

  lemma {:induction false} ClosedDistinct(s: Tree, k: nat)
    requires HasPair(s, k) && Distinct(s)
    ensures var s' := Closed(s, k, Join(s.kids[k], s.keys[k], s.kids[k + 1]));
            Distinct(s') && Refs(s') <= Refs(s)
  {
    var c := Join(s.kids[k], s.keys[k], s.kids[k + 1]);
    PairRefs(s.kids[k], s.kids[k + 1]);
    KidRefsOne(c);
    PairDistinct(s, k, [c]);
  }

  // ---------------------------------------------------------------- the heap

  lemma {:induction false} ResplitRep(m: map<Node, State>, m': map<Node, State>, s: Tree, k: nat,
      l': Tree, e: Entry, r': Tree)
    requires Resplits(s, k, l', e, r') && Distinct(s) && RepIn(m, s)
    requires SameOutside(m, m', {s.ref, l'.ref, r'.ref})
    requires s.ref in m' && Holds(m'[s.ref], Resplit(s, k, l', e, r'))
    requires l'.ref in m' && Holds(m'[l'.ref], l') && r'.ref in m' && Holds(m'[r'.ref], r')
    ensures RepIn(m', Resplit(s, k, l', e, r'))
  {
    hide Refs, KidRefs, Distinct, DistinctKids, Holds, Inorder;
    var touched := {s.ref, l'.ref, r'.ref};
    var l, r := s.kids[k], s.kids[k + 1];
    PairApart(s, k);
    KidRefsConcat(l.kids, r.kids);
    assert AllRep(m', l'.kids + r'.kids) by { AllRepFrame(m, m', l.kids + r.kids, touched); }
    AllRepParts(m', l'.kids, r'.kids);
    assert AllRep(m', s.kids[..k]) by { AllRepFrame(m, m', s.kids[..k], touched); }
    assert AllRep(m', s.kids[k + 2..]) by { AllRepFrame(m, m', s.kids[k + 2..], touched); }
    forall j | 0 <= j < |s.kids| && j != k && j != k + 1
      ensures RepIn(m', s.kids[j])
    {
      if j < k {
        assert s.kids[j] == s.kids[..k][j];
      } else {
        assert s.kids[j] == s.kids[k + 2..][j - k - 2];
      }
    }
  }

  lemma {:induction false} ClosedRep(m: map<Node, State>, m': map<Node, State>, s: Tree, k: nat)
    requires HasPair(s, k) && Distinct(s) && RepIn(m, s)
    requires SameOutside(m, m', {s.ref, s.kids[k].ref, s.kids[k + 1].ref})
    requires var c := Join(s.kids[k], s.keys[k], s.kids[k + 1]);
             && s.ref in m' && Holds(m'[s.ref], Closed(s, k, c))
             && c.ref in m' && Holds(m'[c.ref], c)
    ensures RepIn(m', Closed(s, k, Join(s.kids[k], s.keys[k], s.kids[k + 1])))
  {
    var l, r := s.kids[k], s.kids[k + 1];
    var touched := {s.ref, l.ref, r.ref};
    var c := Join(l, s.keys[k], r);
    var s' := Closed(s, k, c);
    PairApart(s, k);
    KidRefsConcat(l.kids, r.kids);
    assert AllRep(m', c.kids) by { AllRepFrame(m, m', l.kids + r.kids, touched); }
    assert AllRep(m', s.kids[..k]) by { AllRepFrame(m, m', s.kids[..k], touched); }
    assert AllRep(m', s.kids[k + 2..]) by { AllRepFrame(m, m', s.kids[k + 2..], touched); }
    forall j | 0 <= j < |s'.kids|
      ensures RepIn(m', s'.kids[j])
    {
      if j < k {
        assert s'.kids[j] == s.kids[..k][j];
      } else if j > k {
        assert s'.kids[j] == s.kids[k + 2..][j - k - 1];
      }
    }
  }

  // The nodes of a pair and of its surroundings.
  lemma {:induction false} PairApart(s: Tree, k: nat)
    requires HasPair(s, k) && Distinct(s)
    ensures var l, r := s.kids[k], s.kids[k + 1];
            var touched := {s.ref, l.ref, r.ref};
            && KidRefs(l.kids) !! touched && KidRefs(r.kids) !! touched
            && KidRefs(s.kids[..k]) !! touched && KidRefs(s.kids[k + 2..]) !! touched
            && s.ref != l.ref && s.ref != r.ref && l.ref != r.ref
            && l.ref in Refs(s) && r.ref in Refs(s)
  {
    KidRefsAt(s.kids, k);
    KidRefsAt(s.kids, k + 1);
    assert s.kids[..k + 1] == s.kids[..k] + [s.kids[k]];
    KidRefsConcat(s.kids[..k], [s.kids[k]]);
    KidRefsOne(s.kids[k]);
  }

  lemma AllRepParts(m: map<Node, State>, a: seq<Tree>, b: seq<Tree>)
    requires AllRep(m, a + b)
    ensures AllRep(m, a) && AllRep(m, b)
  {
    forall i | 0 <= i < |a|
      ensures RepIn(m, a[i])
    {
      assert a[i] == (a + b)[i];
    }
    forall i | 0 <= i < |b|
      ensures RepIn(m, b[i])
    {
      assert b[i] == (a + b)[|a| + i];
    }
  }

  // ---------------------------------------------------------------- shift_key_to_sibling, to the left

  ghost function LeftGrown(l: Tree, m: Entry, r: Tree): Tree
    requires r.keys != []
  {
    Tree(l.ref, l.keys + [m], if r.kids == [] then [] else l.kids + [r.kids[0]])
  }

  ghost function RightShrunk(r: Tree): Tree
    requires r.keys != []
  {
    Tree(r.ref, r.keys[1..], if r.kids == [] then [] else r.kids[1..])
  }

  ghost predicate Siblings(l: Tree, r: Tree) {
    && WellShaped(l) && WellShaped(r) && (l.kids == [] <==> r.kids == [])
    && |l.keys| <= MAX_DATA && |r.keys| <= MAX_DATA
  }

  method ShiftLeftSlots(p: Node, k: nat, left: Node, right: Node)
    requires p != left && p != right && left != right
    requires |p.data| == |left.data| == |right.data| == MAX_DATA
    requires |left.children| == |right.children| == MAX_CHILDREN
    requires k < MAX_DATA && left.size < MAX_DATA && 0 < right.size <= MAX_DATA
    modifies p`data, left, right
    ensures p.data == old(p.data[k := right.data[0]])
    ensures left.size == old(left.size) + 1 && right.size == old(right.size) - 1
    ensures left.data == old(left.data[left.size := p.data[k]])
    ensures |right.data| == MAX_DATA && right.data[..right.size] == old(right.data[1..right.size])
    ensures old(left.children[0]) == null ==>
              left.children == old(left.children) && right.children == old(right.children)
    ensures old(left.children[0]) != null ==>
              && left.children == old(left.children[left.size + 1 := right.children[0]])
              && |right.children| == MAX_CHILDREN
              && right.children[..right.size + 1] == old(right.children[1..right.size + 1])
  {
    left.data := left.data[left.size := p.data[k]];
    left.size := left.size + 1;
    p.data := p.data[k := right.data[0]];
    right.data := ShiftDown(right.data, 0, right.size - 1);
    right.data := right.data[right.size - 1 := EMPTY];
    right.size := right.size - 1;
    if left.children[0] != null {
      left.children := left.children[left.size := right.children[0]];
      // REPAIR of include/data/btree.h:350-353: that loop stops one slot early and the donor's last
      // child is then overwritten with null.
      right.children := ShiftDown(right.children, 0, right.size + 1);
      right.children := right.children[right.size + 1 := null];
    }
  }

  lemma ShiftLeftHolds(l0: State, r0: State, l1: State, r1: State, l: Tree, m: Entry, r: Tree)
    requires Holds(l0, l) && Holds(r0, r) && Siblings(l, r) && |l.keys| < MAX_DATA && r.keys != []
    requires l1.size == l0.size + 1 && r1.size == r0.size - 1
    requires l1.data == l0.data[l0.size := m]
    requires |r1.data| == MAX_DATA && r1.data[..r1.size] == r0.data[1..r0.size]
    requires l.kids == [] ==> l1.children == l0.children && r1.children == r0.children
    requires l.kids != [] ==>
               && l1.children == l0.children[l0.size + 1 := r0.children[0]]
               && |r1.children| == MAX_CHILDREN
               && r1.children[..r1.size + 1] == r0.children[1..r0.size + 1]
    ensures Holds(l1, LeftGrown(l, m, r)) && Holds(r1, RightShrunk(r))
  {
    assert l1.data[..l1.size] == l.keys + [m];
    if l.kids != [] {
      forall j | 0 <= j < |r.kids| - 1
        ensures r1.children[j] == r.kids[1..][j].ref
      {
        assert r1.children[..r1.size + 1][j] == r0.children[1..r0.size + 1][j];
      }
    }
  }

  // The left sibling's side of `shift_key_to_sibling(p, k + 1, false)`.
  method ShiftLeft(p: Node, k: nat, ghost s: Tree) returns (ghost s': Tree)
    requires p == s.ref && Rep(s) && Distinct(s) && HasPair(s, k) && Siblings(s.kids[k], s.kids[k + 1])
    requires |s.kids[k].keys| < MAX_DATA && s.kids[k + 1].keys != []
    modifies p, s.kids[k].ref, s.kids[k + 1].ref
    ensures s' == Resplit(s, k, LeftGrown(s.kids[k], s.keys[k], s.kids[k + 1]), s.kids[k + 1].keys[0],
              RightShrunk(s.kids[k + 1]))
    ensures Rep(s') && Refs(s') <= Refs(s) && Distinct(s')
  {
    hide Inorder, Distinct, Shape, Snap, Refs, RepIn, Rep, Resplit, Closed, Join;
    ghost var l, m, r := s.kids[k], s.keys[k], s.kids[k + 1];
    ghost var before := Snap(Refs(s));
    RepToSnap(s, Refs(s));
    PairApart(s, k);
    PairHolds(before, s, k);
    ShiftLeftSlots(p, k, p.children[k], p.children[k + 1]);
    ghost var after := Snap(Refs(s));
    ShiftLeftHolds(before[l.ref], before[r.ref], after[l.ref], after[r.ref], l, m, r);
    LeftResplits(s, k);
    s' := ResplitInHeap(before, after, s, k, LeftGrown(l, m, r), r.keys[0], RightShrunk(r));
    RepOfSnap(s', Refs(s));
  }

  lemma PairHolds(m: map<Node, State>, s: Tree, k: nat)
    requires HasPair(s, k) && RepIn(m, s)
    ensures s.ref in m && Holds(m[s.ref], s)
    ensures s.kids[k].ref in m && Holds(m[s.kids[k].ref], s.kids[k])
    ensures s.kids[k + 1].ref in m && Holds(m[s.kids[k + 1].ref], s.kids[k + 1])
  {
    assert RepIn(m, s.kids[k]) && RepIn(m, s.kids[k + 1]);
  }

  // After the slots of a pair and of its parent were rewritten, the heap holds the redistributed node.
  lemma {:induction false} ResplitInHeap(m: map<Node, State>, m': map<Node, State>, s: Tree, k: nat,
      l': Tree, e: Entry, r': Tree) returns (s': Tree)
    requires Resplits(s, k, l', e, r') && Distinct(s) && RepIn(m, s)
    requires SameOutside(m, m', {s.ref, l'.ref, r'.ref})
    requires s.ref in m' && m'[s.ref].size == m[s.ref].size && m'[s.ref].children == m[s.ref].children
    requires |m[s.ref].data| > k && m'[s.ref].data == m[s.ref].data[k := e]
    requires l'.ref in m' && Holds(m'[l'.ref], l') && r'.ref in m' && Holds(m'[r'.ref], r')
    ensures s' == Resplit(s, k, l', e, r') && RepIn(m', s') && Refs(s') <= Refs(s) && Distinct(s')
  {
    s' := Resplit(s, k, l', e, r');
    assert Holds(m'[s.ref], s') by {
      assert Holds(m[s.ref], s);
      assert m'[s.ref].data[..|s.keys|] == s.keys[k := e];
    }
    ResplitRep(m, m', s, k, l', e, r');
    ResplitDistinct(s, k, l', e, r');
  }

  lemma LeftResplits(s: Tree, k: nat)
    requires HasPair(s, k) && Siblings(s.kids[k], s.kids[k + 1]) && s.kids[k + 1].keys != []
    ensures var l, m, r := s.kids[k], s.keys[k], s.kids[k + 1];
            Resplits(s, k, LeftGrown(l, m, r), r.keys[0], RightShrunk(r))
  {
    var l, m, r := s.kids[k], s.keys[k], s.kids[k + 1];
    assert l.keys + [m] + [r.keys[0]] + r.keys[1..] == l.keys + [m] + r.keys;
    if r.kids != [] {
      assert l.kids + [r.kids[0]] + r.kids[1..] == l.kids + r.kids;
    }
  }

  // ---------------------------------------------------------------- shift_key_to_sibling, to the right

  ghost function LeftShrunk(l: Tree): Tree
    requires l.keys != []
  {
    var n := |l.keys|;
    Tree(l.ref, l.keys[..n - 1], if |l.kids| < n then [] else l.kids[..n])
  }

  ghost function RightGrown(l: Tree, m: Entry, r: Tree): Tree {
    Tree(r.ref, [m] + r.keys, if l.kids == [] then [] else [l.kids[|l.kids| - 1]] + r.kids)
  }

  method ShiftRightSlots(p: Node, k: nat, left: Node, right: Node)
    requires p != left && p != right && left != right
    requires |p.data| == |left.data| == |right.data| == MAX_DATA
    requires |left.children| == |right.children| == MAX_CHILDREN
    requires k < MAX_DATA && 0 < left.size <= MAX_DATA && right.size < MAX_DATA
    modifies p`data, left, right
    ensures p.data == old(p.data[k := left.data[left.size - 1]])
    ensures left.size == old(left.size) - 1 && right.size == old(right.size) + 1
    ensures left.data == old(left.data[left.size - 1 := EMPTY])
    ensures |right.data| == MAX_DATA && right.data[..right.size] == old([p.data[k]] + right.data[..right.size])
    ensures old(left.children[0]) == null ==>
              left.children == old(left.children) && right.children == old(right.children)
    ensures old(left.children[0]) != null ==>
              && left.children == old(left.children[left.size := null])
              && |right.children| == MAX_CHILDREN
              && right.children[..right.size + 1] == old([left.children[left.size]] + right.children[..right.size + 1])
  {
    right.data := ShiftUp(right.data, 0, right.size);
    right.data := right.data[0 := p.data[k]];
    right.size := right.size + 1;
    p.data := p.data[k := left.data[left.size - 1]];
    left.data := left.data[left.size - 1 := EMPTY];
    left.size := left.size - 1;
    if left.children[0] != null {
      right.children := ShiftUp(right.children, 0, right.size);
      // REPAIR of include/data/btree.h:383-384: the donor's last child is one slot further, because the
      // donor's size has already been decremented.
      right.children := right.children[0 := left.children[left.size + 1]];
      left.children := left.children[left.size + 1 := null];
    }
  }

  lemma ShiftRightHolds(l0: State, r0: State, l1: State, r1: State, l: Tree, m: Entry, r: Tree)
    requires Holds(l0, l) && Holds(r0, r) && Siblings(l, r) && |r.keys| < MAX_DATA && l.keys != []
    requires l1.size == l0.size - 1 && r1.size == r0.size + 1
    requires l1.data == l0.data[l0.size - 1 := EMPTY]
    requires |r1.data| == MAX_DATA && r1.data[..r1.size] == [m] + r0.data[..r0.size]
    requires l.kids == [] ==> l1.children == l0.children && r1.children == r0.children
    requires l.kids != [] ==>
               && l1.children == l0.children[l0.size := null]
               && |r1.children| == MAX_CHILDREN
               && r1.children[..r1.size + 1] == [l0.children[l0.size]] + r0.children[..r0.size + 1]
    ensures Holds(l1, LeftShrunk(l)) && Holds(r1, RightGrown(l, m, r))
  {
    var n := |l.keys|;
    assert l1.data[..n - 1] == l0.data[..n][..n - 1];
    if l.kids != [] {
      forall j | 0 <= j < |r.kids| + 1
        ensures r1.children[j] == ([l.kids[n]] + r.kids)[j].ref
      {
        assert r1.children[j] == r1.children[..r1.size + 1][j];
      }
    }
  }

  // The right sibling's side of `shift_key_to_sibling(p, k + 1, true)`.
  method ShiftRight(p: Node, k: nat, ghost s: Tree) returns (ghost s': Tree)
    requires p == s.ref && Rep(s) && Distinct(s) && HasPair(s, k) && Siblings(s.kids[k], s.kids[k + 1])
    requires |s.kids[k + 1].keys| < MAX_DATA && s.kids[k].keys != []
    modifies p, s.kids[k].ref, s.kids[k + 1].ref
    ensures s' == Resplit(s, k, LeftShrunk(s.kids[k]), s.kids[k].keys[|s.kids[k].keys| - 1],
              RightGrown(s.kids[k], s.keys[k], s.kids[k + 1]))
    ensures Rep(s') && Refs(s') <= Refs(s) && Distinct(s')
  {
    hide Inorder, Distinct, Shape, Snap, Refs, RepIn, Rep, Resplit, Closed, Join;
    ghost var l, m, r := s.kids[k], s.keys[k], s.kids[k + 1];
    ghost var before := Snap(Refs(s));
    RepToSnap(s, Refs(s));
    PairApart(s, k);
    PairHolds(before, s, k);
    ShiftRightSlots(p, k, p.children[k], p.children[k + 1]);
    ghost var after := Snap(Refs(s));
    ShiftRightHolds(before[l.ref], before[r.ref], after[l.ref], after[r.ref], l, m, r);
    RightResplits(s, k);
    s' := ResplitInHeap(before, after, s, k, LeftShrunk(l), l.keys[|l.keys| - 1], RightGrown(l, m, r));
    RepOfSnap(s', Refs(s));
  }

  lemma RightResplits(s: Tree, k: nat)
    requires HasPair(s, k) && Siblings(s.kids[k], s.kids[k + 1]) && s.kids[k].keys != []
    ensures var l, m, r := s.kids[k], s.keys[k], s.kids[k + 1];
            Resplits(s, k, LeftShrunk(l), l.keys[|l.keys| - 1], RightGrown(l, m, r))
  {
    var l, m, r := s.kids[k], s.keys[k], s.kids[k + 1];
    var n := |l.keys| - 1;
    assert l.keys[..n] + [l.keys[n]] + ([m] + r.keys) == l.keys + [m] + r.keys;
    if l.kids != [] {
      assert l.kids[..n + 1] + ([l.kids[n + 1]] + r.kids) == l.kids + r.kids;
    }
  }

  method ShiftKeyToSibling(p: Node, k: nat, shiftRight: bool, ghost s: Tree) returns (ghost s': Tree)
    requires p == s.ref && Rep(s) && Distinct(s)
    requires 0 < k && HasPair(s, k - 1) && Siblings(s.kids[k - 1], s.kids[k])
    requires if shiftRight then |s.kids[k].keys| < MAX_DATA && s.kids[k - 1].keys != []
             else |s.kids[k - 1].keys| < MAX_DATA && s.kids[k].keys != []
    modifies p, s.kids[k - 1].ref, s.kids[k].ref
    ensures s' == if shiftRight
                  then Resplit(s, k - 1, LeftShrunk(s.kids[k - 1]), s.kids[k - 1].keys[|s.kids[k - 1].keys| - 1],
                         RightGrown(s.kids[k - 1], s.keys[k - 1], s.kids[k]))
                  else Resplit(s, k - 1, LeftGrown(s.kids[k - 1], s.keys[k - 1], s.kids[k]), s.kids[k].keys[0],
                         RightShrunk(s.kids[k]))
    ensures Rep(s') && Refs(s') <= Refs(s) && Distinct(s')
  {
    if !shiftRight {
      s' := ShiftLeft(p, k - 1, s);
    } else {
      s' := ShiftRight(p, k - 1, s);
    }
  }

  // ---------------------------------------------------------------- merge_two_siblings

  method MergeSlots(p: Node, k: nat, p1: Node, p2: Node)
    requires p != p1 && p != p2 && p1 != p2
    requires |p.data| == |p1.data| == |p2.data| == MAX_DATA
    requires |p.children| == |p1.children| == |p2.children| == MAX_CHILDREN
    requires k < p.size <= MAX_DATA
    modifies p, p1
    ensures p.size == old(p.size) - 1 && p1.size == MAX_DATA
    ensures p1.data == old(p1.data[..M - 1] + [p.data[k]] + p2.data[..M - 1])
    ensures p1.children == old(p1.children[..M] + p2.children[..M])
    ensures |p.data| == MAX_DATA && p.data[..p.size] == old(p.data[..k] + p.data[k + 1..p.size])
    ensures |p.children| == MAX_CHILDREN
    ensures p.children[..p.size + 1] == old(p.children[..k + 1] + p.children[k + 2..p.size + 1])
  {
    var data1 := JoinWith(p1.data, p.data[k], p2.data, M - 1);
    var children1 := JoinTo(p1.children, p2.children, M);
    p1.data, p1.children, p1.size := data1, children1, MAX_DATA;
    // The read of p.children[p.size + 1] at include/data/btree.h:404 is left out: its value is
    // overwritten two lines later, and it lies outside the buffer when p is full.
    var data := ShiftOver(p.data, k, p.size - 1, EMPTY);
    var children := ShiftOver(p.children, k + 1, p.size, null);
    p.data, p.children, p.size := data, children, p.size - 1;
  }

  lemma MergeHolds(s0: State, l0: State, r0: State, s1: State, l1: State, s: Tree, k: nat)
    requires HasPair(s, k) && Siblings(s.kids[k], s.kids[k + 1])
    requires Holds(s0, s) && Holds(l0, s.kids[k]) && Holds(r0, s.kids[k + 1])
    requires |s.kids[k].keys| == |s.kids[k + 1].keys| == M - 1
    requires s1.size == s0.size - 1 && l1.size == MAX_DATA
    requires l1.data == l0.data[..M - 1] + [s.keys[k]] + r0.data[..M - 1]
    requires l1.children == l0.children[..M] + r0.children[..M]
    requires |s1.data| == MAX_DATA && s1.data[..s1.size] == s0.data[..k] + s0.data[k + 1..s0.size]
    requires |s1.children| == MAX_CHILDREN
    requires s1.children[..s1.size + 1] == s0.children[..k + 1] + s0.children[k + 2..s0.size + 1]
    ensures var c := Join(s.kids[k], s.keys[k], s.kids[k + 1]);
            Holds(l1, c) && Holds(s1, Closed(s, k, c))
  {
    var c := Join(s.kids[k], s.keys[k], s.kids[k + 1]);
    var s' := Closed(s, k, c);
    assert s1.data[..s1.size] == s'.keys;
    forall j | 0 <= j < |s'.kids|
      ensures s1.children[j] == s'.kids[j].ref
    {
      assert s1.children[j] == s1.children[..s1.size + 1][j];
    }
    forall j | 0 <= j < |c.kids|
      ensures l1.children[j] == c.kids[j].ref
    {
    }
  }

  // `merge_two_siblings(p, k + 1)`: the argument is decremented first.
  method MergeTwoSiblings(p: Node, k1: nat, ghost s: Tree) returns (ghost s': Tree)
    requires p == s.ref && Rep(s) && Distinct(s) && 0 < k1 && HasPair(s, k1 - 1)
    requires Siblings(s.kids[k1 - 1], s.kids[k1])
    requires |s.kids[k1 - 1].keys| == |s.kids[k1].keys| == M - 1
    modifies p, s.kids[k1 - 1].ref
    ensures s' == Closed(s, k1 - 1, Join(s.kids[k1 - 1], s.keys[k1 - 1], s.kids[k1]))
    ensures Rep(s') && Refs(s') <= Refs(s) && Distinct(s')
  {
    hide Inorder, Distinct, Shape, Snap, Refs, RepIn, Rep, Resplit, Closed, Join, KidRefs, Siblings;
    var k := k1 - 1;
    ghost var before := Snap(Refs(s));
    ghost var l, r := s.kids[k], s.kids[k + 1];
    RepToSnap(s, Refs(s));
    PairApart(s, k);
    PairHolds(before, s, k);
    MergeSlots(p, k, p.children[k], p.children[k + 1]);
    ghost var after := Snap(Refs(s));
    s' := MergeInHeap(before, after, s, k);
    RepOfSnap(s', Refs(s));
  }

  lemma {:induction false} MergeInHeap(m: map<Node, State>, m': map<Node, State>, s: Tree, k: nat) returns (s': Tree)
    requires HasPair(s, k) && Distinct(s) && RepIn(m, s) && Siblings(s.kids[k], s.kids[k + 1])
    requires |s.kids[k].keys| == |s.kids[k + 1].keys| == M - 1
    requires SameOutside(m, m', {s.ref, s.kids[k].ref})
    requires s.ref in m && s.kids[k].ref in m && s.kids[k + 1].ref in m && s.ref in m' && s.kids[k].ref in m'
    requires var s0, l0, r0, s1, l1 := m[s.ref], m[s.kids[k].ref], m[s.kids[k + 1].ref], m'[s.ref], m'[s.kids[k].ref];
             && s1.size == s0.size - 1 && l1.size == MAX_DATA
             && |s0.data| == |l0.data| == |r0.data| == |s1.data| == MAX_DATA
             && |s0.children| == |l0.children| == |r0.children| == |s1.children| == MAX_CHILDREN
             && k + 1 <= s0.size <= MAX_DATA
             && l1.data == l0.data[..M - 1] + [s.keys[k]] + r0.data[..M - 1]
             && l1.children == l0.children[..M] + r0.children[..M]
             && s1.data[..s1.size] == s0.data[..k] + s0.data[k + 1..s0.size]
             && s1.children[..s1.size + 1] == s0.children[..k + 1] + s0.children[k + 2..s0.size + 1]
    ensures s' == Closed(s, k, Join(s.kids[k], s.keys[k], s.kids[k + 1]))
    ensures RepIn(m', s') && Refs(s') <= Refs(s) && Distinct(s')
  {
    hide Inorder, Distinct, Closed, Refs;
    PairHolds(m, s, k);
    MergeHolds(m[s.ref], m[s.kids[k].ref], m[s.kids[k + 1].ref], m'[s.ref], m'[s.kids[k].ref], s, k);
    s' := Closed(s, k, Join(s.kids[k], s.keys[k], s.kids[k + 1]));
    ClosedRep(m, m', s, k);
    ClosedDistinct(s, k);
  }
}
