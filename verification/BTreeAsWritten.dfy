/** The lines of include/data/btree.h that the other modules repair, as they stand.

    Each is given as a function of the slots it works on, with the exact condition under which it does
    what the algorithm needs, and an input on which it does not.  The last part is the one use for
    which insertion needs no repair: keys that arrive in ascending order. */
module BTreeAsWritten {
  import opened BTreeModel
  import opened BTreePath
  import opened BTreeInsert
  import opened BTreeSiblings
  import opened BTreeRemove
  import opened BTreeObject
  import opened Common
  import opened Slots

  // ---------------------------------------------------------------- lines 190-193: no shift of the keys

  // The parent's keys after a split at i that only writes slot i and counts one more.
  function KeysUnshifted(data: seq<Entry>, size: nat, i: nat, m: Entry): seq<Entry>
    requires i <= size < |data|
  {
    data[i := m][..size + 1]
  }

  // Shifted, the keys from slot i on would follow the new one.  Unshifted they come out right exactly if
  // a shift would not have changed the slots behind i: each of them equals the one before.
  lemma {:induction false} UnshiftedKeepsIff(data: seq<Entry>, size: nat, i: nat, m: Entry)
    requires i <= size < |data|
    ensures KeysUnshifted(data, size, i, m) == data[..i] + [m] + data[i..size] <==>
            data[i + 1..size + 1] == data[i..size]
  {
    var was, wanted := KeysUnshifted(data, size, i, m), data[..i] + [m] + data[i..size];
    assert was[i + 1..] == data[i + 1..size + 1] && wanted[i + 1..] == data[i..size];
    assert was[..i + 1] == wanted[..i + 1];
    assert was == was[..i + 1] + was[i + 1..] && wanted == wanted[..i + 1] + wanted[i + 1..];
  }

  // ... so always when the split is the last child's ...
  lemma UnshiftedAtEnd(data: seq<Entry>, size: nat, m: Entry)
    requires size < |data|
    ensures KeysUnshifted(data, size, size, m) == data[..size] + [m] + data[size..size]
  {
    UnshiftedKeepsIff(data, size, size, m);
  }

  // ... and never where two different keys lie behind the split.
  lemma UnshiftedNeverBefore(data: seq<Entry>, size: nat, i: nat, m: Entry)
    requires i + 1 < size < |data| && data[i] != data[i + 1]
    ensures KeysUnshifted(data, size, i, m) != data[..i] + [m] + data[i..size]
  {
    assert data[i + 1..size + 1][0] == data[i + 1] && data[i..size][0] == data[i];
    UnshiftedKeepsIff(data, size, i, m);
  }

  lemma UnshiftedLoses()
    ensures var data := [Entry(10, 0), Entry(20, 0), EMPTY];
            Entry(10, 0) !in KeysUnshifted(data, 2, 0, Entry(5, 0))
  {
    assert KeysUnshifted([Entry(10, 0), Entry(20, 0), EMPTY], 2, 0, Entry(5, 0)) == [Entry(5, 0), Entry(20, 0), EMPTY];
  }

  // ---------------------------------------------------------------- line 162: the key before the promoted one

  // Which half of the split child i the descent takes when it looks at data[i - 1]; for the first child
  // that lies outside of the node.
  function HalfTaken(s: Tree, i: nat, key: int): Option<nat>
    requires i <= |s.keys|
  {
    if i == 0 then None
    else if s.keys[i - 1].key < key then Some(i + 1)
    else Some(i)
  }

  // s' is the parent after the split of child i, which the search had rightly chosen.
  lemma HalfTakenIff(s: Tree, s': Tree, i: nat, key: int)
    requires Routes(s, i, key) && SplitDone(s, s', i)
    requires i > 0 ==> s.keys[i - 1].key <= s'.keys[i].key
    ensures HalfTaken(s', i, key).Some? && Routes(s', HalfTaken(s', i, key).value, key) <==>
            i > 0 && (s'.keys[i - 1].key == key || s'.keys[i].key <= key)
  {
  }

  // A parent with one key, 10, and two leaves, the second of them full of larger keys.
  ghost function FullBehind(n: Node, left: Node, full: Node): Tree {
    Tree(n, [Entry(10, 0)],
      [Tree(left, seq(M - 1, _ => Entry(0, 0)), []), Tree(full, seq(MAX_DATA, j => Entry(30 + j, 0)), [])])
  }

  // It is a B-tree, and 20 goes below the promoted key; the line sends it above.
  lemma WrongHalfTaken(n: Node, left: Node, full: Node, right: Node)
    requires n != left && n != full && left != full
    ensures var s := FullBehind(n, left, full);
            && Shape(s, 1, 1) && Distinct(s) && Sorted(Inorder(s)) && Routes(s, 1, 20) && CanSplit(s, 1)
            && var s' := Split(s, 1, right);
               && SplitDone(s, s', 1) && HalfTaken(s', 1, 20) == Some(2) && !Routes(s', 2, 20)
  {
    var s := FullBehind(n, left, full);
    var a, b := s.kids[0], s.kids[1];
    PairRefs(a, b);
    assert KidRefs(a.kids) == {} && KidRefs(b.kids) == {};
    assert s.kids[1..] == [b] && [b][1..] == [];
    assert s.keys[1..] == [];
    LeafInorder(a);
    LeafInorder(b);
    assert Weave([], [b]) == b.keys + [];
    assert Inorder(s) == a.keys + ([s.keys[0]] + b.keys);
  }

  // ---------------------------------------------------------------- line 294: a child number too low

  // The call decrements once too often, so it joins children k-2 and k-1.  The key between them and the
  // keys of child k-1 are written behind the first M-1 keys of child k-2, whatever else it holds.
  ghost function LowMerge(s: Tree, k: nat): Tree
    requires 2 <= k == |s.keys| && |s.kids| == k + 1
  {
    Closed(s, k - 2, Join(Trimmed(s.kids[k - 2]), s.keys[k - 2], s.kids[k - 1]))
  }

  // The first M-1 keys, and the kids around them.
  ghost function Trimmed(t: Tree): Tree {
    Tree(t.ref, if |t.keys| < M then t.keys else t.keys[..M - 1], if |t.kids| <= M then t.kids else t.kids[..M])
  }

  lemma LowMergeHoldsChild(l0: State, r0: State, l1: State, l: Tree, r: Tree, m: Entry)
    requires WellShaped(l) && WellShaped(r) && (l.kids == [] <==> r.kids == [])
    requires Holds(l0, l) && Holds(r0, r) && M - 1 <= |l.keys| && |r.keys| == M - 1
    requires l1.size == MAX_DATA && l1.data == l0.data[..M - 1] + [m] + r0.data[..M - 1]
    requires l1.children == l0.children[..M] + r0.children[..M]
    ensures Holds(l1, Join(Trimmed(l), m, r))
  {
    var c := Join(Trimmed(l), m, r);
    assert Trimmed(l).keys == l.keys[..M - 1] == l0.data[..M - 1];
    assert r0.data[..M - 1] == r.keys;
    forall j | 0 <= j < |c.kids|
      ensures l1.children[j] == c.kids[j].ref
    {
    }
  }

  lemma LowMergeHoldsParent(s0: State, s1: State, s: Tree, k: nat, c: Tree)
    requires HasPair(s, k) && Holds(s0, s) && c.ref == s.kids[k].ref && s1.size == s0.size - 1
    requires |s1.data| == MAX_DATA && s1.data[..s1.size] == s0.data[..k] + s0.data[k + 1..s0.size]
    requires |s1.children| == MAX_CHILDREN
    requires s1.children[..s1.size + 1] == s0.children[..k + 1] + s0.children[k + 2..s0.size + 1]
    ensures Holds(s1, Closed(s, k, c))
  {
    var s' := Closed(s, k, c);
    assert s1.data[..s1.size] == s'.keys;
    forall j | 0 <= j < |s'.kids|
      ensures s1.children[j] == s'.kids[j].ref
    {
      assert s1.children[j] == s1.children[..s1.size + 1][j];
    }
  }

  // Child k, which the descent is about to enter, is still at the minimum; if it is a leaf, taking a key
  // from it leaves M-2.
  lemma {:induction false} LowMergeNeverFills(s: Tree, k: nat, i: nat)
    requires 2 <= k == |s.keys| && |s.kids| == k + 1 && |s.kids[k].keys| == M - 1 && i < M - 1
    ensures var entered := LowMerge(s, k).kids[|LowMerge(s, k).keys|];
            && entered == s.kids[k] && |entered.keys| == M - 1
            && |Without(entered, i).keys| == M - 2 && !Shape(Without(entered, i), 0, M - 1)
  {
  }

  lemma {:induction false} TrimmedInorder(t: Tree)
    requires WellShaped(t) && |t.keys| >= M
    ensures |Inorder(Trimmed(t))| < |Inorder(t)|
  {
    var n := M - 1;
    if t.kids == [] {
      LeafInorder(t);
      LeafInorder(Trimmed(t));
    } else {
      AroundKid(t, n);
      AroundKid(Trimmed(t), n);
      assert Trimmed(t).keys[..n] == t.keys[..n] && Trimmed(t).kids[..n] == t.kids[..n];
      assert Trimmed(t).keys[n..] == [];
    }
  }

  // The merge keeps the contents exactly if child k-2 is at the minimum too; if not, keys are overwritten.
  lemma {:induction false} LowMergeKeepsIff(s: Tree, k: nat)
    requires 2 <= k == |s.keys| && |s.kids| == k + 1
    requires WellShaped(s.kids[k - 2]) && WellShaped(s.kids[k - 1])
    requires s.kids[k - 2].kids == [] <==> s.kids[k - 1].kids == []
    requires M - 1 <= |s.kids[k - 2].keys|
    ensures Inorder(LowMerge(s, k)) == Inorder(s) <==> |s.kids[k - 2].keys| == M - 1
  {
    var l, m, r := s.kids[k - 2], s.keys[k - 2], s.kids[k - 1];
    TrimmedIff(l);
    LowMergeIs(s, k);
    hide *;
    ClosedInorder(s, k - 2);
    ClosedSides(s, k - 2, Join(l, m, r));
    ClosedSides(s, k - 2, Join(Trimmed(l), m, r));
    JoinInorder(l, m, r);
    JoinInorder(Trimmed(l), m, r);
    SameBetween(Weave(s.keys[..k - 2], s.kids[..k - 2]), Inorder(l), Inorder(Trimmed(l)), [m], Inorder(r),
                After(s.keys[k - 1..], s.kids[k..]));
  }

  // The call as written, on the nodes: the loops of the merge leave a heap that holds LowMerge, whose
  // contents are the old ones exactly if child k-2 was minimal.
  method MergeLow(p: Node, k: nat, ghost s: Tree)
    requires p == s.ref && Rep(s) && Distinct(s) && CanMergeLow(s, k)
    modifies p, s.kids[k - 2].ref
    ensures Rep(LowMerge(s, k))
    ensures Inorder(LowMerge(s, k)) == Inorder(s) <==> |s.kids[k - 2].keys| == M - 1
  {
    hide Inorder, Distinct, Snap, Refs, RepIn, Rep, Closed, Join, KidRefs, Trimmed, LowMerge;
    LowMergeIs(s, k);
    LowMergeKeepsIff(s, k);
    ghost var before := Snap(Refs(s));
    RepToSnap(s, Refs(s));
    PairApart(s, k - 2);
    PairHolds(before, s, k - 2);
    MergeSlots(p, k - 2, p.children[k - 2], p.children[k - 1]);
    ghost var after := Snap(Refs(s));
    LowMergeHolds(before[p], before[s.kids[k - 2].ref], before[s.kids[k - 1].ref], after[p],
                  after[s.kids[k - 2].ref], s, k);
    LowMergeRep(before, after, s, k);
    RepOfSnap(LowMerge(s, k), Refs(s));
  }

  // What is known of node s, of which the last child k is to be entered, and of child k-1.
  ghost predicate CanMergeLow(s: Tree, k: nat) {
    && 2 <= k == |s.keys| && |s.kids| == k + 1
    && WellShaped(s.kids[k - 2]) && WellShaped(s.kids[k - 1])
    && (s.kids[k - 2].kids == [] <==> s.kids[k - 1].kids == [])
    && M - 1 <= |s.kids[k - 2].keys| && |s.kids[k - 1].keys| == M - 1
  }

  lemma LowMergeHolds(s0: State, l0: State, r0: State, s1: State, l1: State, s: Tree, k: nat)
    requires CanMergeLow(s, k)
    requires Holds(s0, s) && Holds(l0, s.kids[k - 2]) && Holds(r0, s.kids[k - 1])
    requires s1.size == s0.size - 1 && l1.size == MAX_DATA
    requires l1.data == l0.data[..M - 1] + [s.keys[k - 2]] + r0.data[..M - 1]
    requires l1.children == l0.children[..M] + r0.children[..M]
    requires |s1.data| == MAX_DATA && s1.data[..s1.size] == s0.data[..k - 2] + s0.data[k - 1..s0.size]
    requires |s1.children| == MAX_CHILDREN
    requires s1.children[..s1.size + 1] == s0.children[..k - 1] + s0.children[k..s0.size + 1]
    ensures |LowMerge(s, k).kids| == k
    ensures Holds(l1, LowMerge(s, k).kids[k - 2]) && Holds(s1, LowMerge(s, k))
  {
    LowMergeHoldsChild(l0, r0, l1, s.kids[k - 2], s.kids[k - 1], s.keys[k - 2]);
    var c := Join(Trimmed(s.kids[k - 2]), s.keys[k - 2], s.kids[k - 1]);
    hide Trimmed, Join;
    LowMergeHoldsParent(s0, s1, s, k - 2, c);
  }

  lemma {:induction false} LowMergeRep(m: map<Node, State>, m': map<Node, State>, s: Tree, k: nat)
    requires CanMergeLow(s, k) && Distinct(s) && RepIn(m, s) && |LowMerge(s, k).kids| == k
    requires SameOutside(m, m', {s.ref, s.kids[k - 2].ref, s.kids[k - 1].ref})
    requires s.ref in m' && Holds(m'[s.ref], LowMerge(s, k))
    requires s.kids[k - 2].ref in m' && Holds(m'[s.kids[k - 2].ref], LowMerge(s, k).kids[k - 2])
    ensures RepIn(m', LowMerge(s, k))
  {
    hide Refs, KidRefs, Distinct, Holds, Inorder;
    var l, r := s.kids[k - 2], s.kids[k - 1];
    var touched := {s.ref, l.ref, r.ref};
    var s' := LowMerge(s, k);
    PairApart(s, k - 2);
    KidRefsConcat(l.kids, r.kids);
    assert AllRep(m', l.kids + r.kids) by { AllRepFrame(m, m', l.kids + r.kids, touched); }
    assert AllRep(m', s.kids[..k - 2]) by { AllRepFrame(m, m', s.kids[..k - 2], touched); }
    assert AllRep(m', s.kids[k..]) by { AllRepFrame(m, m', s.kids[k..], touched); }
    var c := s'.kids[k - 2];
    forall j | 0 <= j < |c.kids|
      ensures RepIn(m', c.kids[j])
    {
      assert c.kids[j] in l.kids + r.kids;
    }
    assert RepIn(m', c);
    forall j | 0 <= j < |s'.kids|
      ensures RepIn(m', s'.kids[j])
    {
      if j < k - 2 {
        assert s'.kids[j] == s.kids[..k - 2][j];
      } else if j > k - 2 {
        assert s'.kids[j] == s.kids[k..][j - k + 1];
      }
    }
  }

  lemma LowMergeIs(s: Tree, k: nat)
    requires 2 <= k == |s.keys| && |s.kids| == k + 1
    ensures HasPair(s, k - 2)
    ensures LowMerge(s, k) == Closed(s, k - 2, Join(Trimmed(s.kids[k - 2]), s.keys[k - 2], s.kids[k - 1]))
  {
  }

  lemma {:induction false} TrimmedIff(t: Tree)
    requires WellShaped(t) && M - 1 <= |t.keys|
    ensures WellShaped(Trimmed(t)) && (Trimmed(t).kids == [] <==> t.kids == [])
    ensures Inorder(Trimmed(t)) == Inorder(t) <==> |t.keys| == M - 1
  {
    if |t.keys| == M - 1 {
      assert Trimmed(t) == t;
    } else {
      TrimmedInorder(t);
    }
  }

  lemma {:induction false} ClosedSides(s: Tree, k: nat, c: Tree)
    requires HasPair(s, k)
    ensures Inorder(Closed(s, k, c)) ==
            Weave(s.keys[..k], s.kids[..k]) + Inorder(c) + After(s.keys[k + 1..], s.kids[k + 2..])
  {
    hide Inorder, Weave, After;
    var t := Closed(s, k, c);
    AroundKid(t, k);
    assert t.keys[..k] == s.keys[..k] && t.kids[..k] == s.kids[..k] && t.kids[k] == c;
    assert t.keys[k..] == s.keys[k + 1..] && t.kids[k + 1..] == s.kids[k + 2..];
  }

  lemma SameBetween<T>(a: seq<T>, x: seq<T>, x': seq<T>, y: seq<T>, z: seq<T>, b: seq<T>)
    ensures a + (x' + y + z) + b == a + (x + y + z) + b <==> x' == x
  {
    hide *;
    var w, w' := a + (x + y + z) + b, a + (x' + y + z) + b;
    if w == w' {
      assert |x| == |x'|;
      assert x == w[|a|..|a| + |x|] && x' == w'[|a|..|a| + |x'|];
    }
  }

  // ---------------------------------------------------------------- lines 350-353: the donor's last child

  // The donor's child slots after giving away its first child; n keys are left.
  function DonorUnfinished(children: seq<Node?>, n: nat): seq<Node?>
    requires n + 1 < |children|
  {
    (children[1..n + 1] + children[n..])[n := null]
  }

  // The n + 1 children that should remain do remain exactly when the last of them was null.
  lemma DonorUnfinishedIff(children: seq<Node?>, n: nat)
    requires n + 1 < |children|
    ensures DonorUnfinished(children, n)[..n + 1] == children[1..n + 2] <==> children[n + 1] == null
  {
    var d := DonorUnfinished(children, n);
    if children[n + 1] == null {
      assert d[..n + 1] == children[1..n + 2];
    } else {
      assert d[..n + 1][n] == null && children[1..n + 2][n] == children[n + 1];
    }
  }

  // ... so never for an inner node.
  lemma DonorAlwaysLosesChild(r: State, t: Tree, n: nat)
    requires Holds(r, t) && t.kids != [] && n + 1 == |t.keys|
    ensures DonorUnfinished(r.children, n)[..n + 1] != r.children[1..n + 2]
  {
    assert r.children[n + 1] == t.kids[n + 1].ref;
    DonorUnfinishedIff(r.children, n);
  }

  // ---------------------------------------------------------------- lines 383-384: the wrong child moves

  // The donor has n keys left, and line 383 takes its child n where child n + 1 is the one to move.
  // The two are the same node only if the tree was not one.
  lemma {:induction false} WrongChildMoves(l: State, t: Tree, n: nat)
    requires Holds(l, t) && t.kids != [] && n + 1 == |t.keys| && Distinct(t)
    ensures l.children[n] != l.children[n + 1]
  {
    KidsDisjoint(t.kids, n, n + 1);
    assert l.children[n] == t.kids[n].ref && l.children[n + 1] == t.kids[n + 1].ref;
  }

  // ---------------------------------------------------------------- lines 139-140: a stop that stays below

  // The elements that iter_impl calls the callable with, one after the other.
  ghost function Calls<S>(t: Tree, step: (S, Entry) -> (S, bool), s: S): seq<Entry>
    decreases t
  {
    CallsKids(t.keys, t.kids, step, s)
  }

  ghost function CallsKids<S>(keys: seq<Entry>, kids: seq<Tree>, step: (S, Entry) -> (S, bool), s: S): seq<Entry>
    decreases kids, |keys|
  {
    var below := if kids == [] then [] else Calls(kids[0], step, s);
    var s1 := if kids == [] then s else IterTree(kids[0], step, s);
    if keys == [] then below
    else if !step(s1, keys[0]).1 then below + [keys[0]]
    else below + [keys[0]] + CallsKids(keys[1..], if kids == [] then [] else kids[1..], step, step(s1, keys[0]).0)
  }

  // The state after some calls.
  ghost function Fold<S>(calls: seq<Entry>, step: (S, Entry) -> (S, bool), s: S): S {
    if calls == [] then s else Fold(calls[1..], step, step(s, calls[0]).0)
  }

  lemma {:induction false} FoldConcat<S>(a: seq<Entry>, b: seq<Entry>, step: (S, Entry) -> (S, bool), s: S)
    ensures Fold(a + b, step, s) == Fold(b, step, Fold(a, step, s))
    decreases |a|
  {
    if a == [] {
      assert a + b == b;
    } else {
      assert (a + b)[1..] == a[1..] + b;
      FoldConcat(a[1..], b, step, step(s, a[0]).0);
    }
  }

  // These are the walk's calls: they lead to its state.
  lemma {:induction false} CallsAreTheWalk<S>(keys: seq<Entry>, kids: seq<Tree>, step: (S, Entry) -> (S, bool), s: S)
    ensures IterKids(keys, kids, step, s) == Fold(CallsKids(keys, kids, step, s), step, s)
    decreases kids, |keys|
  {
    var below := if kids == [] then [] else Calls(kids[0], step, s);
    var s1 := if kids == [] then s else IterTree(kids[0], step, s);
    if kids != [] {
      CallsAreTheWalk(kids[0].keys, kids[0].kids, step, s);
    }
    assert s1 == Fold(below, step, s);
    if keys != [] {
      FoldConcat(below, [keys[0]], step, s);
      assert Fold([keys[0]], step, s1) == step(s1, keys[0]).0;
      if step(s1, keys[0]).1 {
        var rest := if kids == [] then [] else kids[1..];
        CallsAreTheWalk(keys[1..], rest, step, step(s1, keys[0]).0);
        FoldConcat(below + [keys[0]], CallsKids(keys[1..], rest, step, step(s1, keys[0]).0), step, s);
      }
    }
  }

  // Where the callable first says stop, if it is given the elements in order.
  ghost function FirstStop<S>(a: seq<Entry>, step: (S, Entry) -> (S, bool), s: S): (i: nat)
    requires Stopped(a, step, s)
    ensures i < |a|
  {
    if !step(s, a[0]).1 then 0 else 1 + FirstStop(a[1..], step, step(s, a[0]).0)
  }

  // The i-th element lies in a node that is reached through last children only.
  ghost predicate OnLastEdge(keys: seq<Entry>, kids: seq<Tree>, i: nat)
    decreases kids, |keys|
  {
    if kids == [] then true
    else if keys == [] then OnLastEdge(kids[0].keys, kids[0].kids, i)
    else
      var n := |Inorder(kids[0])|;
      i == n || (i > n && OnLastEdge(keys[1..], kids[1..], i - n - 1))
  }

  lemma {:induction false} FirstStopConcat<S>(a: seq<Entry>, b: seq<Entry>, step: (S, Entry) -> (S, bool), s: S)
    ensures Stopped(a + b, step, s) <==> Stopped(a, step, s) || Stopped(b, step, Visit(a, step, s))
    ensures Stopped(a, step, s) ==> FirstStop(a + b, step, s) == FirstStop(a, step, s)
    ensures !Stopped(a, step, s) && Stopped(b, step, Visit(a, step, s)) ==>
              FirstStop(a + b, step, s) == |a| + FirstStop(b, step, Visit(a, step, s))
    decreases |a|
  {
    if a == [] {
      assert a + b == b;
    } else {
      assert (a + b)[1..] == a[1..] + b;
      FirstStopConcat(a[1..], b, step, step(s, a[0]).0);
    }
  }

  // What part of a walk calls, next to the elements it walks over.
  ghost predicate CallsMatch<S>(w: seq<Entry>, calls: seq<Entry>, last: bool, step: (S, Entry) -> (S, bool), s: S,
      s': S) {
    if Stopped(w, step, s) then
      var i := FirstStop(w, step, s);
      w[..i + 1] <= calls && (calls == w[..i + 1] <==> last)
    else calls == w && s' == Visit(w, step, s)
  }

  // The walk over `first` has stopped, and has been followed by more calls.
  lemma StopBelow(first: seq<Entry>, x: seq<Entry>, below: seq<Entry>, more: seq<Entry>, i: nat)
    requires i < |first| && first[..i + 1] <= below && more != []
    ensures (first + x)[..i + 1] <= below + more && below + more != (first + x)[..i + 1]
  {
    assert (first + x)[..i + 1] == first[..i + 1];
    assert (below + more)[..i + 1] == below[..i + 1];
  }

  // The walk over `first` has called all of it, and has been followed by more calls.
  lemma StopBehind(first: seq<Entry>, x: seq<Entry>, more: seq<Entry>, i: nat)
    requires i < |x|
    ensures (first + x)[..|first| + i + 1] == first + x[..i + 1]
    ensures x[..i + 1] <= more ==> first + x[..i + 1] <= first + more
    ensures first + more == first + x[..i + 1] <==> more == x[..i + 1]
  {
    var n := |first|;
    if first + more == first + x[..i + 1] {
      assert more == (first + more)[n..] && x[..i + 1] == (first + x[..i + 1])[n..];
    }
    if x[..i + 1] <= more {
      assert (first + more)[..n + i + 1] == first + more[..i + 1];
    }
  }

  lemma {:induction false} CallsOverLeaf<S>(keys: seq<Entry>, step: (S, Entry) -> (S, bool), s: S)
    ensures CallsMatch(keys, CallsKids(keys, [], step, s), true, step, s, IterKids(keys, [], step, s))
    decreases |keys|
  {
    if keys != [] && step(s, keys[0]).1 {
      var x, more := keys[1..], CallsKids(keys[1..], [], step, step(s, keys[0]).0);
      CallsOverLeaf(x, step, step(s, keys[0]).0);
      assert keys == [keys[0]] + x && CallsKids(keys, [], step, s) == [keys[0]] + more;
      if Stopped(x, step, step(s, keys[0]).0) {
        StopBehind([keys[0]], x, more, FirstStop(x, step, step(s, keys[0]).0));
      }
    }
  }

  // The rest of a node's loop after its first kid: the key, and what follows it.
  ghost function CallsAfter<S>(keys: seq<Entry>, kids: seq<Tree>, step: (S, Entry) -> (S, bool), s: S): seq<Entry>
    requires keys != [] && kids != []
  {
    if !step(s, keys[0]).1 then [keys[0]]
    else [keys[0]] + CallsKids(keys[1..], kids[1..], step, step(s, keys[0]).0)
  }

  lemma {:induction false} CallsFromKey<S>(key: Entry, tail: seq<Entry>, more: seq<Entry>, last: bool,
      step: (S, Entry) -> (S, bool), s: S, s': S)
    requires step(s, key).1 && CallsMatch(tail, more, last, step, step(s, key).0, s')
    ensures CallsMatch([key] + tail, [key] + more, last, step, s, s')
  {
    assert ([key] + tail)[1..] == tail;
    if Stopped(tail, step, step(s, key).0) {
      StopBehind([key], tail, more, FirstStop(tail, step, step(s, key).0));
    }
  }

  lemma CallsStopAtKey<S>(key: Entry, tail: seq<Entry>, step: (S, Entry) -> (S, bool), s: S)
    requires !step(s, key).1
    ensures Stopped([key] + tail, step, s) && FirstStop([key] + tail, step, s) == 0
    ensures CallsMatch([key] + tail, [key], true, step, s, step(s, key).0)
  {
    assert ([key] + tail)[..1] == [key];
  }

  lemma {:induction false} CallsOver<S>(keys: seq<Entry>, kids: seq<Tree>, step: (S, Entry) -> (S, bool), s: S)
    requires RegularKids(keys, kids)
    ensures var w := Weave(keys, kids);
            CallsMatch(w, CallsKids(keys, kids, step, s),
                       Stopped(w, step, s) && OnLastEdge(keys, kids, FirstStop(w, step, s)),
                       step, s, IterKids(keys, kids, step, s))
    decreases kids, |keys|
  {
    var w := Weave(keys, kids);
    if kids == [] {
      CallsOverLeaf(keys, step, s);
    } else {
      var c := kids[0];
      CallsOver(c.keys, c.kids, step, s);
      if keys == [] {
        assert w == Inorder(c);
      } else {
        var s1 := IterTree(c, step, s);
        if step(s1, keys[0]).1 {
          CallsOver(keys[1..], kids[1..], step, step(s1, keys[0]).0);
        }
        CallsOverNode(keys, kids, step, s);
      }
    }
  }

  lemma {:induction false} CallsOverNode<S>(keys: seq<Entry>, kids: seq<Tree>, step: (S, Entry) -> (S, bool), s: S)
    requires keys != [] && kids != []
    requires var c := kids[0];
             CallsMatch(Inorder(c), Calls(c, step, s),
                        Stopped(Inorder(c), step, s) && OnLastEdge(c.keys, c.kids, FirstStop(Inorder(c), step, s)),
                        step, s, IterTree(c, step, s))
    requires var s1 := IterTree(kids[0], step, s);
             var tail := Weave(keys[1..], kids[1..]);
             step(s1, keys[0]).1 ==>
               CallsMatch(tail, CallsKids(keys[1..], kids[1..], step, step(s1, keys[0]).0),
                          Stopped(tail, step, step(s1, keys[0]).0)
                          && OnLastEdge(keys[1..], kids[1..], FirstStop(tail, step, step(s1, keys[0]).0)),
                          step, step(s1, keys[0]).0, IterKids(keys[1..], kids[1..], step, step(s1, keys[0]).0))
    ensures var w := Weave(keys, kids);
            CallsMatch(w, CallsKids(keys, kids, step, s),
                       Stopped(w, step, s) && OnLastEdge(keys, kids, FirstStop(w, step, s)),
                       step, s, IterKids(keys, kids, step, s))
  {
    var c, key, tail := kids[0], keys[0], Weave(keys[1..], kids[1..]);
    var first, x := Inorder(c), [key] + tail;
    var below, more := Calls(c, step, s), CallsAfter(keys, kids, step, IterTree(c, step, s));
    var s1, s' := IterTree(c, step, s), IterKids(keys, kids, step, s);
    var lastBelow := Stopped(first, step, s) && OnLastEdge(c.keys, c.kids, FirstStop(first, step, s));
    var next := step(s1, key).0;
    var lastTail := Stopped(tail, step, next) && OnLastEdge(keys[1..], kids[1..], FirstStop(tail, step, next));
    hide *;
    NodeParts(keys, kids, step, s);
    MatchState(first, below, lastBelow, step, s, s1);
    if step(s1, key).1 {
      CallsFromKey(key, tail, CallsKids(keys[1..], kids[1..], step, next), lastTail, step, s1, s');
    } else {
      CallsStopAtKey(key, tail, step, s1);
    }
    StopsInNode(keys, kids, step, s);
    var last := Stopped(first + x, step, s) && OnLastEdge(keys, kids, FirstStop(first + x, step, s));
    MatchConcat(first, x, below, more, lastBelow, step(s1, key).1 ==> lastTail, last, step, s, s1, s');
  }

  lemma NodeParts<S>(keys: seq<Entry>, kids: seq<Tree>, step: (S, Entry) -> (S, bool), s: S)
    requires keys != [] && kids != []
    ensures Weave(keys, kids) == Inorder(kids[0]) + ([keys[0]] + Weave(keys[1..], kids[1..]))
    ensures var s1 := IterTree(kids[0], step, s);
            && CallsKids(keys, kids, step, s) == Calls(kids[0], step, s) + CallsAfter(keys, kids, step, s1)
            && CallsAfter(keys, kids, step, s1) ==
               (if step(s1, keys[0]).1 then [keys[0]] + CallsKids(keys[1..], kids[1..], step, step(s1, keys[0]).0)
                else [keys[0]])
            && IterKids(keys, kids, step, s) ==
               if step(s1, keys[0]).1 then IterKids(keys[1..], kids[1..], step, step(s1, keys[0]).0)
               else step(s1, keys[0]).0
  {
    hide Inorder;
  }

  lemma MatchState<S>(w: seq<Entry>, calls: seq<Entry>, last: bool, step: (S, Entry) -> (S, bool), s: S, s': S)
    requires CallsMatch(w, calls, last, step, s, s')
    ensures !Stopped(w, step, s) ==> s' == Visit(w, step, s)
  {
  }

  // A stop below the first kid is not on the last edge; a later one is if it is one in what follows.
  lemma {:induction false} StopsInNode<S>(keys: seq<Entry>, kids: seq<Tree>, step: (S, Entry) -> (S, bool), s: S)
    requires keys != [] && kids != []
    ensures var first, tail := Inorder(kids[0]), Weave(keys[1..], kids[1..]);
            var x, s1 := [keys[0]] + tail, Visit(first, step, s);
            var next := step(s1, keys[0]).0;
            && (Stopped(first + x, step, s) <==> Stopped(first, step, s) || Stopped(x, step, s1))
            && (Stopped(first + x, step, s) ==>
                  var on := OnLastEdge(keys, kids, FirstStop(first + x, step, s));
                  && (Stopped(first, step, s) ==> !on)
                  && (!Stopped(first, step, s) ==>
                        && Stopped(x, step, s1)
                        && (!step(s1, keys[0]).1 ==> on)
                        && (step(s1, keys[0]).1 ==>
                              && Stopped(tail, step, next)
                              && (on <==> OnLastEdge(keys[1..], kids[1..], FirstStop(tail, step, next))))))
  {
    var first, tail := Inorder(kids[0]), Weave(keys[1..], kids[1..]);
    var x, s1 := [keys[0]] + tail, Visit(first, step, s);
    hide Inorder, Weave, Visit;
    FirstStopConcat(first, x, step, s);
    assert x[1..] == tail;
  }

  // One walk behind another, which has called all of its elements or has stopped.
  lemma {:induction false} MatchConcat<S>(first: seq<Entry>, x: seq<Entry>, below: seq<Entry>, more: seq<Entry>,
      lastBelow: bool, lastMore: bool, last: bool, step: (S, Entry) -> (S, bool), s: S, s1: S, s': S)
    requires CallsMatch(first, below, lastBelow, step, s, s1) && more != []
    requires !Stopped(first, step, s) ==> CallsMatch(x, more, lastMore, step, s1, s')
    requires Stopped(first, step, s) ==> !last
    requires !Stopped(first, step, s) && Stopped(x, step, s1) ==> (last <==> lastMore)
    ensures CallsMatch(first + x, below + more, last, step, s, s')
  {
    hide Stopped, FirstStop, Visit;
    FirstStopConcat(first, x, step, s);
    VisitConcat(first, x, step, s);
    if Stopped(first, step, s) {
      StopBelow(first, x, below, more, FirstStop(first, step, s));
    } else if Stopped(x, step, s1) {
      StopBehind(first, x, more, FirstStop(x, step, s1));
    }
  }

  // On a B-tree of any shape and for every callable: a stop is final exactly if its element lies in a
  // node that is reached through last children only.  Otherwise further calls follow it.
  lemma {:induction false} StopIsFinalIff<S>(t: Tree, h: nat, step: (S, Entry) -> (S, bool), s: S)
    requires Shape(t, h, 1)
    ensures var a := Inorder(t);
            && IterTree(t, step, s) == Fold(Calls(t, step, s), step, s)
            && (!Stopped(a, step, s) ==> Calls(t, step, s) == a)
            && (Stopped(a, step, s) ==>
                  var i := FirstStop(a, step, s);
                  a[..i + 1] <= Calls(t, step, s)
                  && (Calls(t, step, s) == a[..i + 1] <==> OnLastEdge(t.keys, t.kids, i)))
  {
    ShapeIsRegular(t, h, 1);
    CallsOver(t.keys, t.kids, step, s);
    CallsAreTheWalk(t.keys, t.kids, step, s);
  }

  function CountOne(s: nat, e: Entry): (nat, bool) {
    (s + 1, false)
  }

  // 1 and 3 below 2: a callable that counts its calls and always says stop is called twice.
  lemma StopOverlooked(n: Node, l: Node, r: Node)
    requires M == 2 && n != l && n != r && l != r
    ensures var t := Tree(n, [Entry(2, 0)], [Tree(l, [Entry(1, 0)], []), Tree(r, [Entry(3, 0)], [])]);
            && Shape(t, 1, 1) && Distinct(t) && Sorted(Inorder(t))
            && IterTree(t, CountOne, 0) == 2 && Visit(Inorder(t), CountOne, 0) == 1
  {
    var a, b := Tree(l, [Entry(1, 0)], []), Tree(r, [Entry(3, 0)], []);
    var t := Tree(n, [Entry(2, 0)], [a, b]);
    PairRefs(a, b);
    assert KidRefs([]) == {};
    LeafInorder(a);
    LeafInorder(b);
    assert t.kids[1..] == [b] && t.keys[1..] == [];
    assert Weave([], [b]) == b.keys + [];
    assert Inorder(t) == [Entry(1, 0), Entry(2, 0), Entry(3, 0)];
    assert IterKids(a.keys, [], CountOne, 0) == 1;
    assert IterTree(a, CountOne, 0) == 1;
  }

  // ---------------------------------------------------------------- ascending keys

  method TakeKeyUnshifted(x: Node, i: nat, m: Entry, right: Node)
    requires |x.data| == MAX_DATA && |x.children| == MAX_CHILDREN && i <= x.size < MAX_DATA
    modifies x
    ensures x.size == old(x.size) + 1 && x.data == old(x.data[i := m])
    ensures x.children ==
            old(x.children[..i + 2] + x.children[i + 1..x.size + 1] + x.children[x.size + 2..])[i + 1 := right]
    ensures i == old(x.size) ==> KeyTaken(old(StateOf(x)), StateOf(x), i, m, right)
  {
    NothingShifted(x.data, i, m);
    x.children := ShiftUp(x.children, i + 1, x.size + 1);
    x.children := x.children[i + 1 := right];
    x.data := x.data[i := m];
    x.size := x.size + 1;
  }

  // split_child as it stands, at the last child.
  lemma NothingShifted(data: seq<Entry>, i: nat, m: Entry)
    requires i < |data|
    ensures data[i := m] == (data[..i + 1] + [] + data[i + 1..])[i := m]
  {
    assert data == data[..i + 1] + [] + data[i + 1..];
  }

  method SplitLastChild(x: Node, i: nat, ghost s: Tree) returns (right: Node)
    requires x == s.ref && Rep(s) && Distinct(s) && CanSplit(s, i) && i == |s.keys|
    modifies x, s.kids[i].ref
    ensures fresh(right) && Rep(Split(s, i, right)) && Refs(Split(s, i, right)) <= Refs(s) + {right}
  {
    hide Inorder, Distinct, Shape, Split, Opened, Refs, RepIn, KidRefs, KeyTaken, Halved;
    ghost var c := s.kids[i];
    ghost var before := Snap(Refs(s));
    KidApart(s, i);
    RepHolds(before, s, i);
    SlotsToSplit(before[x], before[c.ref], s, i);
    hide Holds;
    var left := x.children[i];
    var m;
    m, right := SplitNode(left);
    TakeKeyUnshifted(x, i, m, right);
    ghost var after := Snap(Refs(s) + {right});
    SplitDistinct(s, i, right);
    SplitInHeap(before, after, s, i, right);
    RepOfSnap(Split(s, i, right), Refs(s) + {right});
  }

  method SplitLastBelow(x: Node, i: nat, ghost t: Tree, ghost path: seq<nat>, ghost h: nat, ghost lo: nat)
    returns (ghost t': Tree)
    requires Rep(t) && Distinct(t) && Shape(t, h, lo) && OnPath(t, path)
    requires x == At(t, path).ref && CanSplit(At(t, path), i) && i == |At(t, path).keys|
    modifies Refs(t)
    ensures Kept(t, t', path, h, lo) && fresh(Refs(t') - Refs(t))
    ensures SplitDone(At(t, path), At(t', path), i)
  {
    hide Inorder, Distinct, Shape, Before, Beyond, Split, Replace, Snap, At, Rep, RepIn;
    ghost var s := At(t, path);
    ghost var before := Snap(Refs(t));
    RepToSnap(t, Refs(t));
    PathRefs(t, path);
    PathRep(before, t, path);
    PathDistinct(t, path);
    KidRefsAt(s.kids, i);
    RepOfSnap(s, Refs(t));
    var right := SplitLastChild(x, i, s);
    ghost var nodes, s' := Refs(t) + {right}, Split(s, i, right);
    SplitIsDone(s, i, right);
    RepToSnap(s', nodes);
    SplitKeeps(t, path, i, right, h, lo);
    EditInTree(before, Snap(nodes), t, path, s', {right}, h, lo);
    t' := Replace(t, path, s');
    RepOfSnap(t', nodes);
  }

  lemma {:induction false} KeysLess(t: Tree, path: seq<nat>, key: int)
    requires OnPath(t, path) && AllLess(Inorder(t), key) && WellShaped(At(t, path))
    ensures forall j :: 0 <= j < |At(t, path).keys| ==> At(t, path).keys[j].key < key
  {
    forall j | 0 <= j < |At(t, path).keys|
      ensures At(t, path).keys[j].key < key
    {
      ElementInside(t, path, j);
    }
  }

  lemma AllSmaller(data: seq<Entry>, keys: seq<Entry>, i: nat, key: int)
    requires |keys| <= |data| && data[..|keys|] == keys && i <= |keys|
    requires forall j :: 0 <= j < |keys| ==> keys[j].key < key
    requires forall j :: i <= j < |keys| ==> key < data[j].key
    ensures i == |keys|
  {
    if i < |keys| {
      SlotIsKey(data, keys, i);
    }
  }

  lemma SlotIsKey(data: seq<Entry>, keys: seq<Entry>, j: nat)
    requires j < |keys| <= |data| && data[..|keys|] == keys
    ensures data[j] == keys[j]
  {
    assert data[..|keys|][j] == data[j];
  }

  // One turn of insert_non_full's loop at an inner node, with both lines as they stand.
  method StepAscending(x: Node, e: Entry, ghost t: Tree, ghost path: seq<nat>, ghost h: nat)
    returns (i: nat, ghost t': Tree)
    requires Rep(t) && Distinct(t) && Shape(t, h, 1) && OnPath(t, path)
    requires x == At(t, path).ref && At(t, path).kids != [] && |At(t, path).keys| < MAX_DATA
    requires AllLess(Inorder(t), e.key)
    modifies Refs(t)
    ensures Kept(t, t', path, h, 1) && fresh(Refs(t') - Refs(t))
    ensures |At(t', path).kids| == |At(t', path).keys| + 1
    ensures Routes(At(t', path), i, e.key) && |At(t', path).kids[i].keys| < MAX_DATA
  {
    hide Inorder, Refs, Distinct, Before, Beyond, KidRefs, RepIn, Replace;
    ReplaceShape(t, path, At(t, path), h, 1);
    ReadNode(t, path);
    ghost var m := Snap(Refs(t));
    ghost var s := At(t, path);
    KeysLess(t, path, e.key);
    i := SlotFor(x.data, x.size, e.key);
    AllSmaller(x.data, s.keys, i, e.key);
    assert x.children[i].size == |s.kids[i].keys| by {
      Descend(t, path, i);
      ReadNode(t, path + [i]);
    }
    t' := t;
    if x.children[i].size == MAX_DATA {
      t' := SplitLastBelow(x, i, t, path, h, 1);
      ReadNode(t', path);
      assert x.data[..x.size][i - 1] == At(t', path).keys[i - 1];
      KeysLess(t', path, e.key);
      if x.data[i - 1].key < e.key {
        i := i + 1;
      }
    }
  }

  // insert_non_full as it stands, for a key above all others.
  method AppendNonFull(x0: Node, e: Entry, ghost t: Tree, ghost h: nat) returns (ghost t': Tree)
    requires Rep(t) && Distinct(t) && Shape(t, h, 1) && Sorted(Inorder(t)) && AllLess(Inorder(t), e.key)
    requires x0 == t.ref && |t.keys| < MAX_DATA
    modifies Refs(t)
    ensures Rep(t') && t'.ref == t.ref && Distinct(t') && Shape(t', h, 1) && Sorted(Inorder(t'))
    ensures Inorder(t') == Inorder(t) + [e]
    ensures forall r :: r in Refs(t') && r !in Refs(t) ==> fresh(r)
  {
    hide Inorder, Distinct, Before, Beyond;
    var x := x0;
    ghost var path: seq<nat> := [];
    t' := t;
    CursorRoot(t, e.key);
    while true
      invariant Rep(t') && Distinct(t') && Shape(t', h, 1) && Inorder(t') == Inorder(t) && t'.ref == t.ref
      invariant fresh(Refs(t') - Refs(t))
      invariant Cursor(t', path, e.key) && At(t', path).ref == x && |At(t', path).keys| < MAX_DATA
      invariant |path| <= h
      decreases h - |path|
    {
      ReadNode(t', path);
      ReplaceShape(t', path, At(t', path), h, 1);
      ghost var nodes := Refs(t');
      ghost var m := Snap(nodes);
      if x.children[0] == null {
        ghost var at;
        t', at := InsertInLeaf(x, e, t', path, h, 1);
        AppendedLast(Inorder(t), Inorder(t'), e, at);
        return;
      }
      var i;
      label Step:
      i, t' := StepAscending(x, e, t', path, h);
      forall r | r in Refs(t') && r !in Refs(t)
        ensures fresh(r)
      {
        if r in nodes {
          assert r in nodes - Refs(t);
        } else {
          assert fresh@Step(r);
        }
      }
      ReadNode(t', path);
      CursorStep(t', path, e.key, i);
      path := path + [i];
      x := x.children[i];
    }
  }

  lemma AppendedLast(s: seq<Entry>, s': seq<Entry>, e: Entry, at: nat)
    requires AllLess(s, e.key) && at <= |s| && s' == s[..at] + [e] + s[at..] && Sorted(s')
    ensures s' == s + [e]
  {
    if at < |s| {
      Follows(s, e, at);
    }
  }

  lemma Follows(s: seq<Entry>, e: Entry, at: nat)
    requires at < |s|
    ensures var s' := s[..at] + [e] + s[at..];
            at + 1 < |s'| && s'[at] == e && s'[at + 1] == s[at]
  {
  }

  // insert as it stands.  The split of a full root is that of a last child.
  method Append(b: BTree, e: Entry)
    requires b.Valid() && AllLess(b.Contents(), e.key)
    modifies b, b.Nodes()
    ensures b.Valid() && fresh(b.Nodes() - old(b.Nodes()))
    ensures b.Contents() == old(b.Contents()) + [e]
  {
    hide Inorder, Distinct, Snap, RepIn;
    if b.root == null {
      b.root := new Node();
      b.root.data := b.root.data[0 := e];
      b.root.size := 1;
      b.stored := Stored(Tree(b.root, [e], []), 0);
      NewLeaf(b.root, e);
    } else {
      ghost var t, h := AppendBelow(b, e, b.stored.tree, b.stored.height);
      b.stored := Stored(t, h);
    }
    b.size := b.size + 1;
  }

  method AppendBelow(b: BTree, e: Entry, ghost t: Tree, ghost h: nat) returns (ghost t': Tree, ghost h': nat)
    requires b.root == t.ref && Rep(t) && Distinct(t) && Shape(t, h, 1) && Sorted(Inorder(t))
    requires AllLess(Inorder(t), e.key)
    modifies b`root, Refs(t)
    ensures b.root == t'.ref && Rep(t') && Distinct(t') && Shape(t', h', 1) && Sorted(Inorder(t'))
    ensures forall r :: r in Refs(t') && r !in Refs(t) ==> fresh(r)
    ensures Inorder(t') == Inorder(t) + [e]
  {
    hide Inorder, Distinct, Snap, Refs, Rep;
    ReadNode(t, []);
    t', h' := t, h;
    if b.root.size == MAX_DATA {
      t' := b.GrowRoot(t, h);
      h' := h + 1;
    }
    ghost var nodes := Refs(t');
    label Grown:
    t' := AppendNonFull(b.root, e, t', h');
    forall r | r in Refs(t') && r !in Refs(t)
      ensures fresh(r)
    {
      if r in nodes {
        assert r in nodes - Refs(t);
      } else {
        assert fresh@Grown(r);
      }
    }
  }

  // Keys that arrive in ascending order are stored correctly by the code as it stands, however many.
  method BuildAscending(es: seq<Entry>) returns (b: BTree)
    requires forall i, j :: 0 <= i < j < |es| ==> es[i].key < es[j].key
    ensures b.Valid() && b.Contents() == es && fresh(b) && fresh(b.Nodes())
  {
    hide BTree.Valid, BTree.Contents, BTree.Nodes;
    b := new BTree();
    assert b.Nodes() == {};
    var n := 0;
    while n < |es|
      invariant n <= |es| && b.Valid() && b.Contents() == es[..n] && fresh(b) && fresh(b.Nodes())
    {
      ghost var nodes := b.Nodes();
      label Appending:
      Append(b, es[n]);
      forall r | r in b.Nodes()
        ensures fresh(r)
      {
        assert r in nodes || (r in b.Nodes() - nodes && fresh@Appending(r));
      }
      assert es[..n + 1] == es[..n] + [es[n]];
      n := n + 1;
    }
    assert es[..n] == es;
  }
}
