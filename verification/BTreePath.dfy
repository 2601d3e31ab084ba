/** Where a descent stands: a path of child indices from the root.

    The source walks with one mutable pointer and edits the tree behind it.  A path names the node the
    pointer is at, and `Replace` the whole tree after an edit below that node. */
module BTreePath {
  import opened BTreeModel

  ghost predicate OnPath(t: Tree, path: seq<nat>)
    decreases |path|
  {
    path == [] || (path[0] < |t.kids| == |t.keys| + 1 && OnPath(t.kids[path[0]], path[1..]))
  }

  ghost function At(t: Tree, path: seq<nat>): Tree
    requires OnPath(t, path)
    decreases |path|
  {
    if path == [] then t else At(t.kids[path[0]], path[1..])
  }

  ghost function Replace(t: Tree, path: seq<nat>, s: Tree): Tree
    requires OnPath(t, path)
    decreases |path|
  {
    if path == [] then s
    else Tree(t.ref, t.keys, t.kids[path[0] := Replace(t.kids[path[0]], path[1..], s)])
  }

  // The elements before and after the subtree at the end of the path.
  ghost function Before(t: Tree, path: seq<nat>): seq<Entry>
    requires OnPath(t, path)
    decreases |path|
  {
    if path == [] then []
    else Weave(t.keys[..path[0]], t.kids[..path[0]]) + Before(t.kids[path[0]], path[1..])
  }

  ghost function Beyond(t: Tree, path: seq<nat>): seq<Entry>
    requires OnPath(t, path)
    decreases |path|
  {
    if path == [] then []
    else Beyond(t.kids[path[0]], path[1..]) + After(t.keys[path[0]..], t.kids[path[0] + 1..])
  }

  lemma {:induction false} InorderAt(t: Tree, path: seq<nat>)
    requires OnPath(t, path)
    ensures Inorder(t) == Before(t, path) + Inorder(At(t, path)) + Beyond(t, path)
    decreases |path|
  {
    hide Inorder, Weave, After;
    if path != [] {
      var i := path[0];
      var c, rest := t.kids[i], path[1..];
      AroundKid(t, i);
      InorderAt(c, rest);
      Nest(Weave(t.keys[..i], t.kids[..i]), Before(c, rest), Inorder(At(c, rest)), Beyond(c, rest),
        After(t.keys[i..], t.kids[i + 1..]));
    }
  }

  lemma Nest(w: seq<Entry>, b: seq<Entry>, x: seq<Entry>, y: seq<Entry>, a: seq<Entry>)
    ensures w + (b + x + y) + a == (w + b) + x + (y + a)
  {
  }

  lemma {:induction false} ReplaceAt(t: Tree, path: seq<nat>, s: Tree)
    requires OnPath(t, path)
    ensures OnPath(Replace(t, path, s), path)
    ensures At(Replace(t, path, s), path) == s
    ensures Before(Replace(t, path, s), path) == Before(t, path)
    ensures Beyond(Replace(t, path, s), path) == Beyond(t, path)
    decreases |path|
  {
    if path != [] {
      var i := path[0];
      ReplaceAt(t.kids[i], path[1..], s);
      var r := Replace(t, path, s);
      assert r.kids[..i] == t.kids[..i] && r.kids[i + 1..] == t.kids[i + 1..];
    }
  }

  lemma {:induction false} ReplaceShape(t: Tree, path: seq<nat>, s: Tree, h: nat, lo: nat)
    requires OnPath(t, path) && Shape(t, h, lo)
    ensures |path| <= h && Shape(At(t, path), h - |path|, if path == [] then lo else M - 1)
    ensures Shape(s, h - |path|, if path == [] then lo else M - 1) ==> Shape(Replace(t, path, s), h, lo)
    decreases |path|
  {
    if path != [] {
      ReplaceShape(t.kids[path[0]], path[1..], s, h - 1, M - 1);
    }
  }

  lemma {:induction false} ReplaceDistinct(t: Tree, path: seq<nat>, s: Tree, fresh': set<Node>)
    requires OnPath(t, path) && Distinct(t)
    requires Distinct(s) && Refs(s) <= Refs(At(t, path)) + fresh' && s.ref == At(t, path).ref
    requires fresh' !! Refs(t)
    ensures Refs(At(t, path)) <= Refs(t)
    ensures Distinct(Replace(t, path, s)) && Refs(Replace(t, path, s)) <= Refs(t) + fresh'
    ensures Replace(t, path, s).ref == t.ref
    decreases |path|
  {
    if path != [] {
      var c := t.kids[path[0]];
      KidRefsAt(t.kids, path[0]);
      ReplaceDistinct(c, path[1..], s, fresh');
      DistinctKidUpdate(t, path[0], Replace(c, path[1..], s), fresh');
    }
  }

  // A sequence, taken apart at one index.
  lemma AroundIndex<T>(s: seq<T>, i: nat, x: T)
    requires i < |s|
    ensures s == s[..i] + [s[i]] + s[i + 1..] && s[i := x] == s[..i] + [x] + s[i + 1..]
  {
    hide *;
    var r := s[..i] + [x] + s[i + 1..];
    forall k | 0 <= k < |s|
      ensures s[i := x][k] == r[k]
    {
    }
  }

  lemma {:induction false} DistinctKidUpdate(t: Tree, i: nat, c: Tree, fresh': set<Node>)
    requires Distinct(t) && i < |t.kids|
    requires Distinct(c) && Refs(c) <= Refs(t.kids[i]) + fresh' && fresh' !! Refs(t)
    ensures Distinct(Tree(t.ref, t.keys, t.kids[i := c]))
    ensures Refs(Tree(t.ref, t.keys, t.kids[i := c])) <= Refs(t) + fresh'
  {
    var old', new' := [t.kids[i]], [c];
    var a, b := t.kids[..i], t.kids[i + 1..];
    AroundIndex(t.kids, i, c);
    assert DistinctKids(new') && KidRefs(new') <= KidRefs(old') + fresh' by {
      KidRefsOne(t.kids[i]);
      KidRefsOne(c);
    }
    DistinctSplice(a, old', b, new', fresh');
  }

  // One step further down.
  lemma {:induction false} Descend(t: Tree, path: seq<nat>, i: nat)
    requires OnPath(t, path) && i < |At(t, path).kids| == |At(t, path).keys| + 1
    ensures OnPath(t, path + [i])
    ensures At(t, path + [i]) == At(t, path).kids[i]
    decreases |path|
  {
    hide Inorder, Refs;
    if path == [] {
      assert path + [i] == [i] && [i][1..] == [];
    } else {
      var p := path + [i];
      assert p[0] == path[0] && p[1..] == path[1..] + [i];
      Descend(t.kids[path[0]], path[1..], i);
    }
  }

  lemma {:induction false} DescendSides(t: Tree, path: seq<nat>, i: nat)
    requires OnPath(t, path) && i < |At(t, path).kids| == |At(t, path).keys| + 1
    requires OnPath(t, path + [i])
    ensures Before(t, path + [i]) == Before(t, path) + Weave(At(t, path).keys[..i], At(t, path).kids[..i])
    ensures Beyond(t, path + [i]) == After(At(t, path).keys[i..], At(t, path).kids[i + 1..]) + Beyond(t, path)
    decreases |path|
  {
    var p := path + [i];
    if path == [] {
      assert p == [i] && p[1..] == [];
      assert Before(t.kids[i], []) == [] && Beyond(t.kids[i], []) == [];
    } else {
      var j := path[0];
      assert p[0] == j && p[1..] == path[1..] + [i];
      DescendSides(t.kids[j], path[1..], i);
      Assoc(Weave(t.keys[..j], t.kids[..j]), Before(t.kids[j], path[1..]),
        Weave(At(t, path).keys[..i], At(t, path).kids[..i]));
      Assoc(After(At(t, path).keys[i..], At(t, path).kids[i + 1..]), Beyond(t.kids[j], path[1..]),
        After(t.keys[j..], t.kids[j + 1..]));
    }
  }

  lemma Assoc(a: seq<Entry>, b: seq<Entry>, c: seq<Entry>)
    ensures a + b + c == a + (b + c)
  {
  }

  lemma {:induction false} PathRefs(t: Tree, path: seq<nat>)
    requires OnPath(t, path)
    ensures Refs(At(t, path)) <= Refs(t)
    decreases |path|
  {
    if path != [] {
      KidRefsAt(t.kids, path[0]);
      PathRefs(t.kids[path[0]], path[1..]);
    }
  }

  lemma {:induction false} PathDistinct(t: Tree, path: seq<nat>)
    requires OnPath(t, path) && Distinct(t)
    ensures Distinct(At(t, path))
    decreases |path|
  {
    if path != [] {
      KidRefsAt(t.kids, path[0]);
      PathDistinct(t.kids[path[0]], path[1..]);
    }
  }

  lemma {:induction false} PathRep(m: map<Node, State>, t: Tree, path: seq<nat>)
    requires OnPath(t, path) && RepIn(m, t)
    ensures RepIn(m, At(t, path))
    decreases |path|
  {
    if path != [] {
      PathRep(m, t.kids[path[0]], path[1..]);
    }
  }

  // A path taken in two parts.
  lemma {:induction false} PathConcat(t: Tree, p1: seq<nat>, p2: seq<nat>)
    requires OnPath(t, p1 + p2)
    ensures OnPath(t, p1) && OnPath(At(t, p1), p2) && At(t, p1 + p2) == At(At(t, p1), p2)
    decreases |p1|
  {
    if p1 == [] {
      assert p1 + p2 == p2;
    } else {
      assert (p1 + p2)[1..] == p1[1..] + p2;
      PathConcat(t.kids[p1[0]], p1[1..], p2);
    }
  }

  lemma {:induction false} ReplaceConcat(t: Tree, p1: seq<nat>, p2: seq<nat>, s: Tree)
    requires OnPath(t, p1 + p2) && OnPath(t, p1) && OnPath(At(t, p1), p2)
    ensures Replace(t, p1 + p2, s) == Replace(t, p1, Replace(At(t, p1), p2, s))
    decreases |p1|
  {
    if p1 == [] {
      assert p1 + p2 == p2;
    } else {
      assert (p1 + p2)[1..] == p1[1..] + p2;
      ReplaceConcat(t.kids[p1[0]], p1[1..], p2, s);
    }
  }

  // What a pointer into the tree reads.
  lemma ReadNode(t: Tree, path: seq<nat>)
    requires OnPath(t, path) && Rep(t)
    ensures At(t, path).ref in Refs(t)
    ensures Holds(State(At(t, path).ref.data, At(t, path).ref.children, At(t, path).ref.size), At(t, path))
  {
    PathRefs(t, path);
    PathRep(Snap(Refs(t)), t, path);
  }

  // Edits that stay below the end of a path leave the rest of the heap image alone.
  lemma {:induction false} ReplaceRep(m: map<Node, State>, m': map<Node, State>, t: Tree, path: seq<nat>, s: Tree)
    requires OnPath(t, path) && Distinct(t) && RepIn(m, t)
    requires RepIn(m', s) && s.ref == At(t, path).ref
    requires SameOutside(m, m', Refs(At(t, path)))
    ensures RepIn(m', Replace(t, path, s)) && Replace(t, path, s).ref == t.ref
    decreases |path|
  {
    if path != [] {
      var i := path[0];
      var c := t.kids[i];
      PathRefs(c, path[1..]);
      KidRefsAt(t.kids, i);
      ReplaceRep(m, m', c, path[1..], s);
      forall j | 0 <= j < |t.kids| && j != i
        ensures RepIn(m', t.kids[j])
      {
        KidsDisjoint(t.kids, j, i);
        RepFrame(m, m', t.kids[j], Refs(At(t, path)));
      }
    }
  }

  // ---------------------------------------------------------------- searching from the root

  // The pointer of a descent for `key`: everything left of it is at most key, everything right at least.
  ghost predicate Cursor(t: Tree, path: seq<nat>, key: int) {
    OnPath(t, path) && AllLeq(Before(t, path), key) && AllGeq(Beyond(t, path), key)
  }

  lemma {:induction false} SortedAt(t: Tree, path: seq<nat>)
    requires OnPath(t, path) && Sorted(Inorder(t))
    ensures Sorted(Inorder(At(t, path)))
  {
    hide Inorder, Before, Beyond, At;
    InorderAt(t, path);
    SortedMiddle(Before(t, path), Inorder(At(t, path)), Beyond(t, path));
  }

  lemma SortedMiddle(b: seq<Entry>, c: seq<Entry>, y: seq<Entry>)
    requires Sorted(b + c + y)
    ensures Sorted(c)
  {
    assert forall i :: 0 <= i < |c| ==> c[i] == (b + c + y)[|b| + i];
  }

  lemma CursorRoot(t: Tree, key: int)
    ensures Cursor(t, [], key) && At(t, []) == t
  {
  }

  lemma {:induction false} CursorStep(t: Tree, path: seq<nat>, key: int, i: nat)
    requires Cursor(t, path, key) && Sorted(Inorder(t))
    requires i < |At(t, path).kids| == |At(t, path).keys| + 1
    requires i > 0 ==> At(t, path).keys[i - 1].key <= key
    requires i < |At(t, path).keys| ==> key <= At(t, path).keys[i].key
    ensures Cursor(t, path + [i], key) && At(t, path + [i]) == At(t, path).kids[i]
  {
    SortedAt(t, path);
    SideBounds(At(t, path), i);
    Descend(t, path, i);
    DescendSides(t, path, i);
  }

  // The subtree at the end of a path is replaced by another one with the same elements.
  lemma {:induction false} ReplaceInorder(t: Tree, path: seq<nat>, s: Tree)
    requires OnPath(t, path)
    ensures OnPath(Replace(t, path, s), path) && At(Replace(t, path, s), path) == s
    ensures Inorder(Replace(t, path, s)) == Before(t, path) + Inorder(s) + Beyond(t, path)
    ensures Inorder(s) == Inorder(At(t, path)) ==> Inorder(Replace(t, path, s)) == Inorder(t)
  {
    ReplaceAt(t, path, s);
    InorderAt(t, path);
    InorderAt(Replace(t, path, s), path);
  }

  // t' is t after an edit at or below the end of the path: still a good tree, with the same elements.
  ghost predicate SameTree(t: Tree, t': Tree, path: seq<nat>, h: nat, lo: nat) {
    && Distinct(t') && Shape(t', h, lo) && Inorder(t') == Inorder(t) && t'.ref == t.ref
    && OnPath(t, path) && OnPath(t', path) && At(t', path).ref == At(t, path).ref
    && Before(t', path) == Before(t, path) && Beyond(t', path) == Beyond(t, path)
  }

  ghost predicate Kept(t: Tree, t': Tree, path: seq<nat>, h: nat, lo: nat)
    reads Refs(t')
  {
    Rep(t') && SameTree(t, t', path, h, lo)
  }

  // An edit of the subtree at the end of a path, seen in the whole tree.
  lemma {:induction false} EditInTree(m: map<Node, State>, m': map<Node, State>, t: Tree, path: seq<nat>,
      s': Tree, more: set<Node>, h: nat, lo: nat)
    requires RepIn(m, t) && Distinct(t) && Shape(t, h, lo) && OnPath(t, path) && more !! Refs(t)
    requires RepIn(m', s') && SameOutside(m, m', Refs(At(t, path)))
    requires s'.ref == At(t, path).ref && Distinct(s') && Refs(s') <= Refs(At(t, path)) + more
    requires Inorder(s') == Inorder(At(t, path))
    requires |path| <= h && Shape(s', h - |path|, if path == [] then lo else M - 1)
    ensures var t' := Replace(t, path, s');
            RepIn(m', t') && SameTree(t, t', path, h, lo) && Refs(t') <= Refs(t) + more && At(t', path) == s'
  {
    ReplaceShape(t, path, s', h, lo);
    ReplaceInorder(t, path, s');
    ReplaceAt(t, path, s');
    ReplaceRep(m, m', t, path, s');
    ReplaceDistinct(t, path, s', more);
  }
}
