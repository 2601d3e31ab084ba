/** Whole runs of the tree object, against a multiset of keys that knows nothing about trees. */
module BTreeRuns {
  import opened BTreeModel
  import opened BTreeObject

  datatype Op = Add(entry: Entry) | Drop(key: int)

  // The reference: what a bag of keys holds after the operations.
  ghost function Replay(ops: seq<Op>): multiset<int>
  {
    if ops == [] then multiset{}
    else
      Step(Replay(ops[..|ops| - 1]), ops[|ops| - 1])
  }

  ghost function KeyBag(s: seq<Entry>): multiset<int>
  {
    if s == [] then multiset{} else multiset{s[0].key} + KeyBag(s[1..])
  }

  lemma {:induction false} KeyBagConcat(a: seq<Entry>, b: seq<Entry>)
    ensures KeyBag(a + b) == KeyBag(a) + KeyBag(b)
    decreases |a|
  {
    if a == [] {
      assert a + b == b;
    } else {
      assert (a + b)[1..] == a[1..] + b;
      KeyBagConcat(a[1..], b);
    }
  }

  lemma {:induction false} KeyBagHas(s: seq<Entry>, key: int)
    ensures key in KeyBag(s) <==> Has(s, key)
    decreases |s|
  {
    if s != [] {
      KeyBagHas(s[1..], key);
      if Has(s[1..], key) {
        var i :| 0 <= i < |s[1..]| && s[1..][i].key == key;
        assert s[i + 1].key == key;
      }
      if Has(s, key) && s[0].key != key {
        var i :| 0 <= i < |s| && s[i].key == key;
        assert s[1..][i - 1].key == key;
      }
    }
  }

  // Putting one element in, or taking one out, anywhere.
  lemma KeyBagAt(s: seq<Entry>, at: nat, e: Entry)
    requires at <= |s|
    ensures KeyBag(s[..at] + [e] + s[at..]) == KeyBag(s) + multiset{e.key}
  {
    hide KeyBag;
    KeyBagConcat(s[..at] + [e], s[at..]);
    KeyBagConcat(s[..at], [e]);
    KeyBagConcat(s[..at], s[at..]);
    assert s == s[..at] + s[at..];
    KeyBagOne(e);
  }

  lemma KeyBagOne(e: Entry)
    ensures KeyBag([e]) == multiset{e.key}
  {
    assert [e][1..] == [];
  }

  lemma KeyBagWithout(s: seq<Entry>, at: nat)
    requires at < |s|
    ensures KeyBag(s[..at] + s[at + 1..]) == KeyBag(s) - multiset{s[at].key}
  {
    hide KeyBag;
    KeyBagAt(s[..at] + s[at + 1..], at, s[at]);
    assert (s[..at] + s[at + 1..])[..at] == s[..at] && (s[..at] + s[at + 1..])[at..] == s[at + 1..];
    assert s == s[..at] + [s[at]] + s[at + 1..];
  }

  lemma KeyBagDrop(s: seq<Entry>, key: int, removed: bool, at: nat, s': seq<Entry>)
    requires removed <==> Has(s, key)
    requires !removed ==> s' == s
    requires removed ==> at < |s| && s[at].key == key && s' == s[..at] + s[at + 1..]
    ensures KeyBag(s') == KeyBag(s) - multiset{key}
  {
    KeyBagHas(s, key);
    if removed {
      KeyBagWithout(s, at);
    }
  }

  ghost function Step(bag: multiset<int>, op: Op): multiset<int> {
    match op
    case Add(e) => bag + multiset{e.key}
    case Drop(k) => bag - multiset{k}
  }

  method Apply(b: BTree, op: Op)
    requires b.Valid()
    modifies b, b.Nodes()
    ensures b.Valid() && fresh(b.Nodes() - old(b.Nodes()))
    ensures KeyBag(b.Contents()) == Step(old(KeyBag(b.Contents())), op)
  {
    hide KeyBag, Has, BTree.Valid, BTree.Contents, BTree.Nodes;
    ghost var before := b.Contents();
    match op {
      case Add(e) =>
        ghost var at := b.Insert(e);
        KeyBagAt(before, at, e);
      case Drop(k) =>
        ghost var at;
        var removed;
        removed, at := b.Remove(k);
        KeyBagDrop(before, k, removed, at, b.Contents());
    }
  }

  // After any run of inserts and removes the tree is a valid B-tree that holds, in order, exactly the
  // keys the run left over.
  method Run(ops: seq<Op>) returns (b: BTree)
    ensures b.Valid() && fresh(b) && fresh(b.Nodes())
    ensures KeyBag(b.Contents()) == Replay(ops)
  {
    hide KeyBag, BTree.Valid, BTree.Contents, BTree.Nodes;
    b := new BTree();
    assert b.Nodes() == {};
    EmptyBag();
    var n := 0;
    while n < |ops|
      invariant n <= |ops| && b.Valid() && fresh(b) && fresh(b.Nodes())
      invariant KeyBag(b.Contents()) == Replay(ops[..n])
    {
      ghost var nodes := b.Nodes();
      assert ops[..n + 1][..n] == ops[..n];
      label Applying:
      Apply(b, ops[n]);
      forall r | r in b.Nodes()
        ensures fresh(r)
      {
        assert r in nodes || (r in b.Nodes() - nodes && fresh@Applying(r));
      }
      n := n + 1;
    }
    assert ops[..n] == ops;
  }

  // Lookups after any run answer for the reference bag.
  method FindAfter(ops: seq<Op>, key: int) returns (found: bool)
    ensures found <==> key in Replay(ops)
  {
    var b := Run(ops);
    var r := b.Find(key);
    KeyBagHas(b.Contents(), key);
    found := r.Some?;
  }

  // ---------------------------------------------------------------- the tree's own self-test

  // Each of lo..hi-1 once, and nothing else.
  ghost predicate JustRange(bag: multiset<int>, lo: int, hi: int) {
    forall k: int :: bag[k] == if lo <= k < hi then 1 else 0
  }

  lemma EmptyBag()
    ensures KeyBag([]) == multiset{}
  {
  }

  // btree::test, for any count: insert 0..n-1, find all, remove all, find none.
  method SelfTest(n: nat) returns (ok: bool)
    ensures ok
  {
    hide KeyBag, Has, BTree.Valid, BTree.Contents, BTree.Nodes;
    var tree := new BTree();
    assert tree.Nodes() == {};
    EmptyBag();
    var i := 0;
    while i < n
      invariant i <= n && tree.Valid() && fresh(tree) && fresh(tree.Nodes())
      invariant JustRange(KeyBag(tree.Contents()), 0, i)
    {
      ghost var before, nodes := tree.Contents(), tree.Nodes();
      ghost var at;
      label Adding:
      at := tree.Insert(Entry(i, 0));
      KeyBagAt(before, at, Entry(i, 0));
      forall r | r in tree.Nodes()
        ensures fresh(r)
      {
        assert r in nodes || (r in tree.Nodes() - nodes && fresh@Adding(r));
      }
      i := i + 1;
    }
    ok := LooksUp(tree, n, 0, n);
    if !ok {
      return;
    }
    i := 0;
    while i < n
      invariant i <= n && tree.Valid() && fresh(tree) && fresh(tree.Nodes())
      invariant JustRange(KeyBag(tree.Contents()), i, n)
    {
      ghost var before := tree.Contents();
      ghost var at;
      var removed;
      removed, at := tree.Remove(i);
      KeyBagHas(before, i);
      KeyBagDrop(before, i, removed, at, tree.Contents());
      if !removed {
        return false;
      }
      i := i + 1;
    }
    ok := LooksUp(tree, n, n, n);
  }

  // The two lookup loops: every key below n is found, with itself, exactly if it is in lo..hi-1.
  method LooksUp(tree: BTree, n: nat, lo: nat, hi: nat) returns (ok: bool)
    requires tree.Valid() && JustRange(KeyBag(tree.Contents()), lo, hi)
    ensures ok && tree.Valid()
  {
    hide KeyBag, Has;
    for i := 0 to n
      invariant tree.Valid() && JustRange(KeyBag(tree.Contents()), lo, hi)
    {
      var r := tree.Find(i);
      KeyBagHas(tree.Contents(), i);
      if r.Some? != (lo <= i < hi) || (r.Some? && r.value.key != i) {
        return false;
      }
    }
    return true;
  }
}
