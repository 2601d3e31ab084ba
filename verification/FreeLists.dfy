/** The chunked free lists of the slab allocator: List of src/high/memory/heap.cpp:287-351.

    A node is a page of its own: a next pointer and 511 elements, each a page or null.  Memory is a map
    from the page number to the node in that page; page 0 is null. */
module FreeLists {
  const ELEMENTS: nat := 511

  datatype Node = Node(next: nat, elements: seq<nat>)

  type Nodes = map<nat, Node>

  // ---------------------------------------------------------------- elements

  function Count(els: seq<nat>, d: nat): nat {
    if els == [] then 0 else Count(els[..|els| - 1], d) + if els[|els| - 1] == d then 1 else 0
  }

  lemma {:induction false} CountSet(els: seq<nat>, k: nat, v: nat, d: nat)
    requires k < |els|
    ensures Count(els[k := v], d) + (if els[k] == d then 1 else 0) == Count(els, d) + if v == d then 1 else 0
  {
    var n := |els| - 1;
    if k == n {
      assert els[k := v][..n] == els[..n];
    } else {
      CountSet(els[..n], k, v, d);
      assert els[k := v][..n] == els[..n][k := v];
    }
  }

  lemma {:induction false} CountIn(els: seq<nat>, d: nat)
    ensures Count(els, d) > 0 <==> d in els
  {
    if els != [] {
      CountIn(els[..|els| - 1], d);
      assert els == els[..|els| - 1] + [els[|els| - 1]];
    }
  }

  function Blank(): (els: seq<nat>)
    ensures |els| == ELEMENTS && forall i :: 0 <= i < ELEMENTS ==> els[i] == 0
  {
    seq(ELEMENTS, _ => 0)
  }

  ghost predicate Empty(els: seq<nat>) {
    forall i :: 0 <= i < |els| ==> els[i] == 0
  }

  // The first element that is not null.
  ghost function Front(els: seq<nat>): nat {
    if els == [] then 0 else if els[0] != 0 then els[0] else Front(els[1..])
  }

  lemma {:induction false} FrontAt(els: seq<nat>, k: nat)
    requires k < |els| && els[k] != 0 && forall j :: 0 <= j < k ==> els[j] == 0
    ensures Front(els) == els[k]
  {
    if k > 0 {
      FrontAt(els[1..], k - 1);
    }
  }

  // The elements without d.
  function Without(els: seq<nat>, d: nat): (r: seq<nat>)
    ensures |r| == |els| && forall i :: 0 <= i < |els| ==> r[i] == if els[i] == d then 0 else els[i]
  {
    seq(|els|, i requires 0 <= i < |els| => if els[i] == d then 0 else els[i])
  }

  lemma {:induction false} CountWithout(els: seq<nat>, d: nat, x: nat)
    requires x != 0
    ensures Count(Without(els, d), x) == if x == d then 0 else Count(els, x)
  {
    if els != [] {
      var n := |els| - 1;
      CountWithout(els[..n], d, x);
      assert Without(els, d)[..n] == Without(els[..n], d);
    }
  }

  // ---------------------------------------------------------------- chains of nodes

  // The i-th page of a chain, or null behind its end.
  function Link(c: seq<nat>, i: nat): nat {
    if i < |c| then c[i] else 0
  }

  ghost predicate LeadsOn(nodes: Nodes, c: seq<nat>, i: nat) {
    i < |c| && c[i] in nodes && nodes[c[i]].next == Link(c, i + 1)
  }

  // From `head`, the next pointers lead along c and then to null.
  ghost predicate Chain(nodes: Nodes, head: nat, c: seq<nat>) {
    && head == Link(c, 0)
    && (forall i :: 0 <= i < |c| ==> c[i] != 0 && c[i] in nodes && |nodes[c[i]].elements| == 511)
    && (forall i :: 0 <= i < |c| ==> LeadsOn(nodes, c, i))
    && (forall i, j :: 0 <= i < j < |c| ==> c[i] != c[j])
  }

  // How often a page is listed.
  function Total(nodes: Nodes, c: seq<nat>, d: nat): nat {
    if c == [] then 0
    else
      Total(nodes, c[..|c| - 1], d)
      + if c[|c| - 1] in nodes then Count(nodes[c[|c| - 1]].elements, d) else 0
  }

  lemma {:induction false} TotalSum(nodes: Nodes, a: seq<nat>, b: seq<nat>, d: nat)
    ensures Total(nodes, a + b, d) == Total(nodes, a, d) + Total(nodes, b, d)
  {
    if b == [] {
      assert a + b == a;
    } else {
      TotalSum(nodes, a, b[..|b| - 1], d);
      assert (a + b)[..|a + b| - 1] == a + b[..|b| - 1];
    }
  }

  // Nodes outside of a chain do not matter to it.
  lemma {:induction false} TotalFrame(nodes: Nodes, nodes': Nodes, c: seq<nat>, d: nat)
    requires forall k :: 0 <= k < |c| ==> (c[k] in nodes' <==> c[k] in nodes)
    requires forall k :: 0 <= k < |c| && c[k] in nodes ==> nodes'[c[k]].elements == nodes[c[k]].elements
    ensures Total(nodes', c, d) == Total(nodes, c, d)
  {
    if c != [] {
      TotalFrame(nodes, nodes', c[..|c| - 1], d);
    }
  }

  lemma ChainFrame(nodes: Nodes, nodes': Nodes, head: nat, c: seq<nat>)
    requires Chain(nodes, head, c)
    requires forall p :: p in c ==> p in nodes' && nodes'[p] == nodes[p]
    ensures Chain(nodes', head, c)
  {
    forall j | 0 <= j < |c|
      ensures LeadsOn(nodes', c, j)
    {
      assert LeadsOn(nodes, c, j) && c[j] in c;
    }
  }

  // Other elements in the i-th node.
  lemma {:induction false} TotalChange(nodes: Nodes, head: nat, c: seq<nat>, i: nat, els: seq<nat>, d: nat)
    requires Chain(nodes, head, c) && i < |c|
    ensures Total(nodes[c[i] := nodes[c[i]].(elements := els)], c, d) + Count(nodes[c[i]].elements, d)
         == Total(nodes, c, d) + Count(els, d)
  {
    var nodes' := nodes[c[i] := nodes[c[i]].(elements := els)];
    var a, b := c[..i], c[i + 1..];
    assert c == a + [c[i]] + b;
    TotalSum(nodes, a + [c[i]], b, d);
    TotalSum(nodes, a, [c[i]], d);
    TotalSum(nodes', a + [c[i]], b, d);
    TotalSum(nodes', a, [c[i]], d);
    TotalFrame(nodes, nodes', a, d);
    TotalFrame(nodes, nodes', b, d);
    assert [c[i]][..0] == [];
  }

  lemma ChainChange(nodes: Nodes, head: nat, c: seq<nat>, i: nat, els: seq<nat>)
    requires Chain(nodes, head, c) && i < |c| && |els| == ELEMENTS
    ensures Chain(nodes[c[i] := nodes[c[i]].(elements := els)], head, c)
  {
    var nodes' := nodes[c[i] := nodes[c[i]].(elements := els)];
    forall j | 0 <= j < |c|
      ensures LeadsOn(nodes', c, j)
    {
      assert LeadsOn(nodes, c, j);
    }
  }

  // A node behind the last.
  lemma {:induction false} ChainAppend(nodes: Nodes, head: nat, c: seq<nat>, p: nat, els: seq<nat>)
    requires Chain(nodes, head, c) && p != 0 && p !in nodes && |els| == ELEMENTS
    ensures var added := nodes[p := Node(0, els)];
            && (c == [] ==> Chain(added, p, [p]))
            && (c != [] ==>
                  Chain(added[c[|c| - 1] := added[c[|c| - 1]].(next := p)], head, c + [p]))
  {
    if c != [] {
      var added := nodes[p := Node(0, els)];
      var linked := added[c[|c| - 1] := added[c[|c| - 1]].(next := p)];
      forall j | 0 <= j < |c + [p]|
        ensures LeadsOn(linked, c + [p], j)
      {
        assert j < |c| ==> LeadsOn(nodes, c, j) && c[j] != p;
        assert j < |c| - 1 ==> c[j] != c[|c| - 1];
      }
    }
  }

  lemma {:induction false} TotalAppend(nodes: Nodes, head: nat, c: seq<nat>, p: nat, els: seq<nat>, d: nat)
    requires Chain(nodes, head, c) && p != 0 && p !in nodes
    ensures var added := nodes[p := Node(0, els)];
            && (c == [] ==> Total(added, [p], d) == Count(els, d))
            && (c != [] ==>
                  Total(added[c[|c| - 1] := added[c[|c| - 1]].(next := p)], c + [p], d) ==
                  Total(nodes, c, d) + Count(els, d))
  {
    var added := nodes[p := Node(0, els)];
    assert [p][..0] == [];
    TotalSum(added, [], [p], d);
    if c != [] {
      var linked := added[c[|c| - 1] := added[c[|c| - 1]].(next := p)];
      TotalSum(linked, c, [p], d);
      TotalFrame(nodes, linked, c, d);
    }
  }

  // The chain without its i-th node.
  function Unlinked(nodes: Nodes, c: seq<nat>, i: nat): Nodes
    requires i < |c| && c[i] in nodes && (i > 0 ==> c[i - 1] in nodes)
  {
    (if i > 0 then nodes[c[i - 1] := nodes[c[i - 1]].(next := nodes[c[i]].next)] else nodes) - {c[i]}
  }

  lemma UnlinkedAt(nodes: Nodes, head: nat, c: seq<nat>, i: nat, k: nat)
    requires Chain(nodes, head, c) && i < |c| && k < |c| && k != i
    ensures c[k] in Unlinked(nodes, c, i)
    ensures Unlinked(nodes, c, i)[c[k]] == if k + 1 == i then nodes[c[k]].(next := nodes[c[i]].next) else nodes[c[k]]
  {
    assert c[k] != c[i];
    assert i > 0 && k + 1 != i ==> c[k] != c[i - 1];
  }

  // c without its i-th page.
  function Skip(c: seq<nat>, i: nat): (r: seq<nat>)
    requires i < |c|
    ensures |r| == |c| - 1 && forall j :: 0 <= j < |r| ==> r[j] == if j < i then c[j] else c[j + 1]
  {
    c[..i] + c[i + 1..]
  }

  lemma {:induction false} ChainRemove(nodes: Nodes, head: nat, c: seq<nat>, i: nat)
    requires Chain(nodes, head, c) && i < |c|
    ensures Chain(Unlinked(nodes, c, i), if i == 0 then nodes[c[i]].next else head, Skip(c, i))
  {
    hide Unlinked;
    assert LeadsOn(nodes, c, i);
    var nodes', c' := Unlinked(nodes, c, i), Skip(c, i);
    forall j | 0 <= j < |c'|
      ensures c'[j] in nodes' && c'[j] != 0 && |nodes'[c'[j]].elements| == ELEMENTS
      ensures LeadsOn(nodes', c', j)
    {
      var k := if j < i then j else j + 1;
      UnlinkedAt(nodes, head, c, i, k);
      assert LeadsOn(nodes, c, k) && LeadsOn(nodes, c, i) && c'[j] == c[k];
      assert |nodes[c[k]].elements| == ELEMENTS && c[k] != 0;
    }
  }

  lemma {:induction false} TotalRemove(nodes: Nodes, head: nat, c: seq<nat>, i: nat, d: nat)
    requires Chain(nodes, head, c) && i < |c| && Empty(nodes[c[i]].elements) && d != 0
    ensures Total(Unlinked(nodes, c, i), Skip(c, i), d) == Total(nodes, c, d)
  {
    hide Unlinked;
    var nodes' := Unlinked(nodes, c, i);
    var a, b := c[..i], c[i + 1..];
    assert c == a + [c[i]] + b && Skip(c, i) == a + b;
    TotalOfEmpty(nodes, c[i], d);
    forall k | 0 <= k < |a|
      ensures a[k] in nodes' && a[k] in nodes && nodes'[a[k]].elements == nodes[a[k]].elements
    {
      UnlinkedAt(nodes, head, c, i, k);
    }
    forall k | 0 <= k < |b|
      ensures b[k] in nodes' && b[k] in nodes && nodes'[b[k]].elements == nodes[b[k]].elements
    {
      UnlinkedAt(nodes, head, c, i, i + 1 + k);
    }
    hide Chain, Skip, Total;
    TotalSum(nodes, a + [c[i]], b, d);
    TotalSum(nodes, a, [c[i]], d);
    TotalSum(nodes', a, b, d);
    TotalFrame(nodes, nodes', a, d);
    TotalFrame(nodes, nodes', b, d);
  }

  lemma TotalOfEmpty(nodes: Nodes, p: nat, d: nat)
    requires p in nodes && Empty(nodes[p].elements) && d != 0
    ensures Total(nodes, [p], d) == 0
  {
    CountIn(nodes[p].elements, d);
    assert [p][..0] == [];
  }

  // No node is kept without elements.
  ghost predicate NoneEmpty(nodes: Nodes, c: seq<nat>) {
    forall p :: p in c && p in nodes ==> !Empty(nodes[p].elements)
  }

  // What is in a node is listed.
  lemma {:induction false} TotalAtLeast(nodes: Nodes, c: seq<nat>, i: nat, d: nat)
    requires i < |c| && c[i] in nodes
    ensures Total(nodes, c, d) >= Count(nodes[c[i]].elements, d)
  {
    if i < |c| - 1 {
      TotalAtLeast(nodes, c[..|c| - 1], i, d);
    }
  }

  // What is listed is in some node.
  lemma {:induction false} TotalSomewhere(nodes: Nodes, c: seq<nat>, d: nat)
    requires Total(nodes, c, d) > 0
    ensures exists i :: 0 <= i < |c| && c[i] in nodes && d in nodes[c[i]].elements
  {
    var n := |c| - 1;
    if Total(nodes, c[..n], d) > 0 {
      TotalSomewhere(nodes, c[..n], d);
    } else {
      CountIn(nodes[c[n]].elements, d);
    }
  }
}
