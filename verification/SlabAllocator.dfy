/** The slab allocator: small_allocator of src/high/memory/heap.cpp:272-482.

    Its pages are those of 106 to 116 TiB that the page tables map; the page allocator maps and unmaps
    them.  Pages are numbered from address 0 on, so that page 0 is null.  Each page of the arena holds
    blocks or is a node of one of the ten free lists. */
module SlabAllocator {
  import opened Addresses
  import opened Common
  import opened FreeLists
  import opened PageHeap
  import opened PageTables
  import opened Paging
  import opened SlabPages

  // ---------------------------------------------------------------- the arena

  // Root entries of the arena, and its page numbers.
  const LOW := 212
  const HIGH := 232
  const FIRST: nat := LOW * 0x800_0000
  const END: nat := HIGH * 0x800_0000

  // Exactly these pages of the arena are mapped.
  ghost predicate Arena(mem: Memory, root: nat, pages: set<nat>) {
    && (forall n :: n in pages ==> FIRST <= n < END)
    && forall page :: IsPage(page) && LOW <= page[0] < HIGH ==>
         (Walk(mem, root, 0, page).Some? <==> PageNumber(page) in pages)
  }

  // Pages outside of the arena, and some of the arena's own, are where they were.
  ghost predicate Undisturbed(mem: Memory, mem': Memory, root: nat, keep: set<nat>) {
    && OutsideSame(mem, mem', root)
    && forall page :: IsPage(page) && (LOW <= page[0] < HIGH ==> PageNumber(page) in keep) ==>
         Walk(mem', root, 0, page) == Walk(mem, root, 0, page)
  }

  lemma UndisturbedThen(mem: Memory, mem': Memory, mem'': Memory, root: nat, keep: set<nat>, keep': set<nat>,
      both: set<nat>)
    requires Undisturbed(mem, mem', root, keep) && Undisturbed(mem', mem'', root, keep')
    requires both <= keep && both <= keep'
    ensures Undisturbed(mem, mem'', root, both)
  {
    hide Walk, PageNumber, Slot;
    OutsideThen(mem, mem', mem'', root);
    hide OutsideSame;
  }

  lemma UndisturbedSame(mem: Memory, root: nat, keep: set<nat>)
    ensures Undisturbed(mem, mem, root, keep)
  {
  }

  lemma NothingTaken(mem: Memory, mem': Memory, root: nat, pages: set<nat>)
    requires Arena(mem, root, pages) && AllKept(mem, mem', root) && OutsideSame(mem, mem', root)
    ensures Arena(mem', root, pages) && Undisturbed(mem, mem', root, pages)
  {
    hide Walk, PageNumber, OutsideSame;
  }

  lemma {:induction false} PageTaken(mem: Memory, mem': Memory, root: nat, free: set<nat>, free': set<nat>,
      elsewhere: set<nat>, usable: set<nat>, pages: set<nat>, page: seq<nat>)
    requires HeapInv(mem, root, free, elsewhere, usable) && Arena(mem, root, pages)
    requires Taken(mem, mem', root, free, free', page) && LOW <= page[0] < HIGH
    ensures PageNumber(page) !in pages && PageNumber(page) != 0
    ensures Arena(mem', root, pages + {PageNumber(page)}) && Undisturbed(mem, mem', root, pages)
  {
    HeapWalk(mem, root, page);
    NumberInArena(page);
    OutsideTowards(mem, mem', root, page);
    hide HeapInv, Walk, PageNumber, Slot, OutsideSame, OnlyTowards, Grown;
    forall q | IsPage(q) && LOW <= q[0] < HIGH
      ensures Walk(mem', root, 0, q).Some? <==> PageNumber(q) in pages + {PageNumber(page)}
    {
      if PageNumber(q) == PageNumber(page) {
        NumberIsPath(q);
        NumberIsPath(page);
      }
    }
  }

  lemma {:induction false} PageGivenBack(mem: Memory, mem': Memory, root: nat, free: set<nat>, free': set<nat>,
      elsewhere: set<nat>, usable: set<nat>, pages: set<nat>, page: seq<nat>)
    requires HeapInv(mem', root, free', elsewhere, usable) && Arena(mem, root, pages) && IsPage(page)
    requires Freed(mem, mem', root, free, free', [], page) && LOW <= page[0] < HIGH
    ensures Arena(mem', root, pages - {PageNumber(page)})
    ensures Undisturbed(mem, mem', root, pages - {PageNumber(page)})
  {
    HeapWalk(mem', root, page);
    NumberInArena(page);
    OutsideTowards(mem, mem', root, page);
    hide HeapInv, Walk, PageNumber, Slot, OutsideSame, OnlyTowards, Grown, Pruned;
    forall q | IsPage(q) && q != page
      ensures PageNumber(q) != PageNumber(page)
    {
      NumberIsPath(q);
      NumberIsPath(page);
    }
  }

  // A page of the arena is there to be given back.
  lemma {:induction false} ArenaPage(mem: Memory, root: nat, free: set<nat>, elsewhere: set<nat>, usable: set<nat>,
      pages: set<nat>, n: nat)
    requires HeapInv(mem, root, free, elsewhere, usable) && Arena(mem, root, pages) && n in pages
    ensures var page := PathOf(n);
            && IsPage(page) && LOW <= page[0] < HIGH && InHeap(page) && PageNumber(page) == n
            && Slot(mem, root, page).Some?
  {
    PathIsPage(n);
    HeapWalk(mem, root, PathOf(n));
  }

  // ---------------------------------------------------------------- ten lists in one memory

  ghost predicate InSome(chains: seq<seq<nat>>, p: nat) {
    exists b :: 0 <= b < |chains| && p in chains[b]
  }

  // Every list is a chain, and every node belongs to one of them.
  ghost predicate Lists(heads: seq<nat>, chains: seq<seq<nat>>, nodes: Nodes) {
    && |heads| == |chains| == BUCKETS
    && (forall b :: 0 <= b < BUCKETS ==> Chain(nodes, heads[b], chains[b]))
    && (forall b, b', p :: 0 <= b < BUCKETS && 0 <= b' < BUCKETS && b != b' && p in chains[b] ==> p !in chains[b'])
    && (forall p :: p in nodes ==> InSome(chains, p))
  }

  // List b has one d more; all else is as it was.
  ghost predicate Adds(chains: seq<seq<nat>>, nodes: Nodes, chains': seq<seq<nat>>, nodes': Nodes, b: nat, d: nat)
    requires |chains| == |chains'|
  {
    forall b', x :: 0 <= b' < |chains| && x != 0 ==>
      Total(nodes', chains'[b'], x) == Total(nodes, chains[b'], x) + if b' == b && x == d then 1 else 0
  }

  // List b has no d any more; all else is as it was.
  ghost predicate Drops(chains: seq<seq<nat>>, nodes: Nodes, chains': seq<seq<nat>>, nodes': Nodes, b: nat, d: nat)
    requires |chains| == |chains'|
  {
    forall b', x :: 0 <= b' < |chains| && x != 0 ==>
      Total(nodes', chains'[b'], x) == if b' == b && x == d then 0 else Total(nodes, chains[b'], x)
  }

  ghost predicate NoEmptyNodes(chains: seq<seq<nat>>, nodes: Nodes) {
    forall b :: 0 <= b < |chains| ==> NoneEmpty(nodes, chains[b])
  }

  // A list does not see the nodes of another.
  lemma OtherList(heads: seq<nat>, chains: seq<seq<nat>>, nodes: Nodes, nodes': Nodes, b: nat, b': nat)
    requires Lists(heads, chains, nodes) && b < BUCKETS && b' < BUCKETS && b != b'
    requires forall p :: p in nodes && p !in chains[b] ==> p in nodes' && nodes'[p] == nodes[p]
    ensures Chain(nodes', heads[b'], chains[b'])
    ensures NoneEmpty(nodes, chains[b']) ==> NoneEmpty(nodes', chains[b'])
    ensures forall x :: Total(nodes', chains[b'], x) == Total(nodes, chains[b'], x)
  {
    var c := chains[b'];
    forall k | 0 <= k < |c|
      ensures c[k] in nodes && c[k] in nodes' && nodes'[c[k]] == nodes[c[k]]
    {
      assert c[k] in c;
    }
    ChainFrame(nodes, nodes', heads[b'], c);
    forall x
      ensures Total(nodes', c, x) == Total(nodes, c, x)
    {
      TotalFrame(nodes, nodes', c, x);
    }
  }

  // The other lists hold what they held, and no empty node if they held none.
  ghost predicate OthersSame(chains: seq<seq<nat>>, nodes: Nodes, nodes': Nodes, b: nat) {
    && (forall b', x :: 0 <= b' < |chains| && b' != b ==> Total(nodes', chains[b'], x) == Total(nodes, chains[b'], x))
    && (forall b' :: 0 <= b' < |chains| && b' != b && NoneEmpty(nodes, chains[b']) ==> NoneEmpty(nodes', chains[b']))
  }

  // List b becomes the chain c'; its nodes are old ones of its own or new ones.
  lemma {:induction false} ListsStep(heads: seq<nat>, chains: seq<seq<nat>>, nodes: Nodes, nodes': Nodes, b: nat,
      h: nat, c': seq<nat>)
    requires Lists(heads, chains, nodes) && b < BUCKETS && Chain(nodes', h, c')
    requires forall q :: q in nodes && q !in chains[b] ==> q in nodes' && nodes'[q] == nodes[q]
    requires forall q :: q in nodes' ==> q in c' || (q in nodes && q !in chains[b])
    requires forall q :: q in c' ==> q in chains[b] || q !in nodes
    ensures Lists(heads[b := h], chains[b := c'], nodes') && OthersSame(chains, nodes, nodes', b)
  {
    hide Chain, Total, NoneEmpty;
    var heads', chains' := heads[b := h], chains[b := c'];
    forall b' | 0 <= b' < BUCKETS && b' != b
      ensures Chain(nodes', heads'[b'], chains'[b'])
      ensures NoneEmpty(nodes, chains[b']) ==> NoneEmpty(nodes', chains[b'])
      ensures forall x :: Total(nodes', chains[b'], x) == Total(nodes, chains[b'], x)
    {
      OtherList(heads, chains, nodes, nodes', b, b');
    }
    forall q | q in nodes'
      ensures InSome(chains', q)
    {
      if q in c' {
        assert q in chains'[b];
      } else {
        var b0 :| 0 <= b0 < BUCKETS && q in chains[b0];
        assert q in chains'[b0];
      }
    }
    forall b', q | 0 <= b' < BUCKETS && b' != b && q in chains[b']
      ensures q !in c'
    {
      NodeOfChain(nodes, heads[b'], chains[b'], q);
    }
  }

  lemma NodeOfChain(nodes: Nodes, head: nat, c: seq<nat>, p: nat)
    requires Chain(nodes, head, c) && p in c
    ensures p in nodes && p != 0
  {
  }

  lemma SameHead(s: seq<nat>, b: nat)
    requires b < |s|
    ensures s[b := s[b]] == s
  {
  }

  lemma SameChain(s: seq<seq<nat>>, b: nat)
    requires b < |s|
    ensures s[b := s[b]] == s
  {
  }

  // Other elements in node i of list b.
  lemma {:induction false} ListsChange(heads: seq<nat>, chains: seq<seq<nat>>, nodes: Nodes, b: nat, i: nat,
      els: seq<nat>)
    requires Lists(heads, chains, nodes) && b < BUCKETS && i < |chains[b]| && |els| == ELEMENTS
    ensures chains[b][i] in nodes
    ensures var p := chains[b][i];
            var nodes' := nodes[p := nodes[p].(elements := els)];
            && Lists(heads, chains, nodes') && OthersSame(chains, nodes, nodes', b)
            && forall x :: Total(nodes', chains[b], x) + Count(nodes[p].elements, x)
                           == Total(nodes, chains[b], x) + Count(els, x)
  {
    var p := chains[b][i];
    var nodes' := nodes[p := nodes[p].(elements := els)];
    assert p in chains[b];
    ChainChange(nodes, heads[b], chains[b], i, els);
    forall x
      ensures Total(nodes', chains[b], x) + Count(nodes[p].elements, x) == Total(nodes, chains[b], x) + Count(els, x)
    {
      TotalChange(nodes, heads[b], chains[b], i, els, x);
    }
    forall q | q in nodes && q in chains[b]
      ensures q in nodes'
    {
    }
    hide Chain, Total, Count;
    ListsStep(heads, chains, nodes, nodes', b, heads[b], chains[b]);
    SameHead(heads, b);
    SameChain(chains, b);
  }

  // A new node behind the last of list b.
  function Appended(nodes: Nodes, c: seq<nat>, p: nat, els: seq<nat>): Nodes
    requires c != [] ==> c[|c| - 1] in nodes
  {
    var added := nodes[p := Node(0, els)];
    if c == [] then added else added[c[|c| - 1] := added[c[|c| - 1]].(next := p)]
  }

  lemma {:induction false} ListsAppend(heads: seq<nat>, chains: seq<seq<nat>>, nodes: Nodes, b: nat, p: nat,
      els: seq<nat>)
    requires Lists(heads, chains, nodes) && b < BUCKETS && p != 0 && p !in nodes && |els| == ELEMENTS
    ensures chains[b] != [] ==> chains[b][|chains[b]| - 1] in nodes
    ensures var c := chains[b];
            var nodes' := Appended(nodes, c, p, els);
            && Lists(if c == [] then heads[b := p] else heads, chains[b := c + [p]], nodes')
            && OthersSame(chains, nodes, nodes', b)
            && forall x :: Total(nodes', c + [p], x) == Total(nodes, c, x) + Count(els, x)
  {
    var c := chains[b];
    ChainOf(heads, chains, nodes, b);
    AppendedChain(nodes, heads[b], c, p, els);
    hide Chain, Total, Count, Appended;
    InLonger(c, p);
    ListsStep(heads, chains, nodes, Appended(nodes, c, p, els), b, if c == [] then p else heads[b], c + [p]);
    SameHead(heads, b);
  }

  lemma ChainOf(heads: seq<nat>, chains: seq<seq<nat>>, nodes: Nodes, b: nat)
    requires Lists(heads, chains, nodes) && b < BUCKETS
    ensures |heads| == |chains| == BUCKETS && Chain(nodes, heads[b], chains[b])
  {
    hide Chain;
  }

  lemma InLonger(c: seq<nat>, p: nat)
    ensures forall q :: q in c + [p] <==> q in c || q == p
  {
  }

  lemma {:induction false} AppendedChain(nodes: Nodes, head: nat, c: seq<nat>, p: nat, els: seq<nat>)
    requires Chain(nodes, head, c) && p != 0 && p !in nodes && |els| == ELEMENTS
    ensures c != [] ==> c[|c| - 1] in nodes && c[|c| - 1] in c
    ensures var nodes' := Appended(nodes, c, p, els);
            && Chain(nodes', if c == [] then p else head, c + [p])
            && (forall q :: q in nodes && q !in c ==> q in nodes' && nodes'[q] == nodes[q])
            && (forall q :: q in nodes' <==> q in nodes || q == p)
            && forall x :: Total(nodes', c + [p], x) == Total(nodes, c, x) + Count(els, x)
  {
    if c != [] {
      assert c[|c| - 1] in c;
    }
    assert [] + [p] == [p];
    ChainAppend(nodes, head, c, p, els);
    forall x
      ensures Total(Appended(nodes, c, p, els), c + [p], x) == Total(nodes, c, x) + Count(els, x)
    {
      TotalAppend(nodes, head, c, p, els, x);
      hide Chain, Count;
    }
    hide Chain, Total, Count;
  }

  // List b without its node i, which is empty.
  lemma {:induction false} ListsRemove(heads: seq<nat>, chains: seq<seq<nat>>, nodes: Nodes, b: nat, i: nat)
    requires Lists(heads, chains, nodes) && b < BUCKETS && i < |chains[b]|
    requires chains[b][i] in nodes && Empty(nodes[chains[b][i]].elements)
    ensures i > 0 ==> chains[b][i - 1] in nodes
    ensures var c := chains[b];
            var nodes' := Unlinked(nodes, c, i);
            && Lists(if i == 0 then heads[b := nodes[c[i]].next] else heads, chains[b := Skip(c, i)], nodes')
            && OthersSame(chains, nodes, nodes', b)
            && forall x :: x != 0 ==> Total(nodes', Skip(c, i), x) == Total(nodes, c, x)
  {
    var c := chains[b];
    assert c[i] in c && (i > 0 ==> c[i - 1] in c);
    var nodes' := Unlinked(nodes, c, i);
    ChainRemove(nodes, heads[b], c, i);
    forall x | x != 0
      ensures Total(nodes', Skip(c, i), x) == Total(nodes, c, x)
    {
      TotalRemove(nodes, heads[b], c, i, x);
    }
    forall q
      ensures q in Skip(c, i) ==> q in c
      ensures q in c && q != c[i] ==> q in Skip(c, i)
    {
      InSkip(c, i, q);
    }
    hide Chain, Total, Skip;
    ListsStep(heads, chains, nodes, nodes', b, if i == 0 then nodes[c[i]].next else heads[b], Skip(c, i));
    SameHead(heads, b);
  }

  lemma InSkip(c: seq<nat>, i: nat, q: nat)
    requires i < |c|
    ensures q in Skip(c, i) ==> q in c
    ensures q in c && q != c[i] ==> q in Skip(c, i)
  {
    if q in c && q != c[i] {
      var k :| 0 <= k < |c| && c[k] == q;
      assert Skip(c, i)[if k < i then k else k - 1] == q;
    }
  }

  // ---------------------------------------------------------------- what the lists are for

  // Pages with room are listed once, in the list of their class; nothing else is listed.
  ghost predicate Expected(slabs: map<nat, Page>, b: nat, x: nat) {
    x in slabs && IsSlab(slabs[x]) && Bucket(slabs[x]) == b && HasRoom(Bits(slabs[x]))
  }

  ghost predicate Listed(chains: seq<seq<nat>>, nodes: Nodes, slabs: map<nat, Page>) {
    forall b, x :: 0 <= b < |chains| && x != 0 ==>
      Total(nodes, chains[b], x) == if Expected(slabs, b, x) then 1 else 0
  }

  // Every page holds blocks or is a node.
  ghost predicate Shared(slabs: map<nat, Page>, nodes: Nodes, pages: set<nat>) {
    && 0 !in pages
    && (forall p :: p in pages <==> p in slabs || p in nodes)
    && (forall p :: p in slabs ==> p !in nodes)
  }

  // No node of the chain has a null element.
  ghost predicate Packed(nodes: Nodes, c: seq<nat>) {
    forall k :: 0 <= k < |c| && c[k] in nodes ==> 0 !in nodes[c[k]].elements
  }

  // What malloc was asked for decides the class of a block.
  ghost predicate AskedFor(slabs: map<nat, Page>, asked: map<(nat, nat), nat>) {
    forall p: nat, i: nat :: Live(slabs, p, i) ==>
      (p, i) in asked && PrefSize(asked[(p, i)]) == SizeOf(Bucket(slabs[p]))
  }

  ghost predicate AllSlabs(slabs: map<nat, Page>) {
    forall p :: p in slabs ==> IsSlab(slabs[p])
  }

  // A block that has been given out and not freed.
  ghost predicate Live(slabs: map<nat, Page>, p: nat, i: nat) {
    p in slabs && IsSlab(slabs[p]) && i < |Bits(slabs[p])| && Bits(slabs[p])[i]
  }

  // The page of an address, and the number of its block in it: what free computes.
  function BlockAt(slabs: map<nat, Page>, ptr: nat): nat
    requires ptr / PAGE in slabs && IsSlab(slabs[ptr / PAGE])
  {
    ptr % PAGE / SizeOf(Bucket(slabs[ptr / PAGE]))
  }

  ghost predicate LiveAt(slabs: map<nat, Page>, ptr: nat) {
    ptr / PAGE in slabs && IsSlab(slabs[ptr / PAGE]) && Live(slabs, ptr / PAGE, BlockAt(slabs, ptr))
  }

  lemma AddsFrom(chains: seq<seq<nat>>, nodes: Nodes, c: seq<nat>, nodes': Nodes, b: nat, d: nat)
    requires b < |chains| && OthersSame(chains, nodes, nodes', b)
    requires forall x :: x != 0 ==> Total(nodes', c, x) == Total(nodes, chains[b], x) + if x == d then 1 else 0
    ensures Adds(chains, nodes, chains[b := c], nodes', b, d)
  {
    hide Total;
  }

  // The page that comes first in list b, if there is one.
  ghost function FrontOf(chains: seq<seq<nat>>, nodes: Nodes, b: nat): nat {
    if b < |chains| && chains[b] != [] && chains[b][0] in nodes then Front(nodes[chains[b][0]].elements) else 0
  }

  // The very first element of list b is a page, so that none can be put before it.
  ghost predicate FirstIsTaken(chains: seq<seq<nat>>, nodes: Nodes, b: nat) {
    && b < |chains| && chains[b] != [] && chains[b][0] in nodes
    && nodes[chains[b][0]].elements != [] && nodes[chains[b][0]].elements[0] != 0
  }

  // The front after d was put into the k-th element of the i-th node, the first that was null.
  lemma FrontPushed(chains: seq<seq<nat>>, nodes: Nodes, b: nat, i: nat, k: nat, d: nat)
    requires b < |chains| && i < |chains[b]| && chains[b][i] in nodes && k < |nodes[chains[b][i]].elements| && d != 0
    requires chains[b][0] in nodes && 0 < |nodes[chains[b][0]].elements|
    requires i > 0 ==> 0 !in nodes[chains[b][0]].elements && chains[b][i] != chains[b][0]
    requires nodes[chains[b][i]].elements[k] == 0 && 0 !in nodes[chains[b][i]].elements[..k]
    ensures var p := chains[b][i];
            var nodes' := nodes[p := nodes[p].(elements := nodes[p].elements[k := d])];
            FrontOf(chains, nodes', b) == if FirstIsTaken(chains, nodes, b) then FrontOf(chains, nodes, b) else d
  {
    if i == 0 && k > 0 {
      assert nodes[chains[b][0]].elements[0] in nodes[chains[b][0]].elements[..k];
    }
  }

  lemma FrontOne(d: nat)
    requires d != 0
    ensures Front(Blank()[0 := d]) == d
  {
  }

  // What malloc answers.  A fault is a write through null.
  datatype Reply = Given(address: nat) | Refused | Fault

  // A block of class b that was nobody's, for `size` bytes; no other block has changed hands.
  ghost predicate Provided(slabs: map<nat, Page>, slabs': map<nat, Page>, asked: map<(nat, nat), nat>,
      asked': map<(nat, nat), nat>, b: nat, size: nat, address: nat, p: nat, i: nat) {
    && p in slabs' && IsSlab(slabs'[p]) && Bucket(slabs'[p]) == b && i < Blocks(b)
    && address == p * PAGE + i * SizeOf(b) && size <= SizeOf(b) && asked' == asked[(p, i) := size]
    && !Live(slabs, p, i)
    && forall q, j :: Live(slabs', q, j) <==> Live(slabs, q, j) || (q == p && j == i)
  }

  // Why there is no page: no frame is left, or no address of the arena.
  ghost predicate NoPage(mem: Memory, root: nat, free: set<nat>) {
    free == {} || Exhausted(mem, root, 212, 232)
  }

  // The pages are those that are mapped.
  ghost predicate InArena(ph: PageHeap, pages: set<nat>)
    reads ph, ph.pt
  {
    ph.Valid() && Arena(ph.pt.mem, ph.pt.root, pages)
  }

  class SlabAllocator {
    const ph: PageHeap
    var heads: seq<nat>
    var nodes: Nodes
    var slabs: map<nat, Page>
    ghost var chains: seq<seq<nat>>
    ghost var pages: set<nat>
    ghost var asked: map<(nat, nat), nat>

    // The lists are in order, whatever they hold.
    ghost predicate InOrder()
      reads this
    {
      && |heads| == |chains| == BUCKETS && Lists(heads, chains, nodes) && NoEmptyNodes(chains, nodes)
      && Shared(slabs, nodes, pages) && AllSlabs(slabs)
    }

    ghost predicate Valid()
      reads this, ph, ph.pt
    {
      InArena(ph, pages) && InOrder() && Listed(chains, nodes, slabs) && AskedFor(slabs, asked)
    }

    constructor (ph: PageHeap)
      requires ph.Valid() && Arena(ph.pt.mem, ph.pt.root, {})
      ensures Valid() && this.ph == ph && slabs == map[]
    {
      this.ph := ph;
      heads, nodes, slabs := seq(BUCKETS, _ => 0), map[], map[];
      chains, pages, asked := seq(BUCKETS, _ => []), {}, map[];
    }

    // What Valid says, part by part.
    lemma Parts()
      requires Valid()
      ensures ph.Valid() && Arena(ph.pt.mem, ph.pt.root, pages) && InOrder()
      ensures Listed(chains, nodes, slabs) && AskedFor(slabs, asked)
    {
      hide PageHeap.Valid, InOrder, Arena, Listed, AskedFor;
    }

    lemma Together()
      requires ph.Valid() && Arena(ph.pt.mem, ph.pt.root, pages) && InOrder()
      requires Listed(chains, nodes, slabs) && AskedFor(slabs, asked)
      ensures Valid()
    {
      hide PageHeap.Valid, InOrder, Arena, Listed, AskedFor;
    }

    // allocate_page
    method AllocatePage() returns (p: Option<nat>)
      requires InArena(ph, pages)
      modifies ph.pt, this`pages
      ensures InArena(ph, pages) && Undisturbed(old(ph.pt.mem), ph.pt.mem, ph.pt.root, old(pages))
      ensures p.None? ==> pages == old(pages) && NoPage(ph.pt.mem, ph.pt.root, ph.pt.free)
      ensures p.Some? ==> p.value !in old(pages) && p.value != 0 && pages == old(pages) + {p.value}
    {
      hide PageHeap.Valid, Arena, Taken, AllKept, OutsideSame, Exhausted, FirstFit, PageNumber, Undisturbed;
      ghost var mem, free := ph.pt.mem, ph.pt.free;
      HeapOf(ph);
      var page := ph.MallocRange(LOW, HIGH);
      if page.None? {
        NothingTaken(mem, ph.pt.mem, ph.pt.root, pages);
        return None;
      }
      PageTaken(mem, ph.pt.mem, ph.pt.root, free, ph.pt.free, ph.elsewhere, ph.usable, pages, page.value);
      TakenIsPage(mem, ph.pt.mem, ph.pt.root, free, ph.pt.free, page.value);
      pages := pages + {PageNumber(page.value)};
      return Some(PageNumber(page.value));
    }

    // free_page, of a page that is not null.
    method FreePage(p: nat)
      requires InArena(ph, pages) && p in pages
      modifies ph.pt, this`pages
      ensures InArena(ph, pages) && pages == old(pages) - {p}
      ensures Undisturbed(old(ph.pt.mem), ph.pt.mem, ph.pt.root, pages)
    {
      hide PageHeap.Valid, Arena, Freed, PageNumber, Undisturbed, Slot, PathOf;
      ghost var mem, free := ph.pt.mem, ph.pt.free;
      HeapOf(ph);
      ArenaPage(mem, ph.pt.root, free, ph.elsewhere, ph.usable, pages, p);
      ph.Free(Some(PathOf(p)));
      HeapOf(ph);
      PageGivenBack(mem, ph.pt.mem, ph.pt.root, free, ph.pt.free, ph.elsewhere, ph.usable, pages, PathOf(p));
      pages := pages - {p};
    }

    // The first null element (lines 305-310), if there is one.
    method FirstNull(els: seq<nat>) returns (k: nat)
      ensures k <= |els| && (k < |els| ==> els[k] == 0) && 0 !in els[..k]
    {
      k := 0;
      while k < |els| && els[k] != 0
        invariant k <= |els| && 0 !in els[..k]
      {
        k := k + 1;
      }
    }

    // List::push.  It fails where the source writes through null: every node is packed, and there is no
    // page for another.
    method Push(b: nat, d: nat) returns (ok: bool)
      requires InArena(ph, pages) && InOrder() && b < BUCKETS && d != 0
      modifies this`heads, this`nodes, this`chains, this`pages, ph.pt
      ensures !ok ==>
                && Packed(old(nodes), old(chains)[b]) && NoPage(ph.pt.mem, ph.pt.root, ph.pt.free)
      ensures ok ==>
                && InArena(ph, pages) && InOrder() && Adds(old(chains), old(nodes), chains, nodes, b, d)
                && Undisturbed(old(ph.pt.mem), ph.pt.mem, ph.pt.root, old(pages))
                && (if Packed(old(nodes), old(chains)[b]) then |pages| == |old(pages)| + 1 else pages == old(pages))
      ensures ok ==>
                FrontOf(chains, nodes, b) ==
                  if FirstIsTaken(old(chains), old(nodes), b) then FrontOf(old(chains), old(nodes), b) else d
    {
      hide Lists, Shared, AllSlabs, Total, Count, OthersSame, Appended, NoEmptyNodes, Chain, InArena;
      hide Undisturbed, NoPage;
      UndisturbedSame(ph.pt.mem, ph.pt.root, pages);
      ChainStart(heads, chains, nodes, b);
      var prev, at := 0, heads[b];
      ghost var c := chains[b];
      ghost var i := 0;
      while at != 0
        invariant heads == old(heads) && nodes == old(nodes) && chains == old(chains) && pages == old(pages)
        invariant ph.pt.mem == old(ph.pt.mem) && InArena(ph, pages)
        invariant i <= |c| && at == Link(c, i) && prev == if i == 0 then 0 else c[i - 1]
        invariant forall j :: 0 <= j < i ==> c[j] in nodes && 0 !in nodes[c[j]].elements
        decreases |c| - i
      {
        ChainNode(heads, chains, nodes, b, i);
        var k := FirstNull(nodes[at].elements);
        if k < ELEMENTS {
          PushedInto(heads, chains, nodes, slabs, pages, b, i, k, d);
          ChainNode(heads, chains, nodes, b, 0);
          NodesDiffer(heads, chains, nodes, b, i);
          FrontPushed(chains, nodes, b, i, k, d);
          nodes := nodes[at := nodes[at].(elements := nodes[at].elements[k := d])];
          return true;
        }
        prev, at, i := at, nodes[at].next, i + 1;
      }
      assert i == |c|;
      var page := AllocatePage();
      if page.None? {
        return false;
      }
      var p := page.value;
      PushedBehind(heads, chains, nodes, slabs, old(pages), b, p, d);
      FrontBehind(heads, chains, nodes, slabs, old(pages), b, p, d);
      if prev == 0 {
        heads, nodes := heads[b := p], nodes[p := Node(0, Blank()[0 := d])];
      } else {
        nodes := nodes[p := Node(0, Blank()[0 := d])];
        nodes := nodes[prev := nodes[prev].(next := p)];
      }
      chains := chains[b := c + [p]];
      return true;
    }

    // List::peek
    method Peek(b: nat) returns (page: nat)
      requires InOrder() && b < BUCKETS
      ensures page == 0 <==> heads[b] == 0
      ensures page != 0 ==> Total(nodes, chains[b], page) > 0
      ensures page == FrontOf(chains, nodes, b)
    {
      hide Shared, AllSlabs, Total, Count, NoEmptyNodes, Lists;
      ChainStart(heads, chains, nodes, b);
      var at := heads[b];
      ghost var i := 0;
      while at != 0
        invariant i <= |chains[b]| && at == Link(chains[b], i)
        invariant forall j :: 0 <= j < i ==> chains[b][j] in nodes && Empty(nodes[chains[b][j]].elements)
        decreases |chains[b]| - i
      {
        ChainNode(heads, chains, nodes, b, i);
        var k := 0;
        while k < ELEMENTS
          invariant k <= ELEMENTS && forall j :: 0 <= j < k ==> nodes[at].elements[j] == 0
        {
          var element := nodes[at].elements[k];
          if element != 0 {
            if i > 0 {
              NotEmptyAt(chains, nodes, b, 0);
            }
            FrontAt(nodes[at].elements, k);
            CountIn(nodes[at].elements, element);
            TotalAtLeast(nodes, chains[b], i, element);
            return element;
          }
          k := k + 1;
        }
        at, i := nodes[at].next, i + 1;
      }
      if heads[b] != 0 {
        NotEmptyAt(chains, nodes, b, 0);
      }
      return 0;
    }

    // Lines 333-341.
    method ClearElement(els: seq<nat>, d: nat) returns (els': seq<nat>, empty: bool)
      ensures els' == Without(els, d) && (empty <==> Empty(els'))
    {
      els', empty := els, true;
      var k := 0;
      while k < |els|
        invariant k <= |els| == |els'|
        invariant forall j :: 0 <= j < k ==> els'[j] == if els[j] == d then 0 else els[j]
        invariant forall j :: k <= j < |els| ==> els'[j] == els[j]
        invariant empty <==> forall j :: 0 <= j < k ==> els'[j] == 0
      {
        if els'[k] == d {
          els' := els'[k := 0];
        }
        if els'[k] != 0 {
          empty := false;
        }
        k := k + 1;
      }
    }

    // List::remove
    method Remove(b: nat, d: nat)
      requires InArena(ph, pages) && InOrder() && b < BUCKETS && d != 0
      modifies this`heads, this`nodes, this`chains, this`pages, ph.pt
      ensures InArena(ph, pages) && InOrder() && Drops(old(chains), old(nodes), chains, nodes, b, d)
      ensures Undisturbed(old(ph.pt.mem), ph.pt.mem, ph.pt.root, slabs.Keys)
    {
      hide Lists, Shared, AllSlabs, Total, NoEmptyNodes, Unlinked, Skip, Empty, InArena, Undisturbed;
      UndisturbedSame(ph.pt.mem, ph.pt.root, slabs.Keys);
      RemovingStarts(heads, chains, nodes, b, d);
      ChainStart(heads, chains, nodes, b);
      var prev, at := 0, heads[b];
      ghost var i := 0;
      while at != 0
        invariant Removing(heads, chains, nodes, old(chains), old(nodes), b, i, d)
        invariant Shared(slabs, nodes, pages) && AllSlabs(slabs) && InArena(ph, pages)
        invariant Undisturbed(old(ph.pt.mem), ph.pt.mem, ph.pt.root, slabs.Keys)
        invariant |chains| == |heads| == BUCKETS && i <= |chains[b]| && at == Link(chains[b], i)
        invariant prev == if i == 0 then 0 else chains[b][i - 1]
        invariant forall k :: 0 <= k < |chains[b]| ==> chains[b][k] != 0
        decreases |chains[b]| - i
      {
        ChainNode(heads, chains, nodes, b, i);
        var node := nodes[at];
        var els, empty := ClearElement(node.elements, d);
        SharedChange(slabs, nodes, pages, at, els);
        if empty {
          NodeDropped(heads, chains, nodes, old(chains), old(nodes), b, i, d);
          ghost var cleared := nodes[at := node.(elements := els)];
          SharedUnlinked(slabs, cleared, pages, chains[b], i);
          UnlinkedIs(cleared, chains[b], i);
          nodes := nodes[at := node.(elements := els)];
          var next := node.next;
          if prev == 0 {
            heads := heads[b := next];
          } else {
            nodes := nodes[prev := nodes[prev].(next := next)];
          }
          ghost var mem := ph.pt.mem;
          FreePage(at);
          UndisturbedThen(old(ph.pt.mem), mem, ph.pt.mem, ph.pt.root, slabs.Keys, pages, slabs.Keys);
          nodes := nodes - {at};
          assert nodes == Unlinked(cleared, chains[b], i);
          chains := chains[b := Skip(chains[b], i)];
          ChainStart(heads, chains, nodes, b);
          at := next;
        } else {
          NodeKept(heads, chains, nodes, old(chains), old(nodes), b, i, d);
          nodes := nodes[at := node.(elements := els)];
          prev, at, i := at, node.next, i + 1;
        }
      }
      ChainStart(heads, chains, nodes, b);
      RemovingEnds(heads, chains, nodes, old(chains), old(nodes), b, d);
    }

    // Lines 417-422: a list without pages gets one.
    method Provide(b: nat) returns (ok: bool)
      requires Valid() && b < BUCKETS
      modifies this`heads, this`nodes, this`slabs, this`chains, this`pages, ph.pt
      ensures !ok ==> old(heads)[b] == 0 && NoPage(ph.pt.mem, ph.pt.root, ph.pt.free)
      ensures ok ==>
                && Valid() && heads[b] != 0 && SamePages(old(slabs), slabs)
                && (forall q, j :: Live(slabs, q, j) <==> Live(old(slabs), q, j))
                && Undisturbed(old(ph.pt.mem), ph.pt.mem, ph.pt.root, old(pages))
      ensures old(heads)[b] != 0 ==>
                && ok && slabs == old(slabs) && ph.pt.mem == old(ph.pt.mem)
                && heads == old(heads) && chains == old(chains) && nodes == old(nodes)
    {
      hide Lists, Shared, Total, NoEmptyNodes, HasRoom, Adds, InArena, Undisturbed, NoPage, AskedFor, Packed;
      ChainStart(heads, chains, nodes, b);
      UndisturbedSame(ph.pt.mem, ph.pt.root, pages);
      if heads[b] != 0 {
        return true;
      }
      var page := AllocatePage();
      if page.None? {
        return false;
      }
      var p := page.value;
      ghost var mem := ph.pt.mem;
      SharedSlab(slabs, nodes, old(pages), p, NewPage(b));
      slabs := slabs[p := NewPage(b)];
      ok := Push(b, p);
      if !ok {
        return;
      }
      UndisturbedThen(old(ph.pt.mem), mem, ph.pt.mem, ph.pt.root, old(pages), old(pages) + {p}, old(pages));
      NewListed(old(chains), old(nodes), old(slabs), chains, nodes, b, p);
      ListedHasHead(heads, chains, nodes, b, p);
      NewPageIsFree(b);
      SameAsked(old(slabs), slabs, asked);
    }

    // Lines 424-444: a block of a listed page; a page that has no room left is no longer listed.
    method TakeListed(b: nat, size: nat) returns (address: nat, ghost p: nat, ghost i: nat)
      requires Valid() && b < BUCKETS && heads[b] != 0 && PrefSize(size) == SizeOf(b)
      modifies this, ph.pt
      ensures Valid() && SamePages(old(slabs), slabs)
      ensures Undisturbed(old(ph.pt.mem), ph.pt.mem, ph.pt.root, old(slabs.Keys))
      ensures Provided(old(slabs), slabs, old(asked), asked, b, size, address, p, i)
      ensures p == FrontOf(old(chains), old(nodes), b) && forall j: nat :: j < i ==> Live(slabs, p, j)
      ensures p in slabs && IsSlab(slabs[p])
      ensures HasRoom(Bits(slabs[p])) ==> heads == old(heads) && chains == old(chains) && nodes == old(nodes)
    {
      hide Lists, Shared, Total, NoEmptyNodes, HasRoom, Adds, Drops, Bits, IsSlab, Bucket, InArena;
      hide Undisturbed, AskedFor;
      ghost var chains0, nodes0, slabs0 := chains, nodes, slabs;
      UndisturbedSame(ph.pt.mem, ph.pt.root, slabs.Keys);
      var page := Peek(b);
      ListedPage(chains, nodes, slabs, b, page);
      var page', result, count := TakeBlock(slabs[page]);
      SharedWrite(slabs, nodes, pages, page, page');
      slabs := slabs[page := page'];
      assert slabs.Keys == slabs0.Keys;
      LastRoom(Bits(slabs0[page]), result);
      if count == 1 {
        Remove(b, page);
        DroppedListed(chains0, nodes0, slabs0, chains, nodes, slabs, b, page);
      } else {
        StillListed(chains, nodes, slabs0, slabs, b, page);
      }
      BlockTaken(slabs0, slabs, page, result);
      LowerTaken(slabs, page, result);
      MoreAsked(slabs0, slabs, asked, page, result, size);
      BlockProvided(slabs0, slabs, asked, b, size, page, result);
      asked := asked[(page, result) := size];
      hide Live, PrefSize, SizeOf, Provided, SamePages, Listed;
      return page * PAGE + result * SizeOf(b), page, result;
    }

    // malloc
    method Malloc(size: nat) returns (reply: Reply, ghost p: nat, ghost i: nat)
      requires Valid()
      modifies this, ph.pt
      ensures reply.Refused? <==> size > 2047
      ensures reply.Refused? ==> unchanged(this, ph.pt)
      ensures reply.Fault? ==> old(heads)[BucketOf(PrefSize(size))] == 0 && NoPage(ph.pt.mem, ph.pt.root, ph.pt.free)
      ensures !reply.Fault? ==>
                && Valid() && SamePages(old(slabs), slabs)
                && Undisturbed(old(ph.pt.mem), ph.pt.mem, ph.pt.root, old(slabs.Keys))
      ensures reply.Given? ==>
                Provided(old(slabs), slabs, old(asked), asked, BucketOf(PrefSize(size)), size, reply.address, p, i)
      ensures reply.Given? ==> forall j: nat :: j < i ==> Live(slabs, p, j)
      ensures reply.Given? && old(heads)[BucketOf(PrefSize(size))] != 0 ==>
                p == FrontOf(old(chains), old(nodes), BucketOf(PrefSize(size)))
      ensures reply.Given? ==> p in slabs && IsSlab(slabs[p])
      ensures reply.Given? && HasRoom(Bits(slabs[p])) ==>
                heads[BucketOf(PrefSize(size))] != 0 && p == FrontOf(chains, nodes, BucketOf(PrefSize(size)))
    {
      hide Lists, Shared, NoEmptyNodes, Listed, AllSlabs, InArena, Undisturbed, NoPage, AskedFor;
      hide Exhausted, Bits, IsSlab;
      hide HasRoom;
      ClassFits(size);
      var prefSize := PrefSize(size);
      p, i := 0, 0;
      UndisturbedSame(ph.pt.mem, ph.pt.root, slabs.Keys);
      if prefSize == 0 {
        return Refused, 0, 0;
      }
      var b := BucketOf(prefSize);
      SlabsArePages(slabs, nodes, pages);
      var ok := Provide(b);
      if !ok {
        return Fault, 0, 0;
      }
      ghost var mem1, slabs1 := ph.pt.mem, slabs;
      var address;
      KeysKept(old(slabs), slabs1);
      address, p, i := TakeListed(b, size);
      UndisturbedThen(old(ph.pt.mem), mem1, ph.pt.mem, ph.pt.root, old(pages), slabs1.Keys, old(slabs.Keys));
      return Given(address), p, i;
    }

    // free of null, or of any address within a live block.  It fails where the source writes through
    // null: the page was full, and for listing it again there is no page.
    method Free(ptr: nat) returns (ok: bool)
      requires Valid()
      requires ptr != 0 ==> LiveAt(slabs, ptr)
      modifies this, ph.pt
      ensures !ok ==>
                && ptr != 0 && !HasRoom(Bits(old(slabs)[ptr / PAGE]))
                && |old(chains)| == BUCKETS && Packed(old(nodes), old(chains)[Bucket(old(slabs)[ptr / PAGE])])
                && NoPage(ph.pt.mem, ph.pt.root, ph.pt.free)
      ensures ok ==>
                && Valid() && slabs.Keys == old(slabs.Keys) && SamePages(old(slabs), slabs) && asked == old(asked)
                && Undisturbed(old(ph.pt.mem), ph.pt.mem, ph.pt.root, slabs.Keys)
      ensures ptr == 0 ==> ok && slabs == old(slabs)
      ensures ok && ptr != 0 ==>
                var p, i := ptr / PAGE, BlockAt(old(slabs), ptr);
                forall q, j :: Live(slabs, q, j) <==> Live(old(slabs), q, j) && !(q == p && j == i)
      ensures ok && ptr != 0 ==>
                var p := ptr / PAGE;
                if HasRoom(Bits(old(slabs)[p])) then
                  heads == old(heads) && chains == old(chains) && nodes == old(nodes)
                else
                  var b := Bucket(old(slabs)[p]);
                  FrontOf(chains, nodes, b) ==
                    if FirstIsTaken(old(chains), old(nodes), b) then FrontOf(old(chains), old(nodes), b) else p
      ensures ok && ptr != 0 ==> |heads| == BUCKETS && heads[Bucket(old(slabs)[ptr / PAGE])] != 0
    {
      hide Lists, Shared, Total, NoEmptyNodes, HasRoom, Adds, Drops, Bits, IsSlab, Bucket, InArena, Undisturbed, NoPage;
      hide AskedFor, Packed;
      UndisturbedSame(ph.pt.mem, ph.pt.root, slabs.Keys);
      if ptr == 0 {
        return true;
      }
      var page := ptr / PAGE;
      var offset := ptr % PAGE;
      var b := Bucket(slabs[page]);
      var index := offset / SizeOf(b);
      SlabsArePages(slabs, nodes, pages);
      InPages(slabs, nodes, pages, page);
      var page', full, empty := ReleaseBlock(slabs[page], index);
      if empty {
        // Lines 468-469 are never reached: the block that is being freed still counts as taken.
        assert false;
      }
      SharedWrite(slabs, nodes, pages, page, page');
      slabs := slabs[page := page'];
      RoomAt(Bits(page'), index);
      if full {
        ok := Push(b, page);
        if !ok {
          return;
        }
        UndisturbedThen(old(ph.pt.mem), old(ph.pt.mem), ph.pt.mem, ph.pt.root, old(slabs.Keys), old(pages), slabs.Keys);
        AddedListed(old(chains), old(nodes), old(slabs), chains, nodes, slabs, b, page);
      } else {
        StillListed(chains, nodes, old(slabs), slabs, b, page);
      }
      HasHead(heads, chains, nodes, slabs, b, page);
      BlockReleased(old(slabs), slabs, page, index);
      FewerAsked(old(slabs), slabs, asked);
      return true;
    }

    // size: from any address within a live block, the smallest class that holds what malloc was asked for.
    method Size(ptr: nat) returns (size: nat)
      requires Valid() && (ptr != 0 ==> ptr / PAGE in slabs)
      ensures ptr == 0 ==> size == 0
      ensures forall p: nat, i: nat :: ptr != 0 && Live(slabs, p, i) && InBlock(slabs, p, i, ptr) ==>
                (p, i) in asked && size == PrefSize(asked[(p, i)]) && asked[(p, i)] <= size
    {
      if ptr == 0 {
        return 0;
      }
      size := SizeOf(Bucket(slabs[ptr / PAGE]));
      SizeIsClass(slabs, asked, ptr);
    }
  }

  lemma BlockProvided(slabs: map<nat, Page>, slabs': map<nat, Page>, asked: map<(nat, nat), nat>, b: nat, size: nat,
      p: nat, i: nat)
    requires b < BUCKETS && PrefSize(size) == SizeOf(b)
    requires p in slabs && IsSlab(slabs[p]) && p in slabs' && IsSlab(slabs'[p]) && Bucket(slabs'[p]) == b
    requires i < Blocks(b) && i < |Bits(slabs[p])| && !Bits(slabs[p])[i]
    requires forall q, j :: Live(slabs', q, j) <==> Live(slabs, q, j) || (q == p && j == i)
    ensures p * PAGE + i * SizeOf(b) >= 0
    ensures Provided(slabs, slabs', asked, asked[(p, i) := size], b, size, p * PAGE + i * SizeOf(b), p, i)
  {
    ClassFits(size);
    assert SizeOf(b) != 0;
    hide IsSlab, Bucket, Bits, PrefSize, SizeOf;
    assert i * SizeOf(b) >= 0;
  }

  lemma HeapOf(ph: PageHeap)
    requires ph.Valid()
    ensures HeapInv(ph.pt.mem, ph.pt.root, ph.pt.free, ph.elsewhere, ph.usable) && Indexed(ph.pt.mem, ph.pt.root)
  {
  }

  lemma TakenIsPage(mem: Memory, mem': Memory, root: nat, free: set<nat>, free': set<nat>, page: seq<nat>)
    requires Taken(mem, mem', root, free, free', page)
    ensures IsPage(page)
  {
  }

  lemma KeysKept(slabs: map<nat, Page>, slabs': map<nat, Page>)
    requires AllSlabs(slabs) && SamePages(slabs, slabs')
    ensures slabs.Keys <= slabs'.Keys
  {
    hide IsSlab, Bucket;
  }

  lemma SlabsArePages(slabs: map<nat, Page>, nodes: Nodes, pages: set<nat>)
    requires Shared(slabs, nodes, pages)
    ensures slabs.Keys <= pages
  {
  }

  lemma SameAsked(slabs: map<nat, Page>, slabs': map<nat, Page>, asked: map<(nat, nat), nat>)
    requires AskedFor(slabs, asked) && SamePages(slabs, slabs')
    requires forall q, j :: Live(slabs', q, j) <==> Live(slabs, q, j)
    ensures AskedFor(slabs', asked)
  {
    hide Bits, IsSlab, Bucket, PrefSize, SizeOf;
  }

  lemma FewerAsked(slabs: map<nat, Page>, slabs': map<nat, Page>, asked: map<(nat, nat), nat>)
    requires AskedFor(slabs, asked) && SamePages(slabs, slabs')
    requires forall q, j :: Live(slabs', q, j) ==> Live(slabs, q, j)
    ensures AskedFor(slabs', asked)
  {
    hide Bits, IsSlab, Bucket, PrefSize, SizeOf;
  }

  lemma MoreAsked(slabs: map<nat, Page>, slabs': map<nat, Page>, asked: map<(nat, nat), nat>, p: nat, i: nat, size: nat)
    requires AskedFor(slabs, asked) && SamePages(slabs, slabs')
    requires forall q, j :: Live(slabs', q, j) <==> Live(slabs, q, j) || (q == p && j == i)
    requires p in slabs' && IsSlab(slabs'[p]) && PrefSize(size) == SizeOf(Bucket(slabs'[p]))
    ensures AskedFor(slabs', asked[(p, i) := size])
  {
    hide Bits, IsSlab, Bucket, PrefSize, SizeOf;
  }

  lemma {:induction false} SizeIsClass(slabs: map<nat, Page>, asked: map<(nat, nat), nat>, ptr: nat)
    requires AskedFor(slabs, asked) && ptr / PAGE in slabs && IsSlab(slabs[ptr / PAGE])
    ensures forall p: nat, i: nat :: Live(slabs, p, i) && InBlock(slabs, p, i, ptr) ==>
              && (p, i) in asked && asked[(p, i)] <= PrefSize(asked[(p, i)])
              && PrefSize(asked[(p, i)]) == SizeOf(Bucket(slabs[ptr / PAGE]))
  {
    forall p: nat, i: nat | Live(slabs, p, i) && InBlock(slabs, p, i, ptr)
      ensures (p, i) in asked && asked[(p, i)] <= PrefSize(asked[(p, i)])
      ensures PrefSize(asked[(p, i)]) == SizeOf(Bucket(slabs[ptr / PAGE]))
    {
      BlockOfAddress(slabs, p, i, ptr);
      ClassFits(asked[(p, i)]);
    }
  }

  // All pages are still there, of the same class and with the same contents, their bitmaps apart.
  ghost predicate SamePages(slabs: map<nat, Page>, slabs': map<nat, Page>) {
    forall p :: p in slabs && IsSlab(slabs[p]) ==>
      && p in slabs' && IsSlab(slabs'[p]) && Bucket(slabs'[p]) == Bucket(slabs[p])
      && slabs'[p][..BitmapAt(Bucket(slabs[p]))] == slabs[p][..BitmapAt(Bucket(slabs[p]))]
  }

  lemma NoPageChanged(slabs: map<nat, Page>)
    ensures SamePages(slabs, slabs)
  {
  }

  lemma SharedSlab(slabs: map<nat, Page>, nodes: Nodes, pages: set<nat>, p: nat, page: Page)
    requires Shared(slabs, nodes, pages) && p !in pages && p != 0 && AllSlabs(slabs) && IsSlab(page)
    ensures Shared(slabs[p := page], nodes, pages + {p}) && AllSlabs(slabs[p := page])
    ensures p !in slabs && SamePages(slabs, slabs[p := page])
  {
  }

  lemma SharedWrite(slabs: map<nat, Page>, nodes: Nodes, pages: set<nat>, p: nat, page: Page)
    requires Shared(slabs, nodes, pages) && p in slabs && AllSlabs(slabs) && IsSlab(page)
    ensures Shared(slabs[p := page], nodes, pages) && AllSlabs(slabs[p := page])
  {
  }

  lemma InPages(slabs: map<nat, Page>, nodes: Nodes, pages: set<nat>, p: nat)
    requires Shared(slabs, nodes, pages) && p in slabs
    ensures p != 0
  {
    assert p in pages;
  }

  // A new page is listed, and belongs there.
  lemma {:induction false} NewListed(chains: seq<seq<nat>>, nodes: Nodes, slabs: map<nat, Page>,
      chains': seq<seq<nat>>, nodes': Nodes, b: nat, p: nat)
    requires |chains| == |chains'| == BUCKETS && Listed(chains, nodes, slabs) && p !in slabs && b < BUCKETS && p != 0
    requires Adds(chains, nodes, chains', nodes', b, p)
    ensures Listed(chains', nodes', slabs[p := NewPage(b)]) && Total(nodes', chains'[b], p) > 0
  {
    NewPageIsFree(b);
    assert !Bits(NewPage(b))[0];
    assert Expected(slabs[p := NewPage(b)], b, p);
    hide Total;
  }

  lemma {:induction false} ListedHasHead(heads: seq<nat>, chains: seq<seq<nat>>, nodes: Nodes, b: nat, p: nat)
    requires Lists(heads, chains, nodes) && b < BUCKETS && Total(nodes, chains[b], p) > 0
    ensures |heads| == BUCKETS && heads[b] != 0
  {
    ChainStart(heads, chains, nodes, b);
    TotalSomewhere(nodes, chains[b], p);
  }

  lemma HasHead(heads: seq<nat>, chains: seq<seq<nat>>, nodes: Nodes, slabs: map<nat, Page>, b: nat, p: nat)
    requires Lists(heads, chains, nodes) && Listed(chains, nodes, slabs) && b < BUCKETS && p != 0
    requires p in slabs && IsSlab(slabs[p]) && Bucket(slabs[p]) == b && HasRoom(Bits(slabs[p]))
    ensures |heads| == BUCKETS && heads[b] != 0
  {
    assert |chains| == BUCKETS;
    hide Lists, Total, HasRoom, Bits, IsSlab, Bucket;
    assert Expected(slabs, b, p);
    ListedHasHead(heads, chains, nodes, b, p);
  }

  // A page that comes first has room.
  lemma {:induction false} FrontHasRoom(heads: seq<nat>, chains: seq<seq<nat>>, nodes: Nodes, slabs: map<nat, Page>,
      b: nat)
    requires Lists(heads, chains, nodes) && Listed(chains, nodes, slabs) && b < BUCKETS
    requires FirstIsTaken(chains, nodes, b)
    ensures var p := FrontOf(chains, nodes, b);
            p in slabs && IsSlab(slabs[p]) && HasRoom(Bits(slabs[p]))
  {
    var els := nodes[chains[b][0]].elements;
    FrontAt(els, 0);
    CountIn(els, els[0]);
    TotalAtLeast(nodes, chains[b], 0, els[0]);
    ListedPage(chains, nodes, slabs, b, els[0]);
  }

  // What is listed has room.
  lemma ListedPage(chains: seq<seq<nat>>, nodes: Nodes, slabs: map<nat, Page>, b: nat, p: nat)
    requires Listed(chains, nodes, slabs) && b < |chains| && p != 0 && Total(nodes, chains[b], p) > 0
    ensures p in slabs && IsSlab(slabs[p]) && Bucket(slabs[p]) == b && HasRoom(Bits(slabs[p]))
  {
    hide Total;
    assert Expected(slabs, b, p);
  }

  // A page with a changed bitmap.
  ghost predicate Rewritten(slabs: map<nat, Page>, slabs': map<nat, Page>, b: nat, p: nat) {
    && p in slabs && IsSlab(slabs[p]) && Bucket(slabs[p]) == b
    && p in slabs' && IsSlab(slabs'[p]) && Bucket(slabs'[p]) == b
    && slabs' == slabs[p := slabs'[p]]
  }

  lemma {:induction false} DroppedListed(chains: seq<seq<nat>>, nodes: Nodes, slabs: map<nat, Page>,
      chains': seq<seq<nat>>, nodes': Nodes, slabs': map<nat, Page>, b: nat, p: nat)
    requires |chains| == |chains'| == BUCKETS && Listed(chains, nodes, slabs) && b < BUCKETS && p != 0
    requires Rewritten(slabs, slabs', b, p) && !HasRoom(Bits(slabs'[p]))
    requires Drops(chains, nodes, chains', nodes', b, p)
    ensures Listed(chains', nodes', slabs')
  {
    hide Total, HasRoom, Bits, Bucket, IsSlab;
    forall b', x | 0 <= b' < BUCKETS && x != 0
      ensures Total(nodes', chains'[b'], x) == if Expected(slabs', b', x) then 1 else 0
    {
      assert x != p ==> Expected(slabs', b', x) == Expected(slabs, b', x);
    }
  }

  lemma {:induction false} AddedListed(chains: seq<seq<nat>>, nodes: Nodes, slabs: map<nat, Page>,
      chains': seq<seq<nat>>, nodes': Nodes, slabs': map<nat, Page>, b: nat, p: nat)
    requires |chains| == |chains'| == BUCKETS && Listed(chains, nodes, slabs) && b < BUCKETS && p != 0
    requires Rewritten(slabs, slabs', b, p) && !HasRoom(Bits(slabs[p])) && HasRoom(Bits(slabs'[p]))
    requires Adds(chains, nodes, chains', nodes', b, p)
    ensures Listed(chains', nodes', slabs')
  {
    hide Total, HasRoom, Bits, Bucket, IsSlab;
    forall b', x | 0 <= b' < BUCKETS && x != 0
      ensures Total(nodes', chains'[b'], x) == if Expected(slabs', b', x) then 1 else 0
    {
      assert x != p ==> Expected(slabs', b', x) == Expected(slabs, b', x);
    }
  }

  lemma {:induction false} StillListed(chains: seq<seq<nat>>, nodes: Nodes, slabs: map<nat, Page>,
      slabs': map<nat, Page>, b: nat, p: nat)
    requires |chains| == BUCKETS && Listed(chains, nodes, slabs) && b < BUCKETS && p != 0
    requires Rewritten(slabs, slabs', b, p) && HasRoom(Bits(slabs[p])) == HasRoom(Bits(slabs'[p]))
    ensures Listed(chains, nodes, slabs')
  {
    hide Total, HasRoom, Bits, Bucket, IsSlab;
    forall b', x | 0 <= b' < BUCKETS && x != 0
      ensures Total(nodes, chains[b'], x) == if Expected(slabs', b', x) then 1 else 0
    {
      assert Expected(slabs', b', x) == Expected(slabs, b', x);
    }
  }

  lemma RoomAt(bits: seq<bool>, i: nat)
    requires i < |bits| && !bits[i]
    ensures HasRoom(bits)
  {
  }

  lemma BlockTaken(slabs: map<nat, Page>, slabs': map<nat, Page>, p: nat, i: nat)
    requires p in slabs && IsSlab(slabs[p]) && p in slabs' && IsSlab(slabs'[p]) && slabs' == slabs[p := slabs'[p]]
    requires i < |Bits(slabs[p])| && Bits(slabs'[p]) == Bits(slabs[p])[i := true]
    ensures forall q, j :: Live(slabs', q, j) <==> Live(slabs, q, j) || (q == p && j == i)
  {
    hide Bits, IsSlab;
  }

  lemma BlockReleased(slabs: map<nat, Page>, slabs': map<nat, Page>, p: nat, i: nat)
    requires p in slabs && IsSlab(slabs[p]) && p in slabs' && IsSlab(slabs'[p]) && slabs' == slabs[p := slabs'[p]]
    requires i < |Bits(slabs[p])| && Bits(slabs'[p]) == Bits(slabs[p])[i := false]
    ensures forall q, j :: Live(slabs', q, j) <==> Live(slabs, q, j) && !(q == p && j == i)
  {
    hide Bits, IsSlab;
  }

  lemma NotEmptyAt(chains: seq<seq<nat>>, nodes: Nodes, b: nat, i: nat)
    requires NoEmptyNodes(chains, nodes) && b < |chains| && i < |chains[b]| && chains[b][i] in nodes
    ensures !Empty(nodes[chains[b][i]].elements)
  {
    assert NoneEmpty(nodes, chains[b]) && chains[b][i] in chains[b];
  }

  lemma SharedUnlinked(slabs: map<nat, Page>, nodes: Nodes, pages: set<nat>, c: seq<nat>, i: nat)
    requires Shared(slabs, nodes, pages) && i < |c| && c[i] in nodes && (i > 0 ==> c[i - 1] in nodes)
    ensures c[i] in pages && slabs.Keys <= pages - {c[i]}
    ensures Shared(slabs, Unlinked(nodes, c, i), pages - {c[i]})
  {
    var nodes' := Unlinked(nodes, c, i);
    assert forall q :: q in nodes' <==> q in nodes && q != c[i];
    hide Unlinked;
  }

  lemma UnlinkedIs(nodes: Nodes, c: seq<nat>, i: nat)
    requires i < |c| && c[i] in nodes && (i > 0 ==> c[i - 1] in nodes)
    ensures Unlinked(nodes, c, i) ==
            (if i > 0 then nodes[c[i - 1] := nodes[c[i - 1]].(next := nodes[c[i]].next)] else nodes) - {c[i]}
  {
  }

  // While d is being removed from list b: the first i nodes are done.
  ghost predicate Removing(heads: seq<nat>, chains: seq<seq<nat>>, nodes: Nodes, chains0: seq<seq<nat>>,
      nodes0: Nodes, b: nat, i: nat, d: nat) {
    && Lists(heads, chains, nodes) && NoEmptyNodes(chains, nodes)
    && b < BUCKETS && i <= |chains[b]| && |chains0| == BUCKETS
    && (forall k :: 0 <= k < i ==> chains[b][k] in nodes && d !in nodes[chains[b][k]].elements)
    && forall b', x :: 0 <= b' < BUCKETS && x != 0 && !(b' == b && x == d) ==>
         Total(nodes, chains[b'], x) == Total(nodes0, chains0[b'], x)
  }

  lemma RemovingStarts(heads: seq<nat>, chains: seq<seq<nat>>, nodes: Nodes, b: nat, d: nat)
    requires Lists(heads, chains, nodes) && NoEmptyNodes(chains, nodes) && b < BUCKETS
    ensures Removing(heads, chains, nodes, chains, nodes, b, 0, d)
  {
  }

  // The node at hand, without d.
  lemma {:induction false} ElementsCleared(heads: seq<nat>, chains: seq<seq<nat>>, nodes: Nodes,
      chains0: seq<seq<nat>>, nodes0: Nodes, b: nat, i: nat, d: nat)
    requires Removing(heads, chains, nodes, chains0, nodes0, b, i, d) && i < |chains[b]| && d != 0
    ensures chains[b][i] in nodes
    ensures var p := chains[b][i];
            var els := Without(nodes[p].elements, d);
            var nodes' := nodes[p := nodes[p].(elements := els)];
            && Lists(heads, chains, nodes')
            && (forall b' :: 0 <= b' < BUCKETS && b' != b ==> NoneEmpty(nodes', chains[b']))
            && (forall b', x :: 0 <= b' < BUCKETS && x != 0 && !(b' == b && x == d) ==>
                  Total(nodes', chains[b'], x) == Total(nodes0, chains0[b'], x))
  {
    hide Total, Count, NoneEmpty, Lists;
    ChainStart(heads, chains, nodes, b);
    ChainNode(heads, chains, nodes, b, i);
    var p := chains[b][i];
    var els := Without(nodes[p].elements, d);
    var nodes' := nodes[p := nodes[p].(elements := els)];
    ListsChange(heads, chains, nodes, b, i, els);
    forall x | x != 0 && x != d
      ensures Total(nodes', chains[b], x) == Total(nodes, chains[b], x)
    {
      CountWithout(nodes[p].elements, d, x);
    }
  }

  lemma {:induction false} NodeKept(heads: seq<nat>, chains: seq<seq<nat>>, nodes: Nodes, chains0: seq<seq<nat>>,
      nodes0: Nodes, b: nat, i: nat, d: nat)
    requires Removing(heads, chains, nodes, chains0, nodes0, b, i, d) && i < |chains[b]| && d != 0
    requires chains[b][i] in nodes && !Empty(Without(nodes[chains[b][i]].elements, d))
    ensures var p := chains[b][i];
            var nodes' := nodes[p := nodes[p].(elements := Without(nodes[p].elements, d))];
            Removing(heads, chains, nodes', chains0, nodes0, b, i + 1, d)
  {
    ChainStart(heads, chains, nodes, b);
    ElementsCleared(heads, chains, nodes, chains0, nodes0, b, i, d);
    ChangedNotEmpty(chains, nodes, b, i, Without(nodes[chains[b][i]].elements, d));
    hide Lists, Total, NoneEmpty;
  }

  lemma {:induction false} NodeDropped(heads: seq<nat>, chains: seq<seq<nat>>, nodes: Nodes, chains0: seq<seq<nat>>,
      nodes0: Nodes, b: nat, i: nat, d: nat)
    requires Removing(heads, chains, nodes, chains0, nodes0, b, i, d) && i < |chains[b]| && d != 0
    requires chains[b][i] in nodes && Empty(Without(nodes[chains[b][i]].elements, d))
    ensures i > 0 ==> chains[b][i - 1] in nodes
    ensures var c := chains[b];
            var cleared := nodes[c[i] := nodes[c[i]].(elements := Without(nodes[c[i]].elements, d))];
            && Removing(if i == 0 then heads[b := nodes[c[i]].next] else heads, chains[b := Skip(c, i)],
                        Unlinked(cleared, c, i), chains0, nodes0, b, i, d)
  {
    hide Lists, Total, NoneEmpty, Unlinked, Skip, Empty, OthersSame;
    ChainStart(heads, chains, nodes, b);
    var c := chains[b];
    var cleared := nodes[c[i] := nodes[c[i]].(elements := Without(nodes[c[i]].elements, d))];
    ElementsCleared(heads, chains, nodes, chains0, nodes0, b, i, d);
    ListsRemove(heads, chains, cleared, b, i);
    SkipKeeps(heads, chains, nodes, b, i, d);
    var nodes', chains' := Unlinked(cleared, c, i), chains[b := Skip(c, i)];
    forall b' | 0 <= b' < BUCKETS
      ensures NoneEmpty(nodes', chains'[b'])
    {
      OthersNotEmpty(chains, cleared, nodes', b, b');
    }
    forall b', x | 0 <= b' < BUCKETS && x != 0 && !(b' == b && x == d)
      ensures Total(nodes', chains'[b'], x) == Total(nodes0, chains0[b'], x)
    {
      OthersTotal(chains, cleared, nodes', b, b', x);
    }
  }

  lemma OthersNotEmpty(chains: seq<seq<nat>>, nodes: Nodes, nodes': Nodes, b: nat, b': nat)
    requires OthersSame(chains, nodes, nodes', b) && b' < |chains|
    ensures b' != b && NoneEmpty(nodes, chains[b']) ==> NoneEmpty(nodes', chains[b'])
  {
  }

  lemma OthersTotal(chains: seq<seq<nat>>, nodes: Nodes, nodes': Nodes, b: nat, b': nat, x: nat)
    requires OthersSame(chains, nodes, nodes', b) && b' < |chains|
    ensures b' != b ==> Total(nodes', chains[b'], x) == Total(nodes, chains[b'], x)
  {
  }

  // The nodes that stay in the list keep their elements.
  lemma {:induction false} SkipKeeps(heads: seq<nat>, chains: seq<seq<nat>>, nodes: Nodes, b: nat, i: nat, d: nat)
    requires Lists(heads, chains, nodes) && NoEmptyNodes(chains, nodes) && b < BUCKETS && i < |chains[b]|
    requires forall k :: 0 <= k < i ==> chains[b][k] in nodes && d !in nodes[chains[b][k]].elements
    ensures chains[b][i] in nodes && (i > 0 ==> chains[b][i - 1] in nodes)
    ensures var c := chains[b];
            var cleared := nodes[c[i] := nodes[c[i]].(elements := Without(nodes[c[i]].elements, d))];
            var nodes' := Unlinked(cleared, c, i);
            && NoneEmpty(nodes', Skip(c, i))
            && i <= |Skip(c, i)|
            && forall k :: 0 <= k < i ==> Skip(c, i)[k] in nodes' && d !in nodes'[Skip(c, i)[k]].elements
  {
    hide Unlinked, Empty, Skip;
    var c := chains[b];
    assert c[i] in c && (i > 0 ==> c[i - 1] in c);
    var els := Without(nodes[c[i]].elements, d);
    var cleared := nodes[c[i] := nodes[c[i]].(elements := els)];
    var nodes' := Unlinked(cleared, c, i);
    ChainChange(nodes, heads[b], c, i, els);
    assert NoneEmpty(nodes, c);
    hide Lists, NoEmptyNodes;
    forall k | 0 <= k < |c| && k != i
      ensures c[k] in nodes' && c[k] in nodes && nodes'[c[k]].elements == nodes[c[k]].elements
    {
      UnlinkedAt(cleared, heads[b], c, i, k);
      assert c[k] != c[i];
    }
    hide Chain;
    SkipIs(c, i);
    forall q | q in Skip(c, i) && q in nodes'
      ensures !Empty(nodes'[q].elements)
    {
      var k :| 0 <= k < |c| && k != i && c[k] == q;
    }
  }

  lemma SkipIs(c: seq<nat>, i: nat)
    requires i < |c|
    ensures |Skip(c, i)| == |c| - 1 && forall k :: 0 <= k < i ==> Skip(c, i)[k] == c[k]
    ensures forall q :: q in Skip(c, i) ==> exists k :: 0 <= k < |c| && k != i && c[k] == q
  {
    forall q | q in Skip(c, i)
      ensures exists k :: 0 <= k < |c| && k != i && c[k] == q
    {
      var k :| 0 <= k < |Skip(c, i)| && Skip(c, i)[k] == q;
      assert q == c[if k < i then k else k + 1];
    }
  }

  lemma {:induction false} RemovingEnds(heads: seq<nat>, chains: seq<seq<nat>>, nodes: Nodes,
      chains0: seq<seq<nat>>, nodes0: Nodes, b: nat, d: nat)
    requires |chains| == BUCKETS && b < BUCKETS && d != 0
    requires Removing(heads, chains, nodes, chains0, nodes0, b, |chains[b]|, d)
    ensures Drops(chains0, nodes0, chains, nodes, b, d)
  {
    if Total(nodes, chains[b], d) > 0 {
      TotalSomewhere(nodes, chains[b], d);
    }
  }

  lemma ChainStart(heads: seq<nat>, chains: seq<seq<nat>>, nodes: Nodes, b: nat)
    requires Lists(heads, chains, nodes) && b < BUCKETS
    ensures |heads| == |chains| == BUCKETS && heads[b] == Link(chains[b], 0)
    ensures forall i :: 0 <= i < |chains[b]| ==> chains[b][i] != 0
  {
  }

  lemma ChainNode(heads: seq<nat>, chains: seq<seq<nat>>, nodes: Nodes, b: nat, i: nat)
    requires Lists(heads, chains, nodes) && b < BUCKETS && i < |chains[b]|
    ensures chains[b][i] in nodes && chains[b][i] != 0 && |nodes[chains[b][i]].elements| == ELEMENTS
    ensures nodes[chains[b][i]].next == Link(chains[b], i + 1)
  {
    assert LeadsOn(nodes, chains[b], i);
  }

  lemma {:induction false} PushedInto(heads: seq<nat>, chains: seq<seq<nat>>, nodes: Nodes,
      slabs: map<nat, Page>, pages: set<nat>, b: nat, i: nat, k: nat, d: nat)
    requires Lists(heads, chains, nodes) && NoEmptyNodes(chains, nodes) && Shared(slabs, nodes, pages)
    requires b < BUCKETS && i < |chains[b]| && k < ELEMENTS && d != 0
    requires chains[b][i] in nodes && |nodes[chains[b][i]].elements| == ELEMENTS
    requires nodes[chains[b][i]].elements[k] == 0
    ensures var p := chains[b][i];
            var nodes' := nodes[p := nodes[p].(elements := nodes[p].elements[k := d])];
            && Lists(heads, chains, nodes') && NoEmptyNodes(chains, nodes') && Shared(slabs, nodes', pages)
            && Adds(chains, nodes, chains, nodes', b, d)
  {
    var p, c := chains[b][i], chains[b];
    var els := nodes[p].elements;
    var nodes' := nodes[p := nodes[p].(elements := els[k := d])];
    hide NoEmptyNodes, Total, OthersSame, Count;
    ListsChange(heads, chains, nodes, b, i, els[k := d]);
    hide Lists;
    assert els[k := d][k] == d;
    ChangedNotEmpty(chains, nodes, b, i, els[k := d]);
    NoEmptyStep(chains, nodes, c, nodes', b);
    SharedChange(slabs, nodes, pages, p, els[k := d]);
    hide Shared;
    forall x | x != 0
      ensures Total(nodes', c, x) == Total(nodes, c, x) + if x == d then 1 else 0
    {
      CountSet(els, k, d, x);
    }
    AddsFrom(chains, nodes, c, nodes', b, d);
    SameChain(chains, b);
  }

  lemma ChangedNotEmpty(chains: seq<seq<nat>>, nodes: Nodes, b: nat, i: nat, els: seq<nat>)
    requires NoEmptyNodes(chains, nodes) && b < |chains| && i < |chains[b]| && chains[b][i] in nodes && !Empty(els)
    ensures NoneEmpty(nodes[chains[b][i] := nodes[chains[b][i]].(elements := els)], chains[b])
  {
    assert NoneEmpty(nodes, chains[b]);
    hide Empty;
  }

  lemma SharedChange(slabs: map<nat, Page>, nodes: Nodes, pages: set<nat>, p: nat, els: seq<nat>)
    requires Shared(slabs, nodes, pages) && p in nodes
    ensures Shared(slabs, nodes[p := nodes[p].(elements := els)], pages)
  {
  }

  lemma {:induction false} CountOne(d: nat, x: nat)
    requires d != 0 && x != 0
    ensures Count(Blank()[0 := d], x) == if x == d then 1 else 0
  {
    CountSet(Blank(), 0, d, x);
    CountIn(Blank(), x);
  }

  lemma {:induction false} PushedBehind(heads: seq<nat>, chains: seq<seq<nat>>, nodes: Nodes,
      slabs: map<nat, Page>, pages: set<nat>, b: nat, p: nat, d: nat)
    requires Lists(heads, chains, nodes) && NoEmptyNodes(chains, nodes) && Shared(slabs, nodes, pages)
    requires b < BUCKETS && d != 0 && p !in pages && p != 0
    ensures chains[b] != [] ==> chains[b][|chains[b]| - 1] in nodes && p !in nodes
    ensures var c, els := chains[b], Blank()[0 := d];
            var nodes' := if c == [] then nodes[p := Node(0, els)]
                          else nodes[p := Node(0, els)][c[|c| - 1] := nodes[p := Node(0, els)][c[|c| - 1]].(next := p)];
            && Lists(if c == [] then heads[b := p] else heads, chains[b := c + [p]], nodes')
            && NoEmptyNodes(chains[b := c + [p]], nodes') && Shared(slabs, nodes', pages + {p})
            && Adds(chains, nodes, chains[b := c + [p]], nodes', b, d)
  {
    var c, els := chains[b], Blank()[0 := d];
    hide Lists, NoEmptyNodes, Shared, Total, OthersSame, Count;
    NotUsed(slabs, nodes, pages, p);
    ListsAppend(heads, chains, nodes, b, p, els);
    assert els[0] == d;
    var nodes' := Appended(nodes, c, p, els);
    SharedAppend(slabs, nodes, pages, c, p, els);
    BehindNotEmpty(heads, chains, nodes, b, p, els);
    NoEmptyStep(chains, nodes, c + [p], nodes', b);
    forall x | x != 0
      ensures Total(nodes', c + [p], x) == Total(nodes, c, x) + if x == d then 1 else 0
    {
      CountOne(d, x);
    }
    AddsFrom(chains, nodes, c + [p], nodes', b, d);
  }

  lemma NodesDiffer(heads: seq<nat>, chains: seq<seq<nat>>, nodes: Nodes, b: nat, i: nat)
    requires Lists(heads, chains, nodes) && b < BUCKETS && i < |chains[b]|
    ensures i > 0 ==> chains[b][i] != chains[b][0]
  {
  }

  // The front after a new node was linked behind nodes that are full.
  lemma FrontBehind(heads: seq<nat>, chains: seq<seq<nat>>, nodes: Nodes, slabs: map<nat, Page>, pages: set<nat>,
      b: nat, p: nat, d: nat)
    requires Lists(heads, chains, nodes) && Shared(slabs, nodes, pages) && b < BUCKETS && d != 0 && p !in pages
    requires forall j :: 0 <= j < |chains[b]| ==> chains[b][j] in nodes && 0 !in nodes[chains[b][j]].elements
    ensures var c, els := chains[b], Blank()[0 := d];
            var nodes' := if c == [] then nodes[p := Node(0, els)]
                          else nodes[p := Node(0, els)][c[|c| - 1] := nodes[p := Node(0, els)][c[|c| - 1]].(next := p)];
            FrontOf(chains[b := c + [p]], nodes', b) ==
              if FirstIsTaken(chains, nodes, b) then FrontOf(chains, nodes, b) else d
  {
    FrontOne(d);
    NotUsed(slabs, nodes, pages, p);
    if chains[b] != [] {
      var els := nodes[chains[b][0]].elements;
      assert |els| == 511 && els[0] in els;
    }
  }

  // The blocks before the first free one are in use.
  lemma LowerTaken(slabs: map<nat, Page>, p: nat, i: nat)
    requires p in slabs && IsSlab(slabs[p]) && i < |Bits(slabs[p])|
    requires forall j :: 0 <= j < i ==> Bits(slabs[p])[j]
    ensures forall j: nat :: j < i ==> Live(slabs, p, j)
  {
    hide Bits, IsSlab;
  }

  lemma NotUsed(slabs: map<nat, Page>, nodes: Nodes, pages: set<nat>, p: nat)
    requires Shared(slabs, nodes, pages) && p !in pages
    ensures p !in nodes && p !in slabs
  {
  }

  lemma SharedAppend(slabs: map<nat, Page>, nodes: Nodes, pages: set<nat>, c: seq<nat>, p: nat, els: seq<nat>)
    requires Shared(slabs, nodes, pages) && p !in pages && p != 0 && (c != [] ==> c[|c| - 1] in nodes)
    ensures Shared(slabs, Appended(nodes, c, p, els), pages + {p})
  {
    var nodes' := Appended(nodes, c, p, els);
    assert forall q :: q in nodes' <==> q in nodes || q == p;
    hide Appended;
  }

  lemma NoEmptyStep(chains: seq<seq<nat>>, nodes: Nodes, c: seq<nat>, nodes': Nodes, b: nat)
    requires b < |chains| && NoEmptyNodes(chains, nodes) && OthersSame(chains, nodes, nodes', b)
    requires NoneEmpty(nodes', c)
    ensures NoEmptyNodes(chains[b := c], nodes')
  {
    hide NoneEmpty, Total;
  }

  lemma BehindNotEmpty(heads: seq<nat>, chains: seq<seq<nat>>, nodes: Nodes, b: nat, p: nat, els: seq<nat>)
    requires Lists(heads, chains, nodes) && b < BUCKETS && NoEmptyNodes(chains, nodes) && p !in nodes
    requires !Empty(els) && (chains[b] != [] ==> chains[b][|chains[b]| - 1] in nodes)
    ensures NoneEmpty(Appended(nodes, chains[b], p, els), chains[b] + [p])
  {
    var c := chains[b];
    forall q | q in c
      ensures q in nodes && !Empty(nodes[q].elements)
    {
      Appears(heads, chains, nodes, b, q);
      assert NoneEmpty(nodes, c);
    }
    hide Lists, NoEmptyNodes, Empty;
  }

  lemma Appears(heads: seq<nat>, chains: seq<seq<nat>>, nodes: Nodes, b: nat, q: nat)
    requires Lists(heads, chains, nodes) && b < BUCKETS
    ensures q in chains[b] ==> q in nodes
  {
    if q in chains[b] {
      NodeOfChain(nodes, heads[b], chains[b], q);
    }
  }

  // ---------------------------------------------------------------- addresses

  // The bytes of block i of page p.
  ghost predicate InBlock(slabs: map<nat, Page>, p: nat, i: nat, a: nat)
    requires p in slabs && IsSlab(slabs[p])
  {
    var s := SizeOf(Bucket(slabs[p]));
    p * PAGE + i * s <= a < p * PAGE + i * s + s
  }

  // Any address within a block leads back to its page and its number: free and size find what malloc
  // gave, and no block reaches into the bitmap.
  lemma {:induction false} BlockOfAddress(slabs: map<nat, Page>, p: nat, i: nat, a: nat)
    requires p in slabs && IsSlab(slabs[p]) && i < Blocks(Bucket(slabs[p])) && InBlock(slabs, p, i, a)
    ensures a / PAGE == p && a % PAGE / SizeOf(Bucket(slabs[p])) == i && a % PAGE < BitmapAt(Bucket(slabs[p]))
  {
    var b := Bucket(slabs[p]);
    var s := SizeOf(b);
    BlockEnds(b, i);
    var o := a - p * PAGE;
    assert a == p * PAGE + o && o < PAGE;
    assert a / PAGE == p && a % PAGE == o;
    Divided(b, i, o);
  }

  // Division by one of the ten sizes.
  lemma Divided(b: nat, i: nat, o: nat)
    requires b < BUCKETS && i * SizeOf(b) <= o < i * SizeOf(b) + SizeOf(b)
    ensures o / SizeOf(b) == i
  {
  }

  // Different blocks have no byte in common.
  lemma {:induction false} BlocksApart(slabs: map<nat, Page>, p: nat, i: nat, q: nat, j: nat, a: nat)
    requires p in slabs && IsSlab(slabs[p]) && i < Blocks(Bucket(slabs[p]))
    requires q in slabs && IsSlab(slabs[q]) && j < Blocks(Bucket(slabs[q]))
    requires InBlock(slabs, p, i, a) && InBlock(slabs, q, j, a)
    ensures p == q && i == j
  {
    BlockOfAddress(slabs, p, i, a);
    BlockOfAddress(slabs, q, j, a);
  }
}
