/** The page allocator of the kernel heap: src/high/memory/heap.cpp:122-285.

    It searches the page tables themselves for a page that is not mapped.  An upper entry carries a
    `full` bit that says whether everything below it is taken, so that the search never looks into a
    full subtree.  Two points are repaired, each marked REPAIR: a new table is cleared, and the frame of
    an entry is read before the entry is cleared.

    What the tables hold is seen here as a partial map from paths to present entries, of which every
    step of the allocator changes one. */
module PageHeap {
  import opened Common
  import opened PageTables
  import opened Paging

  // The root entries of 96 TiB to 116 TiB: page allocator and slab allocator.
  const HEAP_LOW := 192
  const HEAP_HIGH := 232

  predicate InHeap(p: seq<nat>) {
    p != [] && HEAP_LOW <= p[0] < HEAP_HIGH
  }

  // ---------------------------------------------------------------- what the tables keep

  // The frame that belongs to a path: that of a table, or that of a mapped heap page.
  ghost function OwnedAt(mem: Memory, root: nat, p: seq<nat>): Option<nat> {
    if p == [] then Some(root)
    else if |p| > 4 || Slot(mem, root, p).None? then None
    else
      var e := Slot(mem, root, p).value;
      if |p| == 4 then if InHeap(p) then Some(e.frame) else None
      else if Links(e, |p| - 1) then Some(e.frame)
      else None
  }

  ghost predicate Owned(mem: Memory, root: nat, f: nat) {
    exists p: seq<nat> :: OwnedAt(mem, root, p) == Some(f)
  }

  // Every usable frame is exactly one of: free, a table, a mapped heap page, or in use elsewhere.
  ghost predicate Conserved(mem: Memory, root: nat, free: set<nat>, elsewhere: set<nat>, usable: set<nat>) {
    && elsewhere !! free
    && (forall p :: OwnedAt(mem, root, p).Some? ==>
          OwnedAt(mem, root, p).value !in free && OwnedAt(mem, root, p).value !in elsewhere)
    && (forall p, q | OwnedAt(mem, root, p).Some? && OwnedAt(mem, root, q).Some? ::
          OwnedAt(mem, root, p).value == OwnedAt(mem, root, q).value ==> p == q)
    && (forall f: nat :: f in usable <==> f in free || f in elsewhere || Owned(mem, root, f))
  }

  // An entry of the heap: the kernel is allowed everything and the user nothing, the page is cached as usual,
  // and is neither large nor global.
  ghost predicate ForKernel(e: Entry) {
    e.write && !e.user && !e.pageSize && !e.writeThrough && !e.cacheDisabled && !e.global
  }

  ghost predicate Granted(mem: Memory, root: nat) {
    forall p :: 0 < |p| <= 4 && InHeap(p) && Slot(mem, root, p).Some? ==>
      ForKernel(Slot(mem, root, p).value)
  }

  ghost predicate HeapInv(mem: Memory, root: nat, free: set<nat>, elsewhere: set<nat>, usable: set<nat>) {
    Tree(mem, root, free) && Covered(mem, root) && Granted(mem, root) && Conserved(mem, root, free, elsewhere, usable)
  }

  // ---------------------------------------------------------------- the full bit

  ghost predicate FullAt(mem: Memory, root: nat, p: seq<nat>)
    requires p != []
  {
    Slot(mem, root, p).Some? && Slot(mem, root, p).value.full
  }

  ghost predicate FullBelow(mem: Memory, root: nat, p: seq<nat>) {
    forall i :: 0 <= i < 512 ==> FullAt(mem, root, p + [i])
  }

  ghost predicate EmptyBelow(mem: Memory, root: nat, p: seq<nat>) {
    forall i :: 0 <= i < 512 ==> Slot(mem, root, p + [i]).None?
  }

  // A present heap entry tells the truth: a page is full, and an upper entry is full exactly if all 512
  // entries below it are present and full.
  ghost predicate Truthful(mem: Memory, root: nat, p: seq<nat>) {
    InHeap(p) && Slot(mem, root, p).Some? ==>
      (Slot(mem, root, p).value.full <==> |p| == 4 || FullBelow(mem, root, p))
  }

  // All entries are truthful, except possibly those on the way to `path`.
  ghost predicate IndexedBut(mem: Memory, root: nat, path: seq<nat>) {
    forall p :: 0 < |p| <= 4 && !(p <= path) ==> Truthful(mem, root, p)
  }

  ghost predicate Indexed(mem: Memory, root: nat) {
    IndexedBut(mem, root, [])
  }

  // Below a full entry every page is taken.
  lemma {:induction false} FullMeansLive(mem: Memory, root: nat, page: seq<nat>, d: nat)
    requires Indexed(mem, root) && IsPage(page) && InHeap(page) && 0 < d <= 4
    requires FullAt(mem, root, page[..d])
    ensures Slot(mem, root, page).Some?
    decreases 4 - d
  {
    if d == 4 {
      assert page[..4] == page;
    } else {
      var c := page[..d];
      assert c[0] == page[0];
      assert Truthful(mem, root, c);
      assert page[..d + 1] == c + [page[d]];
      FullMeansLive(mem, root, page, d + 1);
    }
  }

  // ---------------------------------------------------------------- one step changes one entry

  ghost predicate OneChange(mem: Memory, mem': Memory, root: nat, c: seq<nat>) {
    forall q :: 0 < |q| <= 4 && q != c ==> Slot(mem', root, q) == Slot(mem, root, q)
  }

  lemma OwnedElsewhere(mem: Memory, mem': Memory, root: nat, c: seq<nat>)
    requires OneChange(mem, mem', root, c)
    ensures forall q :: q != c ==> OwnedAt(mem', root, q) == OwnedAt(mem, root, q)
  {
  }

  lemma {:induction false} OwnMore(mem: Memory, mem': Memory, root: nat, free: set<nat>, elsewhere: set<nat>,
      usable: set<nat>, c: seq<nat>, g: nat)
    requires Conserved(mem, root, free, elsewhere, usable) && g in free && OneChange(mem, mem', root, c)
    requires OwnedAt(mem, root, c).None? && OwnedAt(mem', root, c) == Some(g)
    ensures Conserved(mem', root, free - {g}, elsewhere, usable)
  {
    OwnedElsewhere(mem, mem', root, c);
    hide OwnedAt, OneChange;
    forall f: nat
      ensures Owned(mem', root, f) <==> Owned(mem, root, f) || f == g
    {
      if Owned(mem, root, f) {
        var p :| OwnedAt(mem, root, p) == Some(f);
        assert OwnedAt(mem', root, p) == Some(f);
      }
      if Owned(mem', root, f) {
        var p :| OwnedAt(mem', root, p) == Some(f);
        assert p != c ==> OwnedAt(mem, root, p) == Some(f);
      }
    }
  }

  lemma {:induction false} OwnLess(mem: Memory, mem': Memory, root: nat, free: set<nat>, elsewhere: set<nat>,
      usable: set<nat>, c: seq<nat>, g: nat)
    requires Conserved(mem, root, free, elsewhere, usable) && OneChange(mem, mem', root, c)
    requires OwnedAt(mem, root, c) == Some(g) && OwnedAt(mem', root, c).None?
    ensures Conserved(mem', root, free + {g}, elsewhere, usable)
  {
    OwnedElsewhere(mem, mem', root, c);
    hide OwnedAt, OneChange;
    forall f: nat
      ensures Owned(mem, root, f) <==> Owned(mem', root, f) || f == g
    {
      if Owned(mem', root, f) {
        var p :| OwnedAt(mem', root, p) == Some(f);
        assert OwnedAt(mem, root, p) == Some(f);
      }
      if Owned(mem, root, f) {
        var p :| OwnedAt(mem, root, p) == Some(f);
        assert p != c ==> OwnedAt(mem', root, p) == Some(f);
      }
    }
  }

  lemma {:induction false} OwnSame(mem: Memory, mem': Memory, root: nat, free: set<nat>, elsewhere: set<nat>,
      usable: set<nat>, c: seq<nat>)
    requires Conserved(mem, root, free, elsewhere, usable) && OneChange(mem, mem', root, c)
    requires OwnedAt(mem', root, c) == OwnedAt(mem, root, c)
    ensures Conserved(mem', root, free, elsewhere, usable)
  {
    OwnedElsewhere(mem, mem', root, c);
    hide OwnedAt, OneChange;
    forall f: nat
      ensures Owned(mem', root, f) <==> Owned(mem, root, f)
    {
      if Owned(mem', root, f) {
        var p :| OwnedAt(mem', root, p) == Some(f);
        assert OwnedAt(mem, root, p) == Some(f);
      }
      if Owned(mem, root, f) {
        var p :| OwnedAt(mem, root, p) == Some(f);
        assert OwnedAt(mem', root, p) == Some(f);
      }
    }
  }

  // Above a present entry there is one that leads to it.
  lemma SlotAbove(mem: Memory, root: nat, q: seq<nat>)
    requires 2 <= |q| <= 4 && Slot(mem, root, q).Some?
    ensures Slot(mem, root, q[..|q| - 1]).Some?
  {
    assert TableAt(mem, root, q[..|q| - 1]).Some?;
  }

  lemma {:induction false} RightsStep(mem: Memory, mem': Memory, root: nat, c: seq<nat>)
    requires Covered(mem, root) && Granted(mem, root) && OneChange(mem, mem', root, c)
    requires 0 < |c| <= 4 && InHeap(c)
    requires Slot(mem', root, c).Some? ==> ForKernel(Slot(mem', root, c).value)
    ensures Covered(mem', root) && Granted(mem', root)
  {
    hide TableAt, EntryAt;
    assert Granted(mem', root);
    forall q | 2 <= |q| <= 4 && EntryAt(mem', root, q).Some? && EntryAt(mem', root, q).value.present
      ensures var up := EntryAt(mem', root, q[..|q| - 1]);
              && up.Some?
              && (EntryAt(mem', root, q).value.write ==> up.value.write)
              && (EntryAt(mem', root, q).value.user ==> up.value.user)
    {
      var up := q[..|q| - 1];
      SlotAbove(mem', root, q);
      assert up[0] == q[0];
      if !InHeap(q) {
        assert Slot(mem', root, q) == Slot(mem, root, q) && Slot(mem', root, up) == Slot(mem, root, up);
        CoveredAt(mem, root, q);
      }
    }
  }

  lemma ProperPrefix(p: seq<nat>, c: seq<nat>)
    requires c != [] && p != c
    ensures p <= c ==> p <= c[..|c| - 1]
  {
  }

  lemma {:induction false} IndexStep(mem: Memory, mem': Memory, root: nat, c: seq<nat>)
    requires OneChange(mem, mem', root, c) && 0 < |c| <= 4 && IndexedBut(mem, root, c)
    requires Truthful(mem', root, c)
    ensures IndexedBut(mem', root, c[..|c| - 1])
  {
    hide Slot;
    var up := c[..|c| - 1];
    forall p | 0 < |p| <= 4 && !(p <= up)
      ensures Truthful(mem', root, p)
    {
      if p != c {
        ProperPrefix(p, c);
        assert Truthful(mem, root, p);
        if |p| < 4 {
          SameBelow(mem, mem', root, c, p);
        }
      }
    }
  }

  lemma SameBelow(mem: Memory, mem': Memory, root: nat, c: seq<nat>, p: seq<nat>)
    requires OneChange(mem, mem', root, c) && |p| < 4 && c != [] && p != c[..|c| - 1]
    ensures FullBelow(mem', root, p) == FullBelow(mem, root, p)
    ensures EmptyBelow(mem', root, p) == EmptyBelow(mem, root, p)
  {
    hide Slot;
    forall i | 0 <= i < 512
      ensures Slot(mem', root, p + [i]) == Slot(mem, root, p + [i])
    {
      assert (p + [i])[..|p|] == p;
    }
  }

  lemma IndexedFurther(mem: Memory, root: nat, path: seq<nat>, c: seq<nat>)
    requires IndexedBut(mem, root, path) && path <= c
    ensures IndexedBut(mem, root, c)
  {
  }

  // ---------------------------------------------------------------- the steps

  // The entry the allocator puts into an empty slot (lines 154-164).
  function NewEntry(g: nat): Entry {
    ZERO.(present := true, write := true, frame := g)
  }

  // The place of an entry: slot i of table t, which has the given path.
  ghost predicate Place(mem: Memory, root: nat, free: set<nat>, t: nat, path: seq<nat>, i: nat) {
    Tree(mem, root, free) && IsPath(path) && |path| <= 3 && TableAt(mem, root, path) == Some(t) && i < 512
  }

  lemma {:induction false} PlaceSlot(mem: Memory, root: nat, free: set<nat>, t: nat, path: seq<nat>, i: nat)
    requires Place(mem, root, free, t, path, i)
    ensures t in mem && |mem[t]| == 512 && EntryAt(mem, root, path + [i]) == Some(mem[t][i])
    ensures Slot(mem, root, path + [i]) == if mem[t][i].present then Some(mem[t][i]) else None
    ensures (path + [i])[..|path|] == path
  {
    EntryOfTable(mem, root, path, i);
  }

  // An entry of a new table at the given depth that nothing can go wrong with: absent, and clean where
  // the tables are expected to be.
  predicate Harmless(e: Entry, depth: nat) {
    !e.present && (depth < 3 ==> !e.pageSize && !e.write && !e.user)
  }

  // Hanging in a new table without present entries.
  lemma {:induction false} LinkStep(mem: Memory, root: nat, free: set<nat>, t: nat, path: seq<nat>, i: nat, g: nat,
      entries: seq<Entry>)
    requires |entries| == 512 && forall j :: 0 <= j < 512 ==> Harmless(entries[j], |path| + 1)
    requires Place(mem, root, free, t, path, i) && |path| <= 2 && Slot(mem, root, path + [i]).None? && g in free
    ensures t in mem && i < |mem[t]| && g != t
    ensures var mem' := LinkNew(mem, t, i, NewEntry(g), entries);
            && Tree(mem', root, free - {g}) && OneChange(mem, mem', root, path + [i])
            && Slot(mem', root, path + [i]) == Some(NewEntry(g)) && EmptyBelow(mem', root, path + [i])
  {
    PlaceSlot(mem, root, free, t, path, i);
    TableInMemory(mem, root, free, path);
    hide TableAt, EntryAt, Tree;
    var c, e := path + [i], NewEntry(g);
    var mem' := LinkNew(mem, t, i, e, entries);
    assert CanLink(mem, root, free, path, i, e, entries);
    LinkTree(mem, root, free, path, i, e, entries);
    forall q | 0 < |q| <= 4
      ensures q != c ==> Slot(mem', root, q) == Slot(mem, root, q)
      ensures c < q ==> Slot(mem', root, q).None?
      ensures q == c ==> Slot(mem', root, q) == Some(e)
    {
      LinkAt(mem, root, free, path, i, e, entries, q);
    }
  }

  // Writing a leaf.
  lemma {:induction false} LeafStep(mem: Memory, root: nat, free: set<nat>, t: nat, path: seq<nat>, i: nat, e: Entry)
    requires Place(mem, root, free, t, path, i) && |path| == 3
    ensures t in mem && i < |mem[t]|
    ensures var mem' := SetEntry(mem, t, i, e);
            && Tree(mem', root, free) && OneChange(mem, mem', root, path + [i])
            && Slot(mem', root, path + [i]) == if e.present then Some(e) else None
  {
    PlaceSlot(mem, root, free, t, path, i);
    hide TableAt, EntryAt, Tree;
    var c := path + [i];
    SetLeafTree(mem, root, free, c, e);
    SetHere(mem, root, free, path, i, e);
    forall q | 0 < |q| <= 4 && q != c
      ensures Slot(SetEntry(mem, t, i, e), root, q) == Slot(mem, root, q)
    {
      SetElsewhere(mem, root, free, path, i, e, q);
    }
  }

  // Writing the full bit of an upper entry.
  lemma {:induction false} MarkStep(mem: Memory, root: nat, free: set<nat>, t: nat, path: seq<nat>, i: nat, full: bool)
    requires Place(mem, root, free, t, path, i) && |path| <= 2 && Slot(mem, root, path + [i]).Some?
    requires Links(Slot(mem, root, path + [i]).value, |path|)
    ensures t in mem && i < |mem[t]|
    ensures var mem' := SetEntry(mem, t, i, mem[t][i].(full := full));
            && Tree(mem', root, free) && OneChange(mem, mem', root, path + [i])
            && Slot(mem', root, path + [i]) == Some(Slot(mem, root, path + [i]).value.(full := full))
  {
    PlaceSlot(mem, root, free, t, path, i);
    hide TableAt, EntryAt, Tree;
    var c, e := path + [i], mem[t][i].(full := full);
    SetTree(mem, root, free, path, i, e);
    SetHere(mem, root, free, path, i, e);
    forall q | 0 < |q| <= 4 && q != c
      ensures Slot(SetEntry(mem, t, i, e), root, q) == Slot(mem, root, q)
    {
      SetSameLink(mem, root, free, path, i, e, q);
    }
  }

  // Taking out an upper entry below which nothing is present.
  lemma {:induction false} UnlinkStep(mem: Memory, root: nat, free: set<nat>, t: nat, path: seq<nat>, i: nat)
    requires Place(mem, root, free, t, path, i) && |path| <= 2
    requires TableAt(mem, root, path + [i]).Some? && EmptyBelow(mem, root, path + [i])
    ensures t in mem && i < |mem[t]|
    ensures var mem' := SetEntry(mem, t, i, ZERO);
            && Tree(mem', root, free + {TableAt(mem, root, path + [i]).value})
            && OneChange(mem, mem', root, path + [i]) && Slot(mem', root, path + [i]).None?
  {
    PlaceSlot(mem, root, free, t, path, i);
    var c := path + [i];
    var mem' := SetEntry(mem, t, i, ZERO);
    forall q | |q| <= 4
      ensures Avoids(q, c) ==> TableAt(mem', root, q) == TableAt(mem, root, q)
                               && (q != [] ==> EntryAt(mem', root, q) == EntryAt(mem, root, q))
      ensures q == c ==> EntryAt(mem', root, q) == Some(ZERO) && TableAt(mem', root, q).None?
      ensures c < q ==> EntryAt(mem', root, q).None? && TableAt(mem', root, q).None? && Slot(mem, root, q).None?
    {
      SetHere(mem, root, free, path, i, ZERO);
      if Avoids(q, c) {
        SetElsewhere(mem, root, free, path, i, ZERO, q);
      } else if q != c {
        NoneBelow(mem', root, c, q);
        EmptyMeansNone(mem, root, free, c, q);
      }
    }
    assert Tree(mem', root, free + {TableAt(mem, root, c).value}) by { hide EntryAt; }
  }

  lemma {:induction false} EmptyMeansNone(mem: Memory, root: nat, free: set<nat>, c: seq<nat>, q: seq<nat>)
    requires Tree(mem, root, free) && c < q && EmptyBelow(mem, root, c) && |q| <= 4
    ensures Slot(mem, root, q).None?
  {
    var x := q[..|c| + 1];
    if q[|c|] < 512 {
      assert x == c + [q[|c|]];
      if q != x {
        NoneBelow(mem, root, x, q);
      }
    } else {
      if EntryAt(mem, root, x).Some? {
        TableInMemory(mem, root, free, x[..|x| - 1]);
      }
      if q != x {
        NoneBelow(mem, root, x, q);
      }
    }
  }

  // ---------------------------------------------------------------- what the processor sees

  lemma {:induction false} SlotsDecideWalk(mem: Memory, mem': Memory, root: nat, page: seq<nat>)
    requires |page| == 4 && Covered(mem, root) && Covered(mem', root)
    requires forall d :: 2 <= d <= 3 ==>
               Slot(mem', root, page[..d]) == Slot(mem, root, page[..d])
               || (!Large(Slot(mem', root, page[..d])) && !Large(Slot(mem, root, page[..d])))
    requires Slot(mem', root, page) == Slot(mem, root, page)
    ensures Walk(mem', root, 0, page) == Walk(mem, root, 0, page)
  {
    hide Walk, TableAt, EntryAt, Covered;
    WalkIsEntries(mem, root, page);
    WalkIsEntries(mem', root, page);
    EffectiveRights(mem, root, page);
    EffectiveRights(mem', root, page);
    assert Large(EntryAt(mem, root, page[..2])) == Large(Slot(mem, root, page[..2]));
    assert Large(EntryAt(mem, root, page[..3])) == Large(Slot(mem, root, page[..3]));
    assert Large(EntryAt(mem', root, page[..2])) == Large(Slot(mem', root, page[..2]));
    assert Large(EntryAt(mem', root, page[..3])) == Large(Slot(mem', root, page[..3]));
  }

  // A change of one heap entry is seen at that page only, and not at all if it is an upper entry.
  lemma {:induction false} StepKeepsWalks(mem: Memory, mem': Memory, root: nat, c: seq<nat>)
    requires Covered(mem, root) && Covered(mem', root) && Granted(mem, root) && Granted(mem', root)
    requires OneChange(mem, mem', root, c) && 0 < |c| <= 4 && InHeap(c)
    ensures OthersKept(mem, mem', root, c)
  {
    hide Slot, Walk, TableAt, EntryAt, Covered;
    forall page | |page| == 4 && page != c
      ensures Walk(mem', root, 0, page) == Walk(mem, root, 0, page)
    {
      assert |page[..2]| == 2 && |page[..3]| == 3;
      SlotsDecideWalk(mem, mem', root, page);
    }
  }

  // A heap page is mapped exactly if its entry is present.
  lemma {:induction false} HeapWalk(mem: Memory, root: nat, page: seq<nat>)
    requires Covered(mem, root) && Granted(mem, root) && IsPage(page) && InHeap(page)
    ensures Walk(mem, root, 0, page) ==
            if Slot(mem, root, page).None? then None
            else Some(Access(Slot(mem, root, page).value.frame, true, false, false, false))
  {
    assert |page[..2]| == 2 && |page[..3]| == 3 && page[..2][0] == page[0] && page[..3][0] == page[0];
    assert Slot(mem, root, page[..2]).Some? ==> !Slot(mem, root, page[..2]).value.pageSize;
    assert Slot(mem, root, page[..3]).Some? ==> !Slot(mem, root, page[..3]).value.pageSize;
    SmallWalk(mem, root, page);
  }

  // ---------------------------------------------------------------- the steps keep the invariant

  // One step at entry i of the table t at `path`, after which the invariant holds again.
  ghost predicate Step(mem: Memory, mem': Memory, root: nat, free: set<nat>, free': set<nat>, elsewhere: set<nat>,
      usable: set<nat>, c: seq<nat>) {
    HeapInv(mem', root, free', elsewhere, usable) && OneChange(mem, mem', root, c) && OthersKept(mem, mem', root, c)
  }

  lemma {:induction false} TakeStep(mem: Memory, root: nat, free: set<nat>, elsewhere: set<nat>, usable: set<nat>,
      t: nat, path: seq<nat>, i: nat, g: nat)
    requires HeapInv(mem, root, free, elsewhere, usable) && Place(mem, root, free, t, path, i)
    requires InHeap(path + [i]) && Slot(mem, root, path + [i]).None? && g in free
    ensures t in mem && i < |mem[t]| && g != t
    ensures var mem' := if |path| < 3 then LinkNew(mem, t, i, NewEntry(g), Cleared())
                        else SetEntry(mem, t, i, NewEntry(g));
            && Step(mem, mem', root, free, free - {g}, elsewhere, usable, path + [i])
            && Slot(mem', root, path + [i]) == Some(NewEntry(g))
            && (|path| < 3 ==> EmptyBelow(mem', root, path + [i]))
  {
    hide Tree, Covered, Granted, Conserved, TableAt, EntryAt, Slot, Walk;
    var c := path + [i];
    TableInMemory(mem, root, free, path);
    if |path| < 3 {
      LinkStep(mem, root, free, t, path, i, g, Cleared());
    } else {
      LeafStep(mem, root, free, t, path, i, NewEntry(g));
      TreeShrinks(SetEntry(mem, t, i, NewEntry(g)), root, free, free - {g});
    }
    var mem' := if |path| < 3 then LinkNew(mem, t, i, NewEntry(g), Cleared()) else SetEntry(mem, t, i, NewEntry(g));
    RightsStep(mem, mem', root, c);
    OwnMore(mem, mem', root, free, elsewhere, usable, c, g);
    StepKeepsWalks(mem, mem', root, c);
  }

  lemma {:induction false} FullStep(mem: Memory, root: nat, free: set<nat>, elsewhere: set<nat>, usable: set<nat>,
      t: nat, path: seq<nat>, i: nat, full: bool)
    requires HeapInv(mem, root, free, elsewhere, usable) && Place(mem, root, free, t, path, i)
    requires InHeap(path + [i]) && Slot(mem, root, path + [i]).Some?
    ensures t in mem && i < |mem[t]|
    ensures var mem' := SetEntry(mem, t, i, mem[t][i].(full := full));
            && Step(mem, mem', root, free, free, elsewhere, usable, path + [i])
            && Slot(mem', root, path + [i]) == Some(Slot(mem, root, path + [i]).value.(full := full))
  {
    PlaceSlot(mem, root, free, t, path, i);
    GrantedAt(mem, root, path + [i]);
    hide Tree, Covered, Granted, Conserved, TableAt, EntryAt, Slot, Walk;
    var c := path + [i];
    if |path| < 3 {
      MarkStep(mem, root, free, t, path, i, full);
    } else {
      LeafStep(mem, root, free, t, path, i, mem[t][i].(full := full));
    }
    var mem' := SetEntry(mem, t, i, mem[t][i].(full := full));
    RightsStep(mem, mem', root, c);
    OwnSame(mem, mem', root, free, elsewhere, usable, c);
    StepKeepsWalks(mem, mem', root, c);
  }

  lemma GrantedAt(mem: Memory, root: nat, p: seq<nat>)
    requires Granted(mem, root) && 0 < |p| <= 4 && InHeap(p) && Slot(mem, root, p).Some?
    ensures ForKernel(Slot(mem, root, p).value) && Slot(mem, root, p).value.present
  {
  }

  lemma {:induction false} ClearStep(mem: Memory, root: nat, free: set<nat>, elsewhere: set<nat>, usable: set<nat>,
      t: nat, path: seq<nat>, i: nat)
    requires HeapInv(mem, root, free, elsewhere, usable) && Place(mem, root, free, t, path, i)
    requires InHeap(path + [i]) && Slot(mem, root, path + [i]).Some?
    requires |path| < 3 ==> EmptyBelow(mem, root, path + [i])
    ensures t in mem && i < |mem[t]|
    ensures var g := Slot(mem, root, path + [i]).value.frame;
            && g !in free
            && Step(mem, SetEntry(mem, t, i, ZERO), root, free, free + {g}, elsewhere, usable, path + [i])
            && Slot(SetEntry(mem, t, i, ZERO), root, path + [i]).None?
  {
    var c := path + [i];
    PlaceSlot(mem, root, free, t, path, i);
    GrantedAt(mem, root, c);
    var mem', g := SetEntry(mem, t, i, ZERO), mem[t][i].frame;
    assert OwnedAt(mem, root, c) == Some(g) && g !in free;
    hide Covered, Granted, EntryAt, Walk, Slot;
    if |path| < 3 {
      TableBySlot(mem, root, c);
      UnlinkStep(mem, root, free, t, path, i);
    } else {
      LeafStep(mem, root, free, t, path, i, ZERO);
      LeafIsNoTable(mem, root, free, elsewhere, usable, c, g);
      LeafFreed(mem, mem', root, free, c, g);
    }
    hide Tree, Conserved, TableAt;
    RightsStep(mem, mem', root, c);
    OwnLess(mem, mem', root, free, elsewhere, usable, c, g);
    StepKeepsWalks(mem, mem', root, c);
  }

  lemma LeafIsNoTable(mem: Memory, root: nat, free: set<nat>, elsewhere: set<nat>, usable: set<nat>, c: seq<nat>,
      g: nat)
    requires Conserved(mem, root, free, elsewhere, usable) && |c| == 4 && OwnedAt(mem, root, c) == Some(g)
    ensures forall p :: |p| <= 3 && TableAt(mem, root, p).Some? ==> TableAt(mem, root, p).value != g
  {
    forall p | |p| <= 3 && TableAt(mem, root, p).Some?
      ensures OwnedAt(mem, root, p) == TableAt(mem, root, p)
    {
    }
  }

  lemma LeafFreed(mem: Memory, mem': Memory, root: nat, free: set<nat>, c: seq<nat>, g: nat)
    requires Tree(mem', root, free) && OneChange(mem, mem', root, c) && |c| == 4
    requires forall p :: |p| <= 3 && TableAt(mem, root, p).Some? ==> TableAt(mem, root, p).value != g
    ensures Tree(mem', root, free + {g})
  {
    forall p | |p| <= 3
      ensures TableAt(mem', root, p) == TableAt(mem, root, p)
    {
      if p != [] {
        TableBySlot(mem, root, p);
        TableBySlot(mem', root, p);
      }
    }
  }

  // ---------------------------------------------------------------- the allocator

  // Entries outside of `path` and those on it are as they were.
  ghost predicate OnlyBelow(mem: Memory, mem': Memory, root: nat, path: seq<nat>) {
    forall q :: 0 < |q| <= 4 && !(path < q) ==> Slot(mem', root, q) == Slot(mem, root, q)
  }

  // ... and below it only those on the way to the page.
  ghost predicate OnlyTowards(mem: Memory, mem': Memory, root: nat, path: seq<nat>, page: seq<nat>) {
    forall q :: 0 < |q| <= 4 && !(path < q <= page) ==> Slot(mem', root, q) == Slot(mem, root, q)
  }

  // Outside of the heap's arenas every entry is as it was.
  ghost predicate OutsideSame(mem: Memory, mem': Memory, root: nat) {
    forall q :: 0 < |q| <= 4 && !InHeap(q) ==> Slot(mem', root, q) == Slot(mem, root, q)
  }

  lemma OutsideStep(mem: Memory, mem': Memory, root: nat, c: seq<nat>)
    requires OneChange(mem, mem', root, c) && InHeap(c)
    ensures OutsideSame(mem, mem', root)
  {
    hide Slot;
  }

  lemma OutsideThen(mem: Memory, mem': Memory, mem'': Memory, root: nat)
    requires OutsideSame(mem, mem', root) && OutsideSame(mem', mem'', root)
    ensures OutsideSame(mem, mem'', root)
  {
    hide Slot;
  }

  lemma OutsideTowards(mem: Memory, mem': Memory, root: nat, page: seq<nat>)
    requires OnlyTowards(mem, mem', root, [], page) && |page| == 4 && InHeap(page)
    ensures OutsideSame(mem, mem', root)
  {
    hide Slot;
  }

  // Every entry is still there, and leads where it led.
  ghost predicate Grown(mem: Memory, mem': Memory, root: nat) {
    forall q :: 0 < |q| <= 4 && Slot(mem, root, q).Some? ==>
      Slot(mem', root, q).Some? && SameButFull(Slot(mem', root, q).value, Slot(mem, root, q).value)
  }

  predicate SameButFull(e: Entry, e': Entry) {
    e == e'.(full := e.full)
  }

  // The search's choice among entries low to high of the table at `path`, which need not exist yet.
  ghost predicate Chosen(mem: Memory, root: nat, path: seq<nat>, i: nat, low: nat, high: nat) {
    && low <= i < high
    && if Slot(mem, root, path + [i]).Some? then
         && !FullAt(mem, root, path + [i])
         && (forall k :: low <= k < i && Slot(mem, root, path + [k]).Some? ==> FullAt(mem, root, path + [k]))
       else
         && (forall k :: low <= k < high && Slot(mem, root, path + [k]).Some? ==> FullAt(mem, root, path + [k]))
         && (forall k :: low <= k < i ==> Slot(mem, root, path + [k]).Some?)
  }

  // The page is the search's choice at every level from `from` on.
  ghost predicate FirstFit(mem: Memory, root: nat, page: seq<nat>, from: nat, low: nat, high: nat)
    requires |page| == 4
  {
    forall d :: from <= d < 4 ==>
      Chosen(mem, root, page[..d], page[d], if d == from then low else 0, if d == from then high else 512)
  }

  // All pages of root entries low to high are taken.
  ghost predicate Exhausted(mem: Memory, root: nat, low: nat, high: nat) {
    forall page :: IsPage(page) && low <= page[0] < high ==> Slot(mem, root, page).Some?
  }

  // The range that a table's search runs over: the arena in the root, everything elsewhere.
  ghost predicate Range(path: seq<nat>, low: nat, high: nat) {
    if path == [] then HEAP_LOW <= low <= high <= HEAP_HIGH else low == 0 && high == 512 && InHeap(path)
  }

  lemma {:induction false} ArenaFull(mem: Memory, root: nat, free: set<nat>, low: nat, high: nat)
    requires Tree(mem, root, free) && Indexed(mem, root) && HEAP_LOW <= low <= high <= HEAP_HIGH
    requires root in mem && |mem[root]| == 512
    requires forall k :: low <= k < high ==> mem[root][k].present && mem[root][k].full
    ensures Exhausted(mem, root, low, high)
  {
    hide Slot, Tree, IndexedBut, FullAt;
    forall page | IsPage(page) && low <= page[0] < high
      ensures Slot(mem, root, page).Some?
    {
      RootEntryFull(mem, root, free, page[0]);
      assert page[..1] == [page[0]];
      FullMeansLive(mem, root, page, 1);
    }
  }

  lemma RootEntryFull(mem: Memory, root: nat, free: set<nat>, k: nat)
    requires Tree(mem, root, free) && root in mem && |mem[root]| == 512 && k < 512
    requires mem[root][k].present && mem[root][k].full
    ensures FullAt(mem, root, [k])
  {
    RootTable(mem, root, []);
    PlaceSlot(mem, root, free, root, [], k);
    assert [] + [k] == [k];
  }

  // A table whose entry is not full has a slot left.
  lemma {:induction false} NotFullHasSlot(mem: Memory, root: nat, free: set<nat>, t: nat, path: seq<nat>)
    requires Place(mem, root, free, t, path, 0) && Indexed(mem, root) && path != [] && InHeap(path)
    requires Slot(mem, root, path).Some? && !Slot(mem, root, path).value.full
    ensures t in mem && |mem[t]| == 512 && !(forall k :: 0 <= k < 512 ==> mem[t][k].present && mem[t][k].full)
  {
    PlaceSlot(mem, root, free, t, path, 0);
    assert Truthful(mem, root, path);
    var i :| 0 <= i < 512 && !FullAt(mem, root, path + [i]);
    PlaceSlot(mem, root, free, t, path, i);
  }

  class PageHeap {
    const pt: PageTable
    // What the rest of the kernel has of the usable frames.
    ghost var elsewhere: set<nat>
    ghost const usable: set<nat>

    ghost predicate Inv()
      reads this, pt
    {
      HeapInv(pt.mem, pt.root, pt.free, elsewhere, usable)
    }

    ghost predicate Valid()
      reads this, pt
    {
      Inv() && Indexed(pt.mem, pt.root)
    }

    constructor (pt: PageTable, ghost elsewhere: set<nat>, ghost usable: set<nat>)
      requires HeapInv(pt.mem, pt.root, pt.free, elsewhere, usable)
      requires forall p :: 0 < |p| <= 4 && InHeap(p) ==> Slot(pt.mem, pt.root, p).None?
      ensures Valid() && this.pt == pt && this.elsewhere == elsewhere && this.usable == usable
    {
      this.pt, this.elsewhere, this.usable := pt, elsewhere, usable;
    }

    // The search of lines 135-145: the first entry that is present and not full, or else the first
    // that is absent.
    method FindSlot(t: nat, low: nat, high: nat) returns (i: Option<nat>)
      requires t in pt.mem && |pt.mem[t]| == 512 && low <= high <= 512
      ensures i.None? <==> forall k :: low <= k < high ==> pt.mem[t][k].present && pt.mem[t][k].full
      ensures i.Some? ==> low <= i.value < high
      ensures i.Some? && pt.mem[t][i.value].present ==>
                && !pt.mem[t][i.value].full
                && forall k :: low <= k < i.value ==> pt.mem[t][k].present ==> pt.mem[t][k].full
      ensures i.Some? && !pt.mem[t][i.value].present ==>
                && (forall k :: low <= k < high ==> pt.mem[t][k].present ==> pt.mem[t][k].full)
                && (forall k :: low <= k < i.value ==> pt.mem[t][k].present)
    {
      var empty: Option<nat> := None;
      var k := low;
      while k < high
        invariant low <= k <= high
        invariant forall j :: low <= j < k ==> pt.mem[t][j].present ==> pt.mem[t][j].full
        invariant empty.None? ==> forall j :: low <= j < k ==> pt.mem[t][j].present
        invariant empty.Some? ==> low <= empty.value < k && !pt.mem[t][empty.value].present
                                  && forall j :: low <= j < empty.value ==> pt.mem[t][j].present
      {
        if !pt.mem[t][k].present && empty.None? {
          empty := Some(k);
        } else if pt.mem[t][k].present && !pt.mem[t][k].full {
          return Some(k);
        }
        k := k + 1;
      }
      return empty;
    }

    // Lines 192-203: is every entry of the table present and full?
    method IsFull(t: nat) returns (full: bool)
      requires t in pt.mem && |pt.mem[t]| == 512
      ensures full <==> forall k :: 0 <= k < 512 ==> pt.mem[t][k].present && pt.mem[t][k].full
    {
      var k := 0;
      while k < 512
        invariant k <= 512 && forall j :: 0 <= j < k ==> pt.mem[t][j].present && pt.mem[t][j].full
      {
        if !pt.mem[t][k].present || !pt.mem[t][k].full {
          return false;
        }
        k := k + 1;
      }
      return true;
    }

    // Lines 228-239.
    method FullAndEmpty(t: nat) returns (full: bool, empty: bool)
      requires t in pt.mem && |pt.mem[t]| == 512
      ensures full <==> forall k :: 0 <= k < 512 ==> pt.mem[t][k].present && pt.mem[t][k].full
      ensures empty <==> forall k :: 0 <= k < 512 ==> !pt.mem[t][k].present
    {
      full, empty := true, true;
      var k := 0;
      while k < 512
        invariant k <= 512
        invariant full <==> forall j :: 0 <= j < k ==> pt.mem[t][j].present && pt.mem[t][j].full
        invariant empty <==> forall j :: 0 <= j < k ==> !pt.mem[t][j].present
      {
        if pt.mem[t][k].present {
          empty := false;
          if !pt.mem[t][k].full {
            full := false;
          }
        } else {
          full := false;
        }
        k := k + 1;
      }
    }

    // Lines 150-164: an empty slot gets a frame, which is cleared if it is to be a table.
    method TakeSlot(t: nat, path: seq<nat>, i: nat) returns (ok: bool)
      requires Valid() && Place(pt.mem, pt.root, pt.free, t, path, i) && InHeap(path + [i])
      requires Slot(pt.mem, pt.root, path + [i]).None?
      modifies pt
      ensures ok <==> old(pt.free) != {}
      ensures !ok ==> pt.mem == old(pt.mem) && pt.free == old(pt.free)
      ensures ok ==>
                && Inv() && IndexedBut(pt.mem, pt.root, path + [i]) && (|path| < 3 ==> Indexed(pt.mem, pt.root))
                && OneChange(old(pt.mem), pt.mem, pt.root, path + [i])
                && OthersKept(old(pt.mem), pt.mem, pt.root, path + [i])
                && Slot(pt.mem, pt.root, path + [i]).Some?
                && Slot(pt.mem, pt.root, path + [i]).value ==
                   Entry(true, true, false, false, false, false, false, false, false, false,
                         Slot(pt.mem, pt.root, path + [i]).value.frame)
                && Slot(pt.mem, pt.root, path + [i]).value.frame in old(pt.free)
                && pt.free == old(pt.free) - {Slot(pt.mem, pt.root, path + [i]).value.frame}
    {
      hide HeapInv, Slot, TableAt, EntryAt, OthersKept, Truthful;
      if pt.free == {} {
        return false;
      }
      var g :| g in pt.free;
      UnfoldInv(pt.mem, pt.root, pt.free, elsewhere, usable);
      TakeStep(pt.mem, pt.root, pt.free, elsewhere, usable, t, path, i, g);
      ghost var before := pt.mem;
      if |path| < 3 {
        // REPAIR (lines 150-164): the source does not clear the frame.
        pt.mem := LinkNew(pt.mem, t, i, NewEntry(g), Cleared());
      } else {
        pt.mem := SetEntry(pt.mem, t, i, NewEntry(g));
      }
      pt.free := pt.free - {g};
      NewIndexed(before, pt.mem, pt.root, path + [i]);
      return true;
    }

    // Sets the full bit of a present entry.
    method SetFull(t: nat, path: seq<nat>, i: nat, full: bool)
      requires Inv() && Place(pt.mem, pt.root, pt.free, t, path, i) && InHeap(path + [i])
      requires Slot(pt.mem, pt.root, path + [i]).Some?
      modifies pt`mem
      ensures Inv() && OneChange(old(pt.mem), pt.mem, pt.root, path + [i])
      ensures OthersKept(old(pt.mem), pt.mem, pt.root, path + [i])
      ensures Slot(pt.mem, pt.root, path + [i]) == Some(old(Slot(pt.mem, pt.root, path + [i])).value.(full := full))
    {
      hide HeapInv, Slot, TableAt, EntryAt, OthersKept, OneChange;
      FullStep(pt.mem, pt.root, pt.free, elsewhere, usable, t, path, i, full);
      pt.mem := SetEntry(pt.mem, t, i, pt.mem[t][i].(full := full));
    }

    // Clears a present entry and returns its frame (lines 220-222 and 241-242).
    method ClearSlot(t: nat, path: seq<nat>, i: nat)
      requires Inv() && Place(pt.mem, pt.root, pt.free, t, path, i) && InHeap(path + [i])
      requires Slot(pt.mem, pt.root, path + [i]).Some? && (|path| < 3 ==> EmptyBelow(pt.mem, pt.root, path + [i]))
      modifies pt
      ensures Inv() && OneChange(old(pt.mem), pt.mem, pt.root, path + [i])
      ensures OthersKept(old(pt.mem), pt.mem, pt.root, path + [i])
      ensures EntryAt(pt.mem, pt.root, path + [i]) ==
              Some(Entry(false, false, false, false, false, false, false, false, false, false, 0))
      ensures Slot(pt.mem, pt.root, path + [i]).None?
      ensures pt.free == old(pt.free) + {old(Slot(pt.mem, pt.root, path + [i])).value.frame}
    {
      PlaceSlot(pt.mem, pt.root, pt.free, t, path, i);
      hide HeapInv, Slot, TableAt, EntryAt, OthersKept, OneChange;
      ClearStep(pt.mem, pt.root, pt.free, elsewhere, usable, t, path, i);
      // REPAIR (lines 221-222, 241-242): the source clears the entry before it reads the frame.
      var g := pt.mem[t][i].frame;
      pt.mem := SetEntry(pt.mem, t, i, ZERO);
      pt.free := pt.free + {g};
    }

    // Makes sure that entry i leads somewhere.
    method OpenSlot(t: nat, path: seq<nat>, i: nat) returns (ok: bool)
      requires Valid() && Place(pt.mem, pt.root, pt.free, t, path, i) && InHeap(path + [i])
      requires !FullAt(pt.mem, pt.root, path + [i])
      modifies pt
      ensures !ok ==> pt.mem == old(pt.mem) && pt.free == old(pt.free) == {}
      ensures ok ==>
                && Inv() && Place(pt.mem, pt.root, pt.free, t, path, i)
                && Opened(old(pt.mem), pt.mem, pt.root, old(pt.free), pt.free, path + [i])
    {
      PlaceSlot(pt.mem, pt.root, pt.free, t, path, i);
      hide Slot, TableAt, EntryAt, OthersKept, OneChange, Tree, Covered, Granted, Conserved, IndexedBut, Grown;
      if pt.mem[t][i].present {
        NoChange(pt.mem, pt.root, path + [i]);
        StepGrows(pt.mem, pt.mem, pt.root, path + [i]);
        PresentOpens(pt.mem, pt.root, pt.free, path + [i]);
        return true;
      }
      ok := TakeSlot(t, path, i);
      if ok {
        PlaceKept(old(pt.mem), pt.mem, pt.root, old(pt.free), pt.free, t, path, i);
        StepGrows(old(pt.mem), pt.mem, pt.root, path + [i]);
      }
    }

    // malloc_traverse (lines 128-210): `path` is what is known of the address, t the table it leads to.
    method MallocTraverse(t: nat, path: seq<nat>, low: nat, high: nat) returns (page: Option<seq<nat>>)
      requires Valid() && Place(pt.mem, pt.root, pt.free, t, path, 0) && Range(path, low, high)
      requires path != [] ==> Slot(pt.mem, pt.root, path).Some? && !Slot(pt.mem, pt.root, path).value.full
      modifies pt
      ensures Inv() && Searched(old(pt.mem), pt.mem, pt.root, old(pt.free), pt.free, path, page, low, high)
      decreases 4 - |path|
    {
      hide Slot, TableAt, EntryAt, AllKept, OthersKept, Truthful, Exhausted, IndexedBut, OnlyBelow, OneChange, Walk;
      hide Tree, Covered, Granted, Conserved, Taken, Grown, Chosen, FirstFit, Searched;
      PlaceSlot(pt.mem, pt.root, pt.free, t, path, 0);
      var i := FindSlot(t, low, high);
      if i.None? {
        MallocStuck(pt.mem, pt.root, pt.free, t, path, low, high);
        return None;
      }
      var c := path + [i.value];
      PickedSlot(pt.mem, pt.root, pt.free, t, path, i.value, low, high);
      PickedIsChosen(pt.mem, pt.root, pt.free, t, path, i.value, low, high);
      var ok := OpenSlot(t, path, i.value);
      if !ok {
        NothingFree(pt.mem, pt.root, path, low, high);
        return None;
      }
      ghost var mem1, free1 := pt.mem, pt.free;
      if |path| == 3 {
        SetFull(t, path, i.value, true);
        LeafDone(old(pt.mem), mem1, pt.mem, pt.root, old(pt.free), pt.free, elsewhere, usable, path, i.value, low,
                 high);
        return Some(c);
      }
      ChildPlace(old(pt.mem), pt.mem, pt.root, old(pt.free), pt.free, t, path, i.value);
      var next := pt.mem[t][i.value].frame;
      page := MallocTraverse(next, c, 0, 512);
      ghost var mem2 := pt.mem;
      ChildReturned(mem1, pt.mem, pt.root, free1, pt.free, t, next, path, i.value, page);
      var full := IsFull(next);
      if full {
        SetFull(t, path, i.value, true);
      } else {
        NoChange(pt.mem, pt.root, c);
      }
      ChildDone(old(pt.mem), mem1, mem2, pt.mem, pt.root, old(pt.free), free1, pt.free, next, path, i.value, full,
                page, low, high);
    }

    // malloc (lines 251-256) and, for its own range, allocate_page (lines 274-279).
    method MallocRange(low: nat, high: nat) returns (page: Option<seq<nat>>)
      requires Valid() && HEAP_LOW <= low <= high <= HEAP_HIGH
      modifies pt
      ensures Valid() && pt.free <= old(pt.free)
      ensures page.None? ==>
                AllKept(old(pt.mem), pt.mem, pt.root) && (pt.free == {} || Exhausted(pt.mem, pt.root, low, high))
      ensures page.Some? ==>
                && Taken(old(pt.mem), pt.mem, pt.root, old(pt.free), pt.free, page.value)
                && low <= page.value[0] < high
      ensures page.Some? ==> FirstFit(old(pt.mem), pt.root, page.value, 0, low, high)
      ensures OutsideSame(old(pt.mem), pt.mem, pt.root)
    {
      hide HeapInv, Slot, EntryAt, AllKept, Truthful, Exhausted, IndexedBut, OnlyBelow, Walk, FirstFit, OthersKept;
      hide OutsideSame;
      UnfoldInv(pt.mem, pt.root, pt.free, elsewhere, usable);
      hide Tree;
      page := MallocTraverse(pt.root, [], low, high);
    }

    method Malloc(size: nat) returns (page: Option<seq<nat>>)
      requires Valid()
      modifies pt
      ensures Valid() && pt.free <= old(pt.free)
      ensures size > PAGE ==> page.None? && pt.mem == old(pt.mem) && pt.free == old(pt.free)
      ensures size <= PAGE && page.None? ==>
                AllKept(old(pt.mem), pt.mem, pt.root) && (pt.free == {} || Exhausted(pt.mem, pt.root, HEAP_LOW, 212))
      ensures page.Some? ==>
                && Taken(old(pt.mem), pt.mem, pt.root, old(pt.free), pt.free, page.value)
                && HEAP_LOW <= page.value[0] < 212
      ensures page.Some? ==> FirstFit(old(pt.mem), pt.root, page.value, 0, HEAP_LOW, 212)
      ensures OutsideSame(old(pt.mem), pt.mem, pt.root)
    {
      hide HeapInv, Slot, EntryAt, AllKept, Exhausted, IndexedBut, Walk, Taken, FirstFit;
      if size > PAGE {
        return None;
      }
      page := MallocRange(HEAP_LOW, 212);
    }

    // free_traverse (lines 212-249).
    method FreeTraverse(t: nat, path: seq<nat>, page: seq<nat>)
      requires Valid() && IsPage(page) && InHeap(page) && path < page && Slot(pt.mem, pt.root, page).Some?
      requires Place(pt.mem, pt.root, pt.free, t, path, page[|path|])
      modifies pt
      ensures Inv() && IndexedBut(pt.mem, pt.root, path)
      ensures Freed(old(pt.mem), pt.mem, pt.root, old(pt.free), pt.free, path, page)
      decreases 4 - |path|
    {
      hide Slot, TableAt, EntryAt, OthersKept, Truthful, IndexedBut, OneChange, Walk;
      hide Tree, Covered, Granted, Conserved, Freed;
      var c := path + [page[|path|]];
      LivePath(pt.mem, pt.root, pt.free, t, path, page);
      if |path| == 3 {
        ClearSlot(t, path, page[3]);
        LeafGone(old(pt.mem), pt.mem, pt.root, old(pt.free), pt.free, elsewhere, usable, path, page);
        return;
      }
      var next := pt.mem[t][page[|path|]].frame;
      FreeTraverse(next, c, page);
      ghost var mem1, free1 := pt.mem, pt.free;
      BackFromChild(old(pt.mem), pt.mem, pt.root, old(pt.free), pt.free, t, next, path, page);
      var full, empty := FullAndEmpty(next);
      if empty {
        ClearSlot(t, path, page[|path|]);
      } else {
        SetFull(t, path, page[|path|], full);
      }
      PathFreed(old(pt.mem), mem1, pt.mem, pt.root, old(pt.free), free1, pt.free, path, page);
    }

    method Free(page: Option<seq<nat>>)
      requires Valid()
      requires page.Some? ==> IsPage(page.value) && InHeap(page.value) && Slot(pt.mem, pt.root, page.value).Some?
      modifies pt
      ensures Valid()
      ensures page.None? ==> pt.mem == old(pt.mem) && pt.free == old(pt.free)
      ensures page.Some? ==> Freed(old(pt.mem), pt.mem, pt.root, old(pt.free), pt.free, [], page.value)
    {
      hide HeapInv, Slot, EntryAt, Truthful, IndexedBut, Walk, Freed;
      if page.Some? {
        UnfoldInv(pt.mem, pt.root, pt.free, elsewhere, usable);
        hide Tree;
        FreeTraverse(pt.root, [], page.value);
      }
    }
  }

  // A page is gone and its frame is free again; so are the tables that only led to it.
  ghost predicate Freed(mem: Memory, mem': Memory, root: nat, free: set<nat>, free': set<nat>, path: seq<nat>,
      page: seq<nat>)
    requires page != []
  {
    && Slot(mem, root, page).Some? && Slot(mem', root, page).None? && OthersKept(mem, mem', root, page)
    && OnlyTowards(mem, mem', root, path, page) && Grown(mem', mem, root)
    && free <= free' && Slot(mem, root, page).value.frame in free'
    && Pruned(mem', root, path, page)
  }

  // No table on the way to the page is left without entries.
  ghost predicate Pruned(mem: Memory, root: nat, path: seq<nat>, page: seq<nat>) {
    forall q :: path < q < page ==> Slot(mem, root, q).None? || !EmptyBelow(mem, root, q)
  }

  lemma {:induction false} SlotsAbove(mem: Memory, root: nat, page: seq<nat>, d: nat)
    requires |page| == 4 && 0 < d <= 4 && Slot(mem, root, page).Some?
    ensures Slot(mem, root, page[..d]).Some?
    decreases 4 - d
  {
    if d == 4 {
      assert page[..4] == page;
    } else {
      SlotsAbove(mem, root, page, d + 1);
      SlotAbove(mem, root, page[..d + 1]);
      assert page[..d + 1][..d] == page[..d];
    }
  }

  // Above a mapped page every entry is present and leads on.
  lemma {:induction false} LivePath(mem: Memory, root: nat, free: set<nat>, t: nat, path: seq<nat>, page: seq<nat>)
    requires Granted(mem, root) && IsPage(page) && InHeap(page) && path < page && Slot(mem, root, page).Some?
    requires Place(mem, root, free, t, path, page[|path|])
    ensures var c := path + [page[|path|]];
            && c <= page && InHeap(c) && c[..|path|] == path && (|path| == 3 ==> c == page)
            && Slot(mem, root, c).Some? && t in mem && page[|path|] < |mem[t]|
            && (|path| < 3 ==> Place(mem, root, free, mem[t][page[|path|]].frame, c, page[|path| + 1]))
  {
    var c := path + [page[|path|]];
    assert c == page[..|path| + 1];
    SlotsAbove(mem, root, page, |c|);
    PlaceSlot(mem, root, free, t, path, page[|path|]);
    GrantedAt(mem, root, c);
    TableBySlot(mem, root, c);
  }

  lemma {:induction false} LeafGone(mem0: Memory, mem1: Memory, root: nat, free0: set<nat>, free1: set<nat>,
      elsewhere: set<nat>, usable: set<nat>, path: seq<nat>, page: seq<nat>)
    requires |page| == 4 && |path| == 3 && path < page && path + [page[3]] == page && Indexed(mem0, root)
    requires OneChange(mem0, mem1, root, page) && OthersKept(mem0, mem1, root, page)
    requires Slot(mem0, root, page).Some? && Slot(mem1, root, page).None?
    requires free1 == free0 + {Slot(mem0, root, page).value.frame}
    ensures IndexedBut(mem1, root, path) && Freed(mem0, mem1, root, free0, free1, path, page)
  {
    hide Slot, Walk;
    assert page[..3] == path;
    assert Truthful(mem1, root, page);
    IndexedFurther(mem0, root, [], page);
    IndexStep(mem0, mem1, root, page);
  }

  lemma {:induction false} BackFromChild(mem0: Memory, mem1: Memory, root: nat, free0: set<nat>, free1: set<nat>,
      t: nat, next: nat, path: seq<nat>, page: seq<nat>)
    requires |page| == 4 && |path| < 3 && path < page
    requires Place(mem0, root, free0, t, path, page[|path|])
    requires Place(mem0, root, free0, next, path + [page[|path|]], page[|path| + 1])
    requires Tree(mem1, root, free1) && Freed(mem0, mem1, root, free0, free1, path + [page[|path|]], page)
    ensures var c := path + [page[|path|]];
            && Place(mem1, root, free1, t, path, page[|path|]) && Place(mem1, root, free1, next, c, 0)
            && Slot(mem1, root, c) == Slot(mem0, root, c)
            && next in mem1 && |mem1[next]| == 512
            && (EmptyBelow(mem1, root, c) <==> forall k :: 0 <= k < 512 ==> !mem1[next][k].present)
            && (FullBelow(mem1, root, c) <==> forall k :: 0 <= k < 512 ==> mem1[next][k].present && mem1[next][k].full)
  {
    hide Slot, Tree, OthersKept, Pruned;
    var c := path + [page[|path|]];
    PlaceKept(mem0, mem1, root, free0, free1, t, path, page[|path|]);
    PlaceKept(mem0, mem1, root, free0, free1, next, c, page[|path| + 1]);
    FullIsFullBelow(mem1, root, free1, next, c);
  }

  lemma {:induction false} PathFreed(mem0: Memory, mem1: Memory, mem2: Memory, root: nat, free0: set<nat>,
      free1: set<nat>, free2: set<nat>, path: seq<nat>, page: seq<nat>)
    requires |page| == 4 && |path| < 3 && path < page && IndexedBut(mem1, root, path + [page[|path|]])
    requires Freed(mem0, mem1, root, free0, free1, path + [page[|path|]], page)
    requires OneChange(mem1, mem2, root, path + [page[|path|]]) && OthersKept(mem1, mem2, root, path + [page[|path|]])
    requires free1 <= free2
    requires var c := path + [page[|path|]];
             if EmptyBelow(mem1, root, c) then Slot(mem2, root, c).None?
             else Slot(mem2, root, c).Some? && (Slot(mem2, root, c).value.full <==> FullBelow(mem1, root, c))
    requires var c := path + [page[|path|]];
             Slot(mem1, root, c).Some?
             && (Slot(mem2, root, c).Some? ==> SameButFull(Slot(mem1, root, c).value, Slot(mem2, root, c).value))
    ensures IndexedBut(mem2, root, path) && Freed(mem0, mem2, root, free0, free2, path, page)
  {
    hide Slot, Walk;
    var c := path + [page[|path|]];
    assert c[..|path|] == path && c <= page && |c| <= 3;
    assert Slot(mem2, root, page) == Slot(mem1, root, page);
    SameBelow(mem1, mem2, root, c, c);
    assert Truthful(mem2, root, c);
    PrunedFurther(mem1, mem2, root, path, page);
    hide FullBelow, EmptyBelow, Pruned, SameButFull;
    IndexStep(mem1, mem2, root, c);
    hide IndexedBut, Truthful;
    TowardsFurther(mem0, mem1, mem2, root, path, page);
    LessFurther(mem0, mem1, mem2, root, c);
    hide OneChange, OnlyTowards, Grown;
  }

  lemma {:induction false} PrunedFurther(mem: Memory, mem': Memory, root: nat, path: seq<nat>, page: seq<nat>)
    requires |page| == 4 && |path| < 3 && path < page && Pruned(mem, root, path + [page[|path|]], page)
    requires OneChange(mem, mem', root, path + [page[|path|]])
    requires EmptyBelow(mem, root, path + [page[|path|]]) ==> Slot(mem', root, path + [page[|path|]]).None?
    ensures Pruned(mem', root, path, page)
  {
    hide Slot;
    var c := path + [page[|path|]];
    SameBelow(mem, mem', root, c, c);
    forall q | path < q < page
      ensures Slot(mem', root, q).None? || !EmptyBelow(mem', root, q)
    {
      if q != c {
        assert c < q;
        SameBelow(mem, mem', root, c, q);
      }
    }
  }

  lemma {:induction false} TowardsFurther(mem0: Memory, mem1: Memory, mem2: Memory, root: nat, path: seq<nat>,
      page: seq<nat>)
    requires |page| == 4 && |path| < 3 && path < page
    requires OnlyTowards(mem0, mem1, root, path + [page[|path|]], page)
    requires OneChange(mem1, mem2, root, path + [page[|path|]])
    ensures OnlyTowards(mem0, mem2, root, path, page)
  {
    hide Slot;
    assert path < path + [page[|path|]] <= page;
  }

  // An entry that is gone, or whose full bit has changed.
  lemma {:induction false} LessFurther(mem0: Memory, mem1: Memory, mem2: Memory, root: nat, c: seq<nat>)
    requires Grown(mem1, mem0, root) && OneChange(mem1, mem2, root, c) && 0 < |c| <= 3 && Slot(mem1, root, c).Some?
    requires Slot(mem2, root, c).Some? ==> SameButFull(Slot(mem1, root, c).value, Slot(mem2, root, c).value)
    ensures Grown(mem2, mem0, root)
  {
    hide Slot;
  }

  // The state in which an entry c leads somewhere, and is not full.
  ghost predicate Opened(mem: Memory, mem': Memory, root: nat, free: set<nat>, free': set<nat>, c: seq<nat>)
    requires 0 < |c| <= 4
  {
    && OneChange(mem, mem', root, c) && OthersKept(mem, mem', root, c) && free' <= free && Grown(mem, mem', root)
    && Slot(mem', root, c).Some? && !Slot(mem', root, c).value.full
    && IndexedBut(mem', root, c) && (|c| < 4 ==> Indexed(mem', root))
    && (|c| == 4 ==>
          && Slot(mem, root, c).None?
          && Slot(mem', root, c).value.frame in free && Slot(mem', root, c).value.frame !in free')
  }

  // A page was not mapped; now the processor finds it in what was a free frame, and finds all other
  // pages where they were.
  ghost predicate Taken(mem: Memory, mem': Memory, root: nat, free: set<nat>, free': set<nat>, page: seq<nat>) {
    && IsPage(page) && Slot(mem, root, page).None? && Slot(mem', root, page).Some?
    && var g := Slot(mem', root, page).value.frame;
       && g in free && free' <= free - {g}
       && Walk(mem', root, 0, page) == Some(Access(g, true, false, false, false))
       && OthersKept(mem, mem', root, page) && OnlyTowards(mem, mem', root, [], page) && Grown(mem, mem', root)
  }

  lemma PlaceKept(mem: Memory, mem': Memory, root: nat, free: set<nat>, free': set<nat>, t: nat, path: seq<nat>, i: nat)
    requires Place(mem, root, free, t, path, i) && Tree(mem', root, free')
    requires path != [] ==> Slot(mem', root, path) == Slot(mem, root, path)
    ensures Place(mem', root, free', t, path, i)
  {
    hide Tree;
    if path != [] {
      TableBySlot(mem, root, path);
      TableBySlot(mem', root, path);
    }
  }

  lemma PresentOpens(mem: Memory, root: nat, free: set<nat>, c: seq<nat>)
    requires Indexed(mem, root) && 0 < |c| <= 4 && InHeap(c)
    requires Slot(mem, root, c).Some? && !Slot(mem, root, c).value.full && Grown(mem, mem, root)
    ensures Opened(mem, mem, root, free, free, c)
  {
    hide Slot;
    assert Truthful(mem, root, c);
  }

  // What a search below `path` has done.
  ghost predicate Searched(mem: Memory, mem': Memory, root: nat, free: set<nat>, free': set<nat>, path: seq<nat>,
      page: Option<seq<nat>>, low: nat, high: nat) {
    && IndexedBut(mem', root, path) && OnlyBelow(mem, mem', root, path) && free' <= free
    && OutsideSame(mem, mem', root)
    && (page.None? ==>
          AllKept(mem, mem', root) && (free' == {} || (path == [] && Exhausted(mem', root, low, high))))
    && (page.Some? ==>
          && Taken(mem, mem', root, free, free', page.value)
          && path < page.value && low <= page.value[|path|] < high
          && FirstFit(mem, root, page.value, |path|, low, high))
  }

  lemma NothingFree(mem: Memory, root: nat, path: seq<nat>, low: nat, high: nat)
    requires Indexed(mem, root)
    ensures Searched(mem, mem, root, {}, {}, path, None, low, high)
  {
  }

  lemma NoChange(mem: Memory, root: nat, c: seq<nat>)
    ensures OneChange(mem, mem, root, c) && OthersKept(mem, mem, root, c)
  {
  }

  lemma {:induction false} MallocStuck(mem: Memory, root: nat, free: set<nat>, t: nat, path: seq<nat>, low: nat,
      high: nat)
    requires Place(mem, root, free, t, path, 0) && Indexed(mem, root) && Range(path, low, high)
    requires path != [] ==> Slot(mem, root, path).Some? && !Slot(mem, root, path).value.full
    requires t in mem && |mem[t]| == 512 && forall k :: low <= k < high ==> mem[t][k].present && mem[t][k].full
    ensures Searched(mem, mem, root, free, free, path, None, low, high)
  {
    if path == [] {
      RootTable(mem, root, path);
      ArenaFull(mem, root, free, low, high);
    } else {
      NotFullHasSlot(mem, root, free, t, path);
    }
  }

  lemma PickedSlot(mem: Memory, root: nat, free: set<nat>, t: nat, path: seq<nat>, i: nat, low: nat, high: nat)
    requires Place(mem, root, free, t, path, 0) && Range(path, low, high) && low <= i < high
    requires t in mem && |mem[t]| == 512 && (mem[t][i].present ==> !mem[t][i].full)
    ensures Place(mem, root, free, t, path, i) && InHeap(path + [i]) && !FullAt(mem, root, path + [i])
    ensures (path + [i])[..|path|] == path && IsPath(path + [i])
  {
    PlaceSlot(mem, root, free, t, path, i);
  }

  // At the lowest level: the page is taken.
  lemma {:induction false} LeafDone(mem0: Memory, mem1: Memory, mem2: Memory, root: nat, free0: set<nat>,
      free1: set<nat>, elsewhere: set<nat>, usable: set<nat>, path: seq<nat>, i: nat, low: nat, high: nat)
    requires Chosen(mem0, root, path, i, low, high)
    requires HeapInv(mem2, root, free1, elsewhere, usable) && |path| == 3 && IsPath(path + [i]) && InHeap(path + [i])
    requires Opened(mem0, mem1, root, free0, free1, path + [i])
    requires OneChange(mem1, mem2, root, path + [i]) && OthersKept(mem1, mem2, root, path + [i])
    requires Slot(mem2, root, path + [i]) == Some(Slot(mem1, root, path + [i]).value.(full := true))
    ensures Searched(mem0, mem2, root, free0, free1, path, Some(path + [i]), low, high)
  {
    var c := path + [i];
    LeafFirstFit(mem0, root, path, i, low, high);
    hide Slot, Walk, Tree, FirstFit;
    assert c[..|c| - 1] == path;
    HeapWalk(mem2, root, c);
    hide Covered, Granted, Conserved, Chosen;
    assert Truthful(mem2, root, c);
    IndexStep(mem1, mem2, root, c);
    hide IndexedBut, Truthful;
    LeafTaken(mem0, mem1, mem2, root, free0, free1, path, i);
    ChosenInRange(mem0, root, path, i, low, high);
    OutsideStep(mem0, mem1, root, c);
    OutsideStep(mem1, mem2, root, c);
    OutsideThen(mem0, mem1, mem2, root);
    hide Taken, OnlyBelow, Opened, OneChange, OthersKept, OutsideSame;
  }

  lemma LeafTaken(mem0: Memory, mem1: Memory, mem2: Memory, root: nat, free0: set<nat>, free1: set<nat>,
      path: seq<nat>, i: nat)
    requires |path| == 3 && IsPath(path + [i])
    requires Opened(mem0, mem1, root, free0, free1, path + [i])
    requires OneChange(mem1, mem2, root, path + [i]) && OthersKept(mem1, mem2, root, path + [i])
    requires Slot(mem2, root, path + [i]) == Some(Slot(mem1, root, path + [i]).value.(full := true))
    requires Walk(mem2, root, 0, path + [i]) ==
             Some(Access(Slot(mem2, root, path + [i]).value.frame, true, false, false, false))
    ensures Taken(mem0, mem2, root, free0, free1, path + [i]) && OnlyBelow(mem0, mem2, root, path)
  {
    hide Slot, Walk, IndexedBut;
  }

  lemma {:induction false} PickedIsChosen(mem: Memory, root: nat, free: set<nat>, t: nat, path: seq<nat>, i: nat,
      low: nat, high: nat)
    requires Place(mem, root, free, t, path, 0) && low <= i < high <= 512 && t in mem && |mem[t]| == 512
    requires mem[t][i].present ==>
               !mem[t][i].full && forall k :: low <= k < i ==> mem[t][k].present ==> mem[t][k].full
    requires !mem[t][i].present ==>
               && (forall k :: low <= k < high ==> mem[t][k].present ==> mem[t][k].full)
               && (forall k :: low <= k < i ==> mem[t][k].present)
    ensures Chosen(mem, root, path, i, low, high)
  {
    hide Slot, Tree, TableAt;
    forall k | 0 <= k < 512
      ensures Slot(mem, root, path + [k]) == if mem[t][k].present then Some(mem[t][k]) else None
    {
      PlaceSlot(mem, root, free, t, path, k);
    }
    hide Place;
  }

  lemma LeafFirstFit(mem: Memory, root: nat, path: seq<nat>, i: nat, low: nat, high: nat)
    requires |path| == 3 && Chosen(mem, root, path, i, low, high)
    ensures FirstFit(mem, root, path + [i], 3, low, high)
  {
    hide Chosen;
    assert (path + [i])[..3] == path;
  }

  // Below an opened entry nothing has changed.
  lemma {:induction false} FirstFitFurther(mem0: Memory, mem1: Memory, root: nat, path: seq<nat>, i: nat,
      page: seq<nat>, low: nat, high: nat)
    requires |page| == 4 && |path| < 3 && path + [i] < page
    requires Chosen(mem0, root, path, i, low, high) && OneChange(mem0, mem1, root, path + [i])
    requires FirstFit(mem1, root, page, |path| + 1, 0, 512)
    ensures FirstFit(mem0, root, page, |path|, low, high)
  {
    var c := path + [i];
    assert page[..|path|] == path && page[..|c|] == c;
    hide Chosen, Slot, OneChange;
    forall d | |c| <= d < 4
      ensures Chosen(mem0, root, page[..d], page[d], 0, 512)
    {
      assert Chosen(mem1, root, page[..d], page[d], 0, 512);
      ChosenKept(mem0, mem1, root, c, page[..d], page[d], 0, 512);
    }
  }

  lemma ChosenKept(mem0: Memory, mem1: Memory, root: nat, c: seq<nat>, path: seq<nat>, i: nat, low: nat, high: nat)
    requires OneChange(mem0, mem1, root, c) && |c| <= |path| <= 3
    requires Chosen(mem1, root, path, i, low, high)
    ensures Chosen(mem0, root, path, i, low, high)
  {
    hide Slot;
    forall k: nat
      ensures Slot(mem1, root, path + [k]) == Slot(mem0, root, path + [k])
    {
      assert |path + [k]| == |path| + 1;
    }
    hide OneChange;
  }

  lemma StepGrows(mem: Memory, mem': Memory, root: nat, c: seq<nat>)
    requires c != [] && OneChange(mem, mem', root, c)
    requires Slot(mem, root, c).Some? ==>
               Slot(mem', root, c).Some? && SameButFull(Slot(mem', root, c).value, Slot(mem, root, c).value)
    ensures Grown(mem, mem', root)
  {
    hide Slot;
  }

  // An opened upper entry leads to a table in which the search can go on.
  lemma {:induction false} ChildPlace(mem0: Memory, mem: Memory, root: nat, free0: set<nat>, free: set<nat>, t: nat,
      path: seq<nat>, i: nat)
    requires Place(mem, root, free, t, path, i) && |path| < 3 && InHeap(path + [i])
    requires Granted(mem, root) && Opened(mem0, mem, root, free0, free, path + [i])
    ensures t in mem && i < |mem[t]| && Indexed(mem, root)
    ensures Place(mem, root, free, mem[t][i].frame, path + [i], 0) && Range(path + [i], 0, 512)
    ensures Slot(mem, root, path + [i]).Some? && !Slot(mem, root, path + [i]).value.full
  {
    PlaceSlot(mem, root, free, t, path, i);
    TableBySlot(mem, root, path + [i]);
    GrantedAt(mem, root, path + [i]);
  }

  lemma {:induction false} ChildReturned(mem1: Memory, mem2: Memory, root: nat, free1: set<nat>, free2: set<nat>,
      t: nat, next: nat, path: seq<nat>, i: nat, page: Option<seq<nat>>)
    requires Place(mem1, root, free1, t, path, i) && |path| < 3 && Place(mem1, root, free1, next, path + [i], 0)
    requires Searched(mem1, mem2, root, free1, free2, path + [i], page, 0, 512) && Tree(mem2, root, free2)
    ensures Place(mem2, root, free2, t, path, i) && Place(mem2, root, free2, next, path + [i], 0)
    ensures Slot(mem2, root, path + [i]) == Slot(mem1, root, path + [i])
    ensures next in mem2 && |mem2[next]| == 512
  {
    PlaceKept(mem1, mem2, root, free1, free2, t, path, i);
    PlaceKept(mem1, mem2, root, free1, free2, next, path + [i], 0);
    PlaceSlot(mem2, root, free2, next, path + [i], 0);
  }

  lemma {:induction false} FullIsFullBelow(mem: Memory, root: nat, free: set<nat>, t: nat, path: seq<nat>)
    requires Place(mem, root, free, t, path, 0)
    ensures t in mem && |mem[t]| == 512
    ensures FullBelow(mem, root, path) <==> forall k :: 0 <= k < 512 ==> mem[t][k].present && mem[t][k].full
    ensures EmptyBelow(mem, root, path) <==> forall k :: 0 <= k < 512 ==> !mem[t][k].present
  {
    PlaceSlot(mem, root, free, t, path, 0);
    forall k | 0 <= k < 512
      ensures Slot(mem, root, path + [k]) == if mem[t][k].present then Some(mem[t][k]) else None
    {
      PlaceSlot(mem, root, free, t, path, k);
    }
  }

  // The entry above is marked full if its table has become so: it is truthful again.
  lemma {:induction false} ChildMarked(mem0: Memory, mem1: Memory, mem2: Memory, mem3: Memory, root: nat,
      free2: set<nat>, next: nat, path: seq<nat>, i: nat, full: bool)
    requires Place(mem2, root, free2, next, path + [i], 0) && |path| < 3
    requires OneChange(mem0, mem1, root, path + [i]) && OnlyBelow(mem1, mem2, root, path + [i])
    requires IndexedBut(mem2, root, path + [i])
    requires Slot(mem2, root, path + [i]).Some? && !Slot(mem2, root, path + [i]).value.full
    requires next in mem2 && |mem2[next]| == 512
    requires full <==> forall k :: 0 <= k < 512 ==> mem2[next][k].present && mem2[next][k].full
    requires OneChange(mem2, mem3, root, path + [i])
    requires Slot(mem3, root, path + [i]) == Some(Slot(mem2, root, path + [i]).value.(full := full))
    ensures IndexedBut(mem3, root, path) && OnlyBelow(mem0, mem3, root, path)
  {
    var c := path + [i];
    hide Slot;
    assert c[..|c| - 1] == path;
    FullIsFullBelow(mem2, root, free2, next, c);
    SameBelow(mem2, mem3, root, c, c);
    assert Truthful(mem3, root, c);
    IndexStep(mem2, mem3, root, c);
  }

  // The search below `path` has done what the search below its entry did.
  lemma {:induction false} ChildDone(mem0: Memory, mem1: Memory, mem2: Memory, mem3: Memory, root: nat,
      free0: set<nat>, free1: set<nat>, free2: set<nat>, next: nat, path: seq<nat>, i: nat, full: bool,
      page: Option<seq<nat>>, low: nat, high: nat)
    requires Place(mem2, root, free2, next, path + [i], 0) && |path| < 3 && InHeap(path + [i])
    requires Opened(mem0, mem1, root, free0, free1, path + [i]) && Chosen(mem0, root, path, i, low, high)
    requires Searched(mem1, mem2, root, free1, free2, path + [i], page, 0, 512)
    requires Slot(mem2, root, path + [i]).Some? && !Slot(mem2, root, path + [i]).value.full
    requires next in mem2 && |mem2[next]| == 512
    requires full <==> forall k :: 0 <= k < 512 ==> mem2[next][k].present && mem2[next][k].full
    requires OneChange(mem2, mem3, root, path + [i]) && OthersKept(mem2, mem3, root, path + [i])
    requires Slot(mem3, root, path + [i]) == Some(Slot(mem2, root, path + [i]).value.(full := full))
    ensures Searched(mem0, mem3, root, free0, free2, path, page, low, high)
  {
    hide Slot, OneChange, OthersKept, OnlyBelow, IndexedBut, Chosen, FirstFit, AllKept, Place, Exhausted, Walk, Grown;
    hide OutsideSame;
    OutsideStep(mem0, mem1, root, path + [i]);
    OutsideThen(mem0, mem1, mem2, root);
    OutsideStep(mem2, mem3, root, path + [i]);
    OutsideThen(mem0, mem2, mem3, root);
    ChildMarked(mem0, mem1, mem2, mem3, root, free2, next, path, i, full);
    if page.Some? {
      TakenFurther(mem0, mem1, mem2, mem3, root, free0, free1, free2, path + [i], page.value);
      FirstFitFurther(mem0, mem1, root, path, i, page.value, low, high);
      assert Chosen(mem0, root, path, i, low, high);
      ChosenInRange(mem0, root, path, i, low, high);
    } else {
      KeptFurther(mem0, mem1, mem2, mem3, root, path + [i]);
    }
  }

  lemma ChosenInRange(mem: Memory, root: nat, path: seq<nat>, i: nat, low: nat, high: nat)
    requires Chosen(mem, root, path, i, low, high)
    ensures low <= i < high
  {
  }

  lemma TakenFurther(mem0: Memory, mem1: Memory, mem2: Memory, mem3: Memory, root: nat, free0: set<nat>,
      free1: set<nat>, free2: set<nat>, c: seq<nat>, page: seq<nat>)
    requires 0 < |c| <= 3 && free1 <= free0
    requires OneChange(mem0, mem1, root, c) && OthersKept(mem0, mem1, root, c)
    requires Taken(mem1, mem2, root, free1, free2, page)
    requires OneChange(mem2, mem3, root, c) && OthersKept(mem2, mem3, root, c)
    requires Grown(mem0, mem1, root) && c < page && Slot(mem2, root, c).Some? && Slot(mem3, root, c).Some?
    requires SameButFull(Slot(mem3, root, c).value, Slot(mem2, root, c).value)
    ensures Taken(mem0, mem3, root, free0, free2, page)
  {
    hide Slot, Walk;
  }

  lemma KeptFurther(mem0: Memory, mem1: Memory, mem2: Memory, mem3: Memory, root: nat, c: seq<nat>)
    requires 0 < |c| <= 3 && OthersKept(mem0, mem1, root, c) && AllKept(mem1, mem2, root)
    requires OthersKept(mem2, mem3, root, c)
    ensures AllKept(mem0, mem3, root)
  {
    hide Walk;
  }

  lemma UnfoldInv(mem: Memory, root: nat, free: set<nat>, elsewhere: set<nat>, usable: set<nat>)
    requires HeapInv(mem, root, free, elsewhere, usable)
    ensures Tree(mem, root, free) && Covered(mem, root) && Granted(mem, root)
    ensures Conserved(mem, root, free, elsewhere, usable)
  {
  }

  // A new entry spoils nothing, and with an empty table below it is truthful itself.
  lemma {:induction false} NewIndexed(mem: Memory, mem': Memory, root: nat, c: seq<nat>)
    requires Indexed(mem, root) && OneChange(mem, mem', root, c) && 0 < |c| <= 4
    requires Slot(mem', root, c).Some? && !Slot(mem', root, c).value.full
    requires Slot(mem, root, c).None?
    ensures IndexedBut(mem', root, c)
    ensures |c| < 4 && EmptyBelow(mem', root, c) ==> Indexed(mem', root)
  {
    hide Slot;
    forall p | 0 < |p| <= 4 && p != c
      ensures Truthful(mem', root, p)
    {
      assert Truthful(mem, root, p);
      if |p| < 4 {
        if p == c[..|c| - 1] {
          assert p + [c[|c| - 1]] == c;
        } else {
          SameBelow(mem, mem', root, c, p);
        }
      }
    }
    if |c| < 4 && EmptyBelow(mem', root, c) {
      assert Slot(mem', root, c + [0]).None?;
      assert !FullAt(mem', root, c + [0]);
      assert Truthful(mem', root, c);
    }
  }
}
