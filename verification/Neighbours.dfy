/** What a step of one allocator leaves of the others: the page and slab allocators map pages through the
    page heap, the large one through map and unmap, all three in the same tables and from the same frames
    (src/high/memory/heap.cpp:128-249 and 493-530, src/high/memory/paging.cpp:83-123). */
module Neighbours {
  import opened Addresses
  import opened Common
  import opened PageHeap
  import opened PageTables
  import opened Paging
  import LargeAllocator
  import SlabAllocator

  // ---------------------------------------------------------------- the page heap moves, large pages stay

  // The processor finds the pages of the large arena where they were.
  ghost predicate LargeSame(mem: Memory, mem': Memory, root: nat) {
    forall n: nat :: LargeAllocator.FIRST <= n < LargeAllocator.END ==>
      Walk(mem', root, 0, PathOf(n)) == Walk(mem, root, 0, PathOf(n))
  }

  lemma OwnedTable(mem: Memory, root: nat, p: seq<nat>)
    requires |p| <= 3
    ensures OwnedAt(mem, root, p) == TableAt(mem, root, p)
  {
  }

  // What is in use elsewhere is neither free nor a table.
  lemma {:induction false} ElsewhereIsApart(mem: Memory, root: nat, free: set<nat>, elsewhere: set<nat>,
      usable: set<nat>, f: nat)
    requires Conserved(mem, root, free, elsewhere, usable) && f in elsewhere
    ensures f !in free && NotTable(mem, root, f)
  {
    forall p | |p| <= 3 && TableAt(mem, root, p).Some?
      ensures TableAt(mem, root, p).value != f
    {
      OwnedTable(mem, root, p);
    }
  }

  lemma SmallAsBefore(mem: Memory, mem': Memory, root: nat, page: seq<nat>)
    requires |page| == 4 && OutsideSame(mem, mem', root) && !InHeap(page)
    ensures SmallPath(mem', root, page) == SmallPath(mem, root, page)
  {
    assert page[..2][0] == page[0] && page[..3][0] == page[0] && |page[..2]| == 2 && |page[..3]| == 3;
    assert Large(EntryAt(mem, root, page[..2])) == Large(Slot(mem, root, page[..2]));
    assert Large(EntryAt(mem, root, page[..3])) == Large(Slot(mem, root, page[..3]));
    assert Large(EntryAt(mem', root, page[..2])) == Large(Slot(mem', root, page[..2]));
    assert Large(EntryAt(mem', root, page[..3])) == Large(Slot(mem', root, page[..3]));
  }

  lemma {:induction false} LargeKept(mem: Memory, mem': Memory, root: nat, free: set<nat>, free': set<nat>,
      elsewhere: set<nat>, usable: set<nat>, live: set<nat>)
    requires LargeAllocator.Mapped(mem, root, free, live) && Conserved(mem', root, free', elsewhere, usable)
    requires LargeAllocator.FramesOf(mem, root, live) <= elsewhere
    requires LargeSame(mem, mem', root) && OutsideSame(mem, mem', root)
    ensures LargeAllocator.Mapped(mem', root, free', live)
    ensures LargeAllocator.FramesOf(mem', root, live) == LargeAllocator.FramesOf(mem, root, live)
  {
    hide Walk, SmallPath, Conserved, OutsideSame, PathOf;
    forall n | n in live
      ensures LargeAllocator.OnFrame(mem', root, free', n)
      ensures LargeAllocator.FrameOf(mem', root, n) == LargeAllocator.FrameOf(mem, root, n)
    {
      var f := Walk(mem, root, 0, PathOf(n)).value.frame;
      assert LargeAllocator.FrameOf(mem, root, n) == Some(f);
      assert f in LargeAllocator.FramesOf(mem, root, live);
      ElsewhereIsApart(mem', root, free', elsewhere, usable, f);
    }
    forall n: nat | LargeAllocator.FIRST <= n < LargeAllocator.END
      ensures SmallPath(mem', root, PathOf(n)) == SmallPath(mem, root, PathOf(n))
    {
      LargePath(n);
      SmallAsBefore(mem, mem', root, PathOf(n));
    }
    LargeAllocator.FramesSame(mem, mem', root, live);
  }

  lemma LargePath(n: nat)
    requires LargeAllocator.FIRST <= n < LargeAllocator.END
    ensures IsPage(PathOf(n)) && PathOf(n)[0] >= 232 && !InHeap(PathOf(n)) && PageNumber(PathOf(n)) == n
  {
    PathIsPage(n);
  }

  // ---------------------------------------------------------------- large pages move, the page heap stays

  lemma {:induction false} OwnedByMapping(mem: Memory, mem': Memory, root: nat, free: set<nat>, free': set<nat>,
      p: seq<nat>)
    requires Accounted(mem, mem', root, free, free') && LargeAllocator.LowSame(mem, mem', root)
    ensures OwnedAt(mem, root, p).Some? ==> OwnedAt(mem', root, p) == OwnedAt(mem, root, p)
    ensures OwnedAt(mem, root, p).None? && OwnedAt(mem', root, p).Some? ==>
              |p| <= 3 && OwnedAt(mem', root, p).value in free && OwnedAt(mem', root, p).value !in free'
  {
    if |p| <= 3 {
      OwnedTable(mem, root, p);
      OwnedTable(mem', root, p);
    } else {
      hide Accounted;
    }
  }

  // A frame that has left the free ones, and is not the frame of a page, is a table now.
  lemma OwnedNewTable(mem: Memory, mem': Memory, root: nat, free: set<nat>, free': set<nat>, f: nat)
    requires Accounted(mem, mem', root, free, free') && f in free && f !in free'
    ensures Owned(mem', root, f)
  {
    assert NewTable(mem, mem', root, f);
    var p :| |p| <= 3 && TableAt(mem, root, p).None? && TableAt(mem', root, p) == Some(f);
    OwnedTable(mem', root, p);
  }

  // map takes the frames of the pages to use elsewhere, and those of new tables into the tables.
  lemma {:induction false} ConservedByMapping(mem: Memory, mem': Memory, root: nat, free: set<nat>, free': set<nat>,
      elsewhere: set<nat>, usable: set<nat>, taken: set<nat>)
    requires Conserved(mem, root, free, elsewhere, usable) && taken <= free && Tree(mem', root, free')
    requires Accounted(mem, mem', root, free - taken, free') && LargeAllocator.LowSame(mem, mem', root)
    ensures Conserved(mem', root, free', elsewhere + taken, usable)
  {
    forall p
      ensures OwnedAt(mem, root, p).Some? ==> OwnedAt(mem', root, p) == OwnedAt(mem, root, p)
      ensures OwnedAt(mem, root, p).None? && OwnedAt(mem', root, p).Some? ==>
                && |p| <= 3 && OwnedAt(mem', root, p) == TableAt(mem', root, p)
                && OwnedAt(mem', root, p).value in free - taken && OwnedAt(mem', root, p).value !in free'
    {
      OwnedByMapping(mem, mem', root, free - taken, free', p);
      if |p| <= 3 {
        OwnedTable(mem', root, p);
      }
    }
    forall p, q | OwnedAt(mem', root, p).Some? && OwnedAt(mem', root, p) == OwnedAt(mem', root, q)
      ensures p == q
    {
      if OwnedAt(mem, root, p).None? && OwnedAt(mem, root, q).None? {
        NoTableTwice(mem', root, free', p, q);
      }
    }
    assert free' <= free - taken;
    forall f: nat
      ensures f in usable <==> f in free' || f in elsewhere + taken || Owned(mem', root, f)
    {
      OwnedAfterMapping(mem, mem', root, free, free', elsewhere, usable, taken, f);
    }
  }

  lemma NoTableTwice(mem: Memory, root: nat, free: set<nat>, p: seq<nat>, q: seq<nat>)
    requires Tree(mem, root, free) && |p| <= 3 && |q| <= 3
    requires TableAt(mem, root, p).Some? && TableAt(mem, root, p) == TableAt(mem, root, q)
    ensures p == q
  {
  }

  lemma {:induction false} OwnedAfterMapping(mem: Memory, mem': Memory, root: nat, free: set<nat>, free': set<nat>,
      elsewhere: set<nat>, usable: set<nat>, taken: set<nat>, f: nat)
    requires Conserved(mem, root, free, elsewhere, usable) && taken <= free
    requires Accounted(mem, mem', root, free - taken, free') && LargeAllocator.LowSame(mem, mem', root)
    ensures f in usable <==> f in free' || f in elsewhere + taken || Owned(mem', root, f)
  {
    if f in free && f !in taken && f !in free' {
      OwnedNewTable(mem, mem', root, free - taken, free', f);
    }
    if Owned(mem, root, f) {
      var p :| OwnedAt(mem, root, p) == Some(f);
      OwnedByMapping(mem, mem', root, free - taken, free', p);
      assert OwnedAt(mem', root, p) == Some(f);
    }
    if Owned(mem', root, f) {
      var p :| OwnedAt(mem', root, p) == Some(f);
      OwnedByMapping(mem, mem', root, free - taken, free', p);
      assert OwnedAt(mem, root, p).Some? ==> Owned(mem, root, f);
    }
    assert free' <= free - taken;
  }

  // unmap, with the frames freed: they are in use elsewhere no more.
  lemma {:induction false} ConservedByUnmapping(mem: Memory, mem': Memory, root: nat, free: set<nat>,
      elsewhere: set<nat>, usable: set<nat>, gone: set<nat>)
    requires Conserved(mem, root, free, elsewhere, usable) && gone <= elsewhere
    requires LargeAllocator.SameTables(mem, mem', root) && LargeAllocator.LowSame(mem, mem', root)
    ensures Conserved(mem', root, free + gone, elsewhere - gone, usable)
  {
    forall p
      ensures OwnedAt(mem', root, p) == OwnedAt(mem, root, p)
    {
      if |p| <= 3 {
        OwnedTable(mem, root, p);
        OwnedTable(mem', root, p);
      }
    }
    hide OwnedAt;
    forall f: nat
      ensures Owned(mem', root, f) <==> Owned(mem, root, f)
    {
      if Owned(mem, root, f) {
        var p :| OwnedAt(mem, root, p) == Some(f);
        assert OwnedAt(mem', root, p) == Some(f);
      }
      if Owned(mem', root, f) {
        var p :| OwnedAt(mem', root, p) == Some(f);
        assert OwnedAt(mem, root, p) == Some(f);
      }
    }
  }

  // Rights and full bits of the heap are where no large page is.
  lemma {:induction false} HeapEntriesKept(mem: Memory, mem': Memory, root: nat)
    requires Granted(mem, root) && Indexed(mem, root) && LargeAllocator.LowSame(mem, mem', root)
    ensures Granted(mem', root) && Indexed(mem', root)
  {
    hide Slot;
    forall p | 0 < |p| <= 4 && InHeap(p)
      ensures Truthful(mem', root, p)
    {
      assert Truthful(mem, root, p);
      if |p| < 4 {
        forall i | 0 <= i < 512
          ensures FullAt(mem', root, p + [i]) == FullAt(mem, root, p + [i])
        {
          assert (p + [i])[0] == p[0];
        }
      }
    }
  }

  lemma {:induction false} HeapKeptByMapping(mem: Memory, mem': Memory, root: nat, free: set<nat>, free': set<nat>,
      elsewhere: set<nat>, usable: set<nat>, ns: set<nat>)
    requires HeapInv(mem, root, free, elsewhere, usable) && Indexed(mem, root)
    requires Tree(mem', root, free') && Covered(mem', root) && LargeAllocator.LowSame(mem, mem', root)
    requires LargeAllocator.Supplied(mem, mem', root, free, free', ns)
    ensures HeapInv(mem', root, free', elsewhere + LargeAllocator.FramesOf(mem', root, ns), usable)
    ensures Indexed(mem', root)
  {
    hide Tree, Covered, Granted, Conserved, IndexedBut, Accounted, LargeAllocator.LowSame, LargeAllocator.FramesOf;
    ConservedByMapping(mem, mem', root, free, free', elsewhere, usable, LargeAllocator.FramesOf(mem', root, ns));
    HeapEntriesKept(mem, mem', root);
  }

  lemma {:induction false} HeapKeptByUnmapping(mem: Memory, mem': Memory, root: nat, free: set<nat>, free': set<nat>,
      elsewhere: set<nat>, usable: set<nat>, ns: set<nat>)
    requires HeapInv(mem, root, free, elsewhere, usable) && Indexed(mem, root)
    requires Tree(mem', root, free') && Covered(mem', root) && LargeAllocator.LowSame(mem, mem', root)
    requires LargeAllocator.Regained(mem, mem', root, free, free', ns)
    requires LargeAllocator.FramesOf(mem, root, ns) <= elsewhere
    ensures HeapInv(mem', root, free', elsewhere - LargeAllocator.FramesOf(mem, root, ns), usable)
    ensures Indexed(mem', root)
  {
    hide Tree, Covered, Granted, Conserved, IndexedBut, LargeAllocator.LowSame, LargeAllocator.FramesOf;
    ConservedByUnmapping(mem, mem', root, free, elsewhere, usable, LargeAllocator.FramesOf(mem, root, ns));
    HeapEntriesKept(mem, mem', root);
  }

  // ---------------------------------------------------------------- pages of the slab allocator

  // A step that is seen outside of the slab arena only.
  lemma ArenaKept(mem: Memory, mem': Memory, root: nat, pages: set<nat>)
    requires SlabAllocator.Arena(mem, root, pages)
    requires forall q :: IsPage(q) && SlabAllocator.LOW <= q[0] < SlabAllocator.HIGH ==>
               Walk(mem', root, 0, q) == Walk(mem, root, 0, q)
    ensures SlabAllocator.Arena(mem', root, pages)
  {
    hide Walk, PageNumber;
  }

  lemma LargeIsOutside(mem: Memory, mem': Memory, root: nat, ns: set<nat>)
    requires LargeAllocator.OnlyPages(mem, mem', root, ns)
    requires forall n :: n in ns ==> LargeAllocator.FIRST <= n < LargeAllocator.END
    ensures forall q :: IsPage(q) && q[0] < 232 ==> Walk(mem', root, 0, q) == Walk(mem, root, 0, q)
  {
    hide Walk;
    forall q | IsPage(q) && q[0] < 232
      ensures Walk(mem', root, 0, q) == Walk(mem, root, 0, q)
    {
      forall n | n in ns
        ensures q != PathOf(n)
      {
        LargePath(n);
      }
    }
  }
}
