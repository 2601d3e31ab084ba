/** The large allocator: src/high/memory/heap.cpp:484-538, over the B-tree map of its regions and the page
    tables.  A result of None is where the source panics: no gap is wide enough, or the frames are used up. */
module LargeAllocator {
  import opened Common
  import opened PageTables
  import opened Paging
  import opened Addresses
  import LargeRegions
  import BTreeModel
  import BTreeObject

  type Entry = BTreeModel.Entry

  const FLAGS := Flags(true, false, false, false)

  // Page numbers of the arena.
  const FIRST: nat := 116 * 0x1000_0000
  const END: nat := 126 * 0x1000_0000

  // ---------------------------------------------------------------- the pages of the regions

  ghost function Live(c: seq<Entry>): (s: set<nat>)
    requires forall i :: 0 <= i < |c| ==> LargeRegions.InArena(c[i])
    ensures forall n :: n in s ==> FIRST <= n < END
  {
    if c == [] then {}
    else
      assert LargeRegions.InArena(c[0]);
      Live(c[1..]) + FrameRun(c[0].key / PAGE, c[0].value / PAGE)
  }

  lemma {:induction false} LiveSum(a: seq<Entry>, b: seq<Entry>)
    requires forall i :: 0 <= i < |a| ==> LargeRegions.InArena(a[i])
    requires forall i :: 0 <= i < |b| ==> LargeRegions.InArena(b[i])
    ensures forall i :: 0 <= i < |a + b| ==> LargeRegions.InArena((a + b)[i])
    ensures Live(a + b) == Live(a) + Live(b)
    decreases |a|
  {
    if a == [] {
      assert a + b == b;
    } else {
      LiveSum(a[1..], b);
      assert (a + b)[1..] == a[1..] + b;
    }
  }

  lemma LiveOne(e: Entry)
    requires LargeRegions.InArena(e)
    ensures Live([e]) == FrameRun(e.key / PAGE, e.value / PAGE)
  {
    assert [e][1..] == [];
  }

  lemma {:induction false} LiveAdded(c: seq<Entry>, at: nat, e: Entry)
    requires LargeRegions.Regions(c) && LargeRegions.InArena(e) && at <= |c|
    requires LargeRegions.Regions(c[..at] + [e] + c[at..])
    ensures Live(c[..at] + [e] + c[at..]) == Live(c) + FrameRun(e.key / PAGE, e.value / PAGE)
  {
    assert c == c[..at] + c[at..];
    LiveSum(c[..at], c[at..]);
    LiveSum(c[..at], [e]);
    LiveSum(c[..at] + [e], c[at..]);
    LiveOne(e);
  }

  lemma {:induction false} LiveIn(c: seq<Entry>, n: nat)
    requires forall i :: 0 <= i < |c| ==> LargeRegions.InArena(c[i])
    ensures n in Live(c) <==> exists i :: 0 <= i < |c| && c[i].key <= n * PAGE < c[i].key + c[i].value
  {
    if c != [] {
      LiveIn(c[1..], n);
      assert forall i :: 0 < i < |c| ==> c[i] == c[1..][i - 1];
      assert n in FrameRun(c[0].key / PAGE, c[0].value / PAGE) <==> c[0].key <= n * PAGE < c[0].key + c[0].value;
    }
  }

  // A region without the others: its pages are its own.
  lemma {:induction false} LiveRemoved(c: seq<Entry>, at: nat)
    requires LargeRegions.Regions(c) && at < |c|
    ensures LargeRegions.Regions(c[..at] + c[at + 1..])
    ensures Live(c[..at] + c[at + 1..]) == Live(c) - FrameRun(c[at].key / PAGE, c[at].value / PAGE)
  {
    var c' := c[..at] + c[at + 1..];
    LargeRegions.RegionRemoved(c, at);
    forall n
      ensures n in Live(c') <==> n in Live(c) && n !in FrameRun(c[at].key / PAGE, c[at].value / PAGE)
    {
      if n >= 0 {
        LiveIn(c, n);
        LiveIn(c', n);
        WithinOne(c, at, n);
        assert LargeRegions.InArena(c[at]);
        RunIsRegion(c[at], n);
      }
    }
  }

  lemma RunIsRegion(e: Entry, n: nat)
    requires LargeRegions.InArena(e)
    ensures n in FrameRun(e.key / PAGE, e.value / PAGE) <==> e.key <= n * PAGE < e.key + e.value
  {
  }

  lemma WithinOne(c: seq<Entry>, at: nat, n: nat)
    requires LargeRegions.Regions(c) && at < |c|
    ensures var c' := c[..at] + c[at + 1..];
            (exists i :: 0 <= i < |c'| && c'[i].key <= n * PAGE < c'[i].key + c'[i].value) <==>
            (exists i :: 0 <= i < |c| && c[i].key <= n * PAGE < c[i].key + c[i].value)
            && !(c[at].key <= n * PAGE < c[at].key + c[at].value)
  {
    hide *;
    var c' := c[..at] + c[at + 1..];
    if i :| 0 <= i < |c'| && c'[i].key <= n * PAGE < c'[i].key + c'[i].value {
      var j := if i < at then i else i + 1;
      assert c'[i] == c[j];
      TwoRegions(c, at, j);
    }
    if i :| 0 <= i < |c| && i != at && c[i].key <= n * PAGE < c[i].key + c[i].value {
      assert c'[if i < at then i else i - 1] == c[i];
    }
  }

  lemma TwoRegions(c: seq<Entry>, i: nat, j: nat)
    requires LargeRegions.Regions(c) && i < |c| && j < |c| && i != j
    ensures c[i].key + c[i].value <= c[j].key || c[j].key + c[j].value <= c[i].key
  {
  }

  // ---------------------------------------------------------------- pages and frames

  ghost function FrameOf(mem: Memory, root: nat, n: nat): Option<nat> {
    Frame(mem, root, PathOf(n))
  }

  // A page of a region: the kernel's own, on a frame that is neither free nor a table.
  ghost predicate OnFrame(mem: Memory, root: nat, free: set<nat>, n: nat) {
    var a := Walk(mem, root, 0, PathOf(n));
    a.Some? && a.value.write && !a.value.user && !a.value.writeThrough && !a.value.cacheDisabled
    && a.value.frame !in free && NotTable(mem, root, a.value.frame)
  }

  // In the arena, exactly the pages of the regions are mapped, each on a frame of its own.
  ghost predicate Mapped(mem: Memory, root: nat, free: set<nat>, live: set<nat>) {
    && (forall n :: n in live ==> FIRST <= n < END && OnFrame(mem, root, free, n))
    && (forall n, m :: n in live && m in live && n != m ==> FrameOf(mem, root, n) != FrameOf(mem, root, m))
    && (forall n :: FIRST <= n < END ==>
          SmallPath(mem, root, PathOf(n)) && (n !in live ==> Walk(mem, root, 0, PathOf(n)).None?))
  }

  lemma {:induction false} PageAdded(mem: Memory, mem': Memory, root: nat, free: set<nat>, free': set<nat>,
      live: set<nat>, n: nat, g: nat)
    requires Mapped(mem, root, free, live) && Tree(mem, root, free) && g in free && FIRST <= n < END && n !in live
    requires OthersKept(mem, mem', root, PathOf(n)) && SmallKept(mem, mem', root)
    requires Walk(mem', root, 0, PathOf(n)) == Some(Access(g, true, false, false, false))
    requires Accounted(mem, mem', root, free - {g}, free')
    ensures Mapped(mem', root, free', live + {n})
  {
    hide Walk, SmallPath, TableAt, PathOf, NewTable;
    forall m: nat | FIRST <= m < END && m != n
      ensures Walk(mem', root, 0, PathOf(m)) == Walk(mem, root, 0, PathOf(m))
    {
      if PathOf(m) == PathOf(n) {
        PathsDiffer(m, n);
      }
    }
    assert NotTable(mem', root, g);
    forall f | f !in free && NotTable(mem, root, f)
      ensures NotTable(mem', root, f)
    {
    }
  }

  lemma {:induction false} PageGone(mem: Memory, mem': Memory, root: nat, free: set<nat>, live: set<nat>, n: nat)
    requires Mapped(mem, root, free, live) && n in live
    requires OthersKept(mem, mem', root, PathOf(n)) && SmallKept(mem, mem', root)
    requires Walk(mem', root, 0, PathOf(n)).None? && SameTables(mem, mem', root)
    ensures Mapped(mem', root, free + {FrameOf(mem, root, n).value}, live - {n})
  {
    hide Walk, SmallPath, TableAt, PathOf;
    forall m: nat | FIRST <= m < END && m != n
      ensures Walk(mem', root, 0, PathOf(m)) == Walk(mem, root, 0, PathOf(m))
    {
      if PathOf(m) == PathOf(n) {
        PathsDiffer(m, n);
      }
    }
    forall f | NotTable(mem, root, f)
      ensures NotTable(mem', root, f)
    {
    }
  }

  // Pages outside of a set are as they were.
  ghost predicate OnlyPages(mem: Memory, mem': Memory, root: nat, ns: set<nat>) {
    forall q :: |q| == 4 && (forall n :: n in ns ==> q != PathOf(n)) ==> Walk(mem', root, 0, q) == Walk(mem, root, 0, q)
  }

  lemma OnlyOneMore(mem: Memory, mem': Memory, mem'': Memory, root: nat, ns: set<nat>, n: nat)
    requires OnlyPages(mem, mem', root, ns) && OthersKept(mem', mem'', root, PathOf(n))
    ensures OnlyPages(mem, mem'', root, ns + {n})
  {
    hide Walk, PathOf;
    forall q | |q| == 4 && (forall m :: m in ns + {n} ==> q != PathOf(m))
      ensures Walk(mem'', root, 0, q) == Walk(mem, root, 0, q)
    {
      assert n in ns + {n};
      forall m | m in ns
        ensures q != PathOf(m)
      {
        assert m in ns + {n};
      }
    }
  }

  // The frames of some pages.
  ghost function FramesOf(mem: Memory, root: nat, ns: set<nat>): set<nat> {
    set n | n in ns && FrameOf(mem, root, n).Some? :: FrameOf(mem, root, n).value
  }

  lemma FramesPlus(mem: Memory, root: nat, ns: set<nat>, n: nat)
    requires FrameOf(mem, root, n).Some?
    ensures FramesOf(mem, root, ns + {n}) == FramesOf(mem, root, ns) + {FrameOf(mem, root, n).value}
  {
    hide FrameOf;
    forall f
      ensures f in FramesOf(mem, root, ns + {n}) <==> f in FramesOf(mem, root, ns) + {FrameOf(mem, root, n).value}
    {
      if f in FramesOf(mem, root, ns) {
        var m :| m in ns && FrameOf(mem, root, m) == Some(f);
        assert m in ns + {n};
      }
      if f == FrameOf(mem, root, n).value {
        assert n in ns + {n};
      }
    }
  }

  lemma FramesSame(mem: Memory, mem': Memory, root: nat, ns: set<nat>)
    requires forall n :: n in ns ==> FrameOf(mem', root, n) == FrameOf(mem, root, n)
    ensures FramesOf(mem', root, ns) == FramesOf(mem, root, ns)
  {
    hide FrameOf;
    forall f
      ensures f in FramesOf(mem', root, ns) <==> f in FramesOf(mem, root, ns)
    {
      if f in FramesOf(mem, root, ns) {
        var m :| m in ns && FrameOf(mem, root, m) == Some(f);
        assert FrameOf(mem', root, m) == Some(f);
      }
      if f in FramesOf(mem', root, ns) {
        var m :| m in ns && FrameOf(mem', root, m) == Some(f);
        assert FrameOf(mem, root, m) == Some(f);
      }
    }
  }

  ghost predicate SameTables(mem: Memory, mem': Memory, root: nat) {
    forall p :: |p| <= 3 ==> TableAt(mem', root, p) == TableAt(mem, root, p)
  }

  // The entries of the other arenas, and of everything before them, are as they were.
  ghost predicate LowSame(mem: Memory, mem': Memory, root: nat) {
    forall q :: 0 < |q| <= 4 && q[0] < 232 ==> Slot(mem', root, q) == Slot(mem, root, q)
  }

  lemma LowThen(mem: Memory, mem': Memory, mem'': Memory, root: nat, n: nat)
    requires LowSame(mem, mem', root) && OffPage(mem', mem'', root, PathOf(n)) && FIRST <= n
    ensures LowSame(mem, mem'', root)
  {
    hide Slot;
    assert PathOf(n)[0] >= 232;
    hide PathOf;
  }

  // ---------------------------------------------------------------- the allocator

  // The first n pages of a region come to be mapped.
  ghost predicate Mapping(mem0: Memory, mem: Memory, root: nat, free0: set<nat>, free: set<nat>, live: set<nat>,
      first: nat, n: nat) {
    && Tree(mem, root, free) && Covered(mem, root)
    && Mapped(mem, root, free, live + FrameRun(first, n)) && OnlyPages(mem0, mem, root, FrameRun(first, n))
    && LowSame(mem0, mem, root) && Supplied(mem0, mem, root, free0, free, FrameRun(first, n))
  }

  // The pages lie on frames that were free; of the other frames that are free no more, each is a new table.
  ghost predicate Supplied(mem: Memory, mem': Memory, root: nat, free: set<nat>, free': set<nat>, ns: set<nat>) {
    && (forall n :: n in ns ==> FrameOf(mem', root, n).Some?)
    && FramesOf(mem', root, ns) <= free && Accounted(mem, mem', root, free - FramesOf(mem', root, ns), free')
  }

  class LargeAllocator {
    const regions: BTreeObject.BTree
    const pt: PageTable

    ghost predicate Valid()
      reads regions, regions.Nodes(), pt
    {
      && regions.Valid() && pt.Valid() && LargeRegions.Regions(regions.Contents())
      && Mapped(pt.mem, pt.root, pt.free, Live(regions.Contents()))
    }

    // What Valid says, part by part.
    lemma Parts()
      requires Valid()
      ensures regions.Valid() && pt.Valid() && Tree(pt.mem, pt.root, pt.free) && Covered(pt.mem, pt.root)
      ensures LargeRegions.Regions(regions.Contents())
      ensures Mapped(pt.mem, pt.root, pt.free, Live(regions.Contents()))
    {
      hide Mapped, Tree, Covered, LargeRegions.Regions, Live;
      hide BTreeObject.BTree.Valid, BTreeObject.BTree.Contents, BTreeObject.BTree.Nodes;
    }

    lemma Together()
      requires regions.Valid() && LargeRegions.Regions(regions.Contents())
      requires Tree(pt.mem, pt.root, pt.free) && Covered(pt.mem, pt.root)
      requires Mapped(pt.mem, pt.root, pt.free, Live(regions.Contents()))
      ensures Valid()
    {
      hide Mapped, Tree, Covered, LargeRegions.Regions, Live;
      hide BTreeObject.BTree.Valid, BTreeObject.BTree.Contents, BTreeObject.BTree.Nodes;
    }

    constructor (pt: PageTable)
      requires pt.Valid() && Mapped(pt.mem, pt.root, pt.free, {})
      ensures Valid() && fresh(regions) && this.pt == pt && regions.Contents() == [] && regions.Nodes() == {}
    {
      this.pt := pt;
      this.regions := new BTreeObject.BTree();
    }

    // Lines 508-511.
    method MapPages(first: nat, pages: nat, ghost live: set<nat>) returns (ok: bool)
      requires pt.Valid() && Mapped(pt.mem, pt.root, pt.free, live)
      requires FIRST <= first && first + pages <= END && forall n :: first <= n < first + pages ==> n !in live
      modifies pt
      ensures ok ==> Mapping(old(pt.mem), pt.mem, pt.root, old(pt.free), pt.free, live, first, pages)
      ensures !ok ==> pt.free == {}
    {
      hide Tree, Covered, Mapped, OnlyPages, TableAt, PathOf, Walk, SmallPath, Accounted, LowSame, Supplied, OffPage;
      var i := 0;
      NothingMapped(pt.mem, pt.root, pt.free, live, first);
      while i < pages
        invariant i <= pages
        invariant Mapping(old(pt.mem), pt.mem, pt.root, old(pt.free), pt.free, live, first, i)
      {
        if pt.free == {} {
          return false;
        }
        var g :| g in pt.free;
        ghost var mem, free := pt.mem, pt.free;
        PathIsPage(first + i);
        PageIsSmall(pt.mem, pt.root, pt.free, live + FrameRun(first, i), first + i);
        TreeShrinks(pt.mem, pt.root, pt.free, pt.free - {g});
        pt.free := pt.free - {g};
        ok := pt.Map(g, PathOf(first + i), FLAGS);
        if !ok {
          return;
        }
        OneMapped(old(pt.mem), mem, pt.mem, pt.root, old(pt.free), free, pt.free, live, first, i, g);
        i := i + 1;
      }
      return true;
    }

    // Lines 496-503.
    method FindPlace(bytes: nat) returns (last: int)
      requires Valid()
      ensures Valid() && last == LargeRegions.Start(regions.Contents(), LargeRegions.LOW, bytes)
    {
      hide Mapped, Tree, Covered, LargeRegions.Regions, BTreeModel.Inorder, Live, LargeRegions.Start;
      hide BTreeObject.BTree.Valid, BTreeObject.BTree.Contents, BTreeObject.BTree.Nodes;
      LargeRegions.GapStepFreezes(bytes);
      LargeRegions.VisitIsStart(regions.Contents(), LargeRegions.LOW, bytes);
      last := regions.Iterate(LargeRegions.GapStep(bytes), LargeRegions.LOW);
    }

    // Line 512.
    method Record(start: nat, bytes: nat)
      requires regions.Valid() && LargeRegions.Regions(regions.Contents())
      requires LargeRegions.InArena(BTreeModel.Entry(start, bytes))
      requires forall e :: e in regions.Contents() ==> LargeRegions.Apart(e, start, bytes)
      modifies regions, regions.Nodes()
      ensures regions.Valid() && fresh(regions.Nodes() - old(regions.Nodes()))
      ensures LargeRegions.Regions(regions.Contents())
      ensures Placed(old(regions.Contents()), regions.Contents(), BTreeModel.Entry(start, bytes))
      ensures Live(regions.Contents()) == Live(old(regions.Contents())) + FrameRun(start / PAGE, bytes / PAGE)
    {
      hide LargeRegions.Regions, BTreeModel.Inorder, Live;
      hide BTreeObject.BTree.Valid, BTreeObject.BTree.Contents, BTreeObject.BTree.Nodes;
      ghost var c := regions.Contents();
      ghost var at := regions.Insert(BTreeModel.Entry(start, bytes));
      InOrder(regions);
      RegionRecorded(c, at, BTreeModel.Entry(start, bytes));
    }

    // malloc: the lowest place with a gap that the strict test accepts, mapped page by page.
    method Malloc(size: nat) returns (address: Option<nat>)
      requires Valid() && size > 0
      modifies regions, regions.Nodes(), pt
      ensures forall r :: r in regions.Nodes() && r !in old(regions.Nodes()) ==> fresh(r)
      ensures address.None? ==>
                || pt.free == {}
                || LargeRegions.Start(old(regions.Contents()), 116 * TIB, Rounded(size)) + Rounded(size) > 126 * TIB
      ensures address.Some? ==> Valid()
      ensures address.Some? && old(regions.Contents()) == [] ==> address.value == 116 * TIB
      ensures address.Some? ==>
                && address.value == LargeRegions.Start(old(regions.Contents()), 116 * TIB, Rounded(size))
                && address.value % PAGE == 0 && address.value + Rounded(size) <= 126 * TIB
                && Placed(old(regions.Contents()), regions.Contents(), BTreeModel.Entry(address.value, Rounded(size)))
                && Provided(old(pt.mem), pt.mem, pt.root, old(pt.free), pt.free, address.value, size)
    {
      hide *;
      PageSize();
      ArenaIs(Rounded(size));
      ghost var nodes := BTreeModel.Snap(regions.Nodes());
      Parts();
      RoundedIs(size);
      var pages := (size + PAGE - 1) / PAGE;
      ghost var c := regions.Contents();
      PlaceFound(c, pages * PAGE);
      var last := FindPlace(pages * PAGE);
      if last + pages * PAGE > LargeRegions.HIGH {
        return None;
      }
      var ok := MapPages(last / PAGE, pages, Live(c));
      if !ok {
        return None;
      }
      MappingParts(old(pt.mem), pt.mem, pt.root, old(pt.free), pt.free, Live(c), last, size);
      label PagesMapped:
      Record(last, pages * PAGE);
      forall r | r in regions.Nodes() && r !in old(regions.Nodes())
        ensures fresh(r)
      {
        assert r in regions.Nodes() - old@PagesMapped(regions.Nodes());
        assert fresh@PagesMapped(r);
      }
      Together();
      return Some(last);
    }

    // Lines 519-520.
    method FindRegion(ptr: nat) returns (size: nat, ghost at: nat)
      requires Valid() && BTreeModel.Has(regions.Contents(), ptr)
      ensures Valid() && at < |regions.Contents()| && regions.Contents()[at] == BTreeModel.Entry(ptr, size)
      ensures ptr % PAGE == size % PAGE == 0 && FIRST <= ptr / PAGE && (ptr + size) / PAGE <= END
      ensures forall i :: 0 <= i < |regions.Contents()| ==> LargeRegions.InArena(regions.Contents()[i])
      ensures FrameRun(ptr / PAGE, size / PAGE) <= Live(regions.Contents())
    {
      hide Mapped, Tree, Covered, BTreeModel.Inorder, Live, LargeRegions.Regions;
      hide BTreeObject.BTree.Valid, BTreeObject.BTree.Contents, BTreeObject.BTree.Nodes;
      ghost var c := regions.Contents();
      var found := regions.Find(ptr);
      ghost var i :| 0 <= i < |c| && c[i] == found.value;
      RegionBounds(c, i);
      return found.value.value, i;
    }

    // Line 527.
    method Forget(ptr: nat, ghost at: nat)
      requires regions.Valid() && LargeRegions.Regions(regions.Contents())
      requires at < |regions.Contents()| && regions.Contents()[at].key == ptr
      modifies regions, regions.Nodes()
      ensures regions.Valid() && regions.Nodes() <= old(regions.Nodes())
      ensures LargeRegions.Regions(regions.Contents())
      ensures var c := old(regions.Contents());
              regions.Contents() == c[..at] + c[at + 1..]
              && Live(regions.Contents()) == Live(c) - FrameRun(c[at].key / PAGE, c[at].value / PAGE)
    {
      hide LargeRegions.Regions, BTreeModel.Inorder, Live;
      hide BTreeObject.BTree.Valid, BTreeObject.BTree.Contents, BTreeObject.BTree.Nodes;
      ghost var c := regions.Contents();
      assert BTreeModel.Has(c, ptr);
      var removed;
      ghost var at';
      removed, at' := regions.Remove(ptr);
      LargeRegions.OneRegion(c, c[at], at');
      SameKeySamePlace(c, at, at');
      LiveRemoved(c, at);
    }

    // free.  Nothing is asked for a null pointer; any other must begin a region.
    method Free(ptr: nat)
      requires Valid() && (ptr != 0 ==> BTreeModel.Has(regions.Contents(), ptr))
      modifies regions, regions.Nodes(), pt
      ensures Valid() && regions.Nodes() <= old(regions.Nodes())
      ensures ptr == 0 ==>
                regions.Contents() == old(regions.Contents()) && pt.mem == old(pt.mem) && pt.free == old(pt.free)
      ensures ptr != 0 ==>
                exists at :: 0 <= at < |old(regions.Contents())| && old(regions.Contents())[at].key == ptr
                             && Returned(old(pt.mem), pt.mem, pt.root, old(pt.free), pt.free, old(regions.Contents()),
                                         regions.Contents(), at)
    {
      hide *;
      ghost var nodes := BTreeModel.Snap(regions.Nodes());
      if ptr == 0 {
        return;
      }
      Parts();
      ghost var c := regions.Contents();
      ghost var at;
      var size;
      size, at := FindRegion(ptr);
      UnmapPages(ptr, size, Live(c));
      UnmappingParts(old(pt.mem), pt.mem, pt.root, old(pt.free), pt.free, c, at);
      Forget(ptr, at);
      Together();
    }

    // Lines 521-525: each page's frame is asked for, freed, and the page unmapped.
    method UnmapPages(ptr: nat, size: nat, ghost live: set<nat>)
      requires pt.Valid() && Mapped(pt.mem, pt.root, pt.free, live)
      requires ptr % PAGE == 0 && size % PAGE == 0 && FIRST <= ptr / PAGE && (ptr + size) / PAGE <= END
      requires FrameRun(ptr / PAGE, size / PAGE) <= live
      modifies pt
      ensures Unmapping(old(pt.mem), pt.mem, pt.root, old(pt.free), pt.free, live, ptr / PAGE, size / PAGE)
    {
      hide Tree, Covered, Mapped, OnlyPages, TableAt, EntryAt, PathOf, Walk, SmallPath, LowSame, Regained, OffPage;
      hide Readable, Steps, MadeAbsent;
      var i := 0;
      NothingUnmapped(pt.mem, pt.root, pt.free, live, ptr / PAGE);
      while i < size
        invariant i <= size && i % PAGE == 0
        invariant Unmapping(old(pt.mem), pt.mem, pt.root, old(pt.free), pt.free, live, ptr / PAGE, i / PAGE)
      {
        var n := (ptr + i) / PAGE;
        ghost var mem, free, left := pt.mem, pt.free, live - FrameRun(ptr / PAGE, i / PAGE);
        PathIsPage(n);
        LivePage(pt.mem, pt.root, pt.free, left, n);
        NotInWindow(n);
        PageIsSmall(pt.mem, pt.root, pt.free, left, n);
        GetAgreesWithWalk(pt.mem, pt.root, pt.free, PathOf(n), 0);
        var a := pt.Get(PathOf(n), 0);
        TreeGrows(pt.mem, pt.root, pt.free, a.value / PAGE);
        pt.free := pt.free + {a.value / PAGE};
        EndIsReadable(pt.mem, pt.root, pt.free, PathOf(n));
        pt.Unmap(PathOf(n));
        OneUnmapped(old(pt.mem), mem, pt.mem, pt.root, old(pt.free), free, live, ptr / PAGE, i / PAGE);
        i := i + PAGE;
      }
    }

    // size
    method Size(ptr: nat) returns (size: nat)
      requires Valid()
      ensures Valid()
      ensures ptr == 0 || !BTreeModel.Has(regions.Contents(), ptr) ==> size == 0
      ensures ptr != 0 ==> forall e :: e in regions.Contents() && e.key == ptr ==> size == e.value
    {
      hide Mapped, Tree, Covered, BTreeModel.Inorder;
      hide BTreeObject.BTree.Contents, BTreeObject.BTree.Nodes, BTreeObject.BTree.Valid;
      if ptr == 0 {
        return 0;
      }
      var found := regions.Find(ptr);
      if found.None? {
        return 0;
      }
      ghost var c := regions.Contents();
      assert LargeRegions.Regions(c);
      assert LargeRegions.InArena(found.value);
      forall e | e in c && e.key == ptr
        ensures e == found.value
      {
        var at :| 0 <= at < |c| && c[at] == e;
        LargeRegions.OneRegion(c, found.value, at);
      }
      return found.value.value;
    }
  }

  lemma InOrder(regions: BTreeObject.BTree)
    requires regions.Valid()
    ensures BTreeModel.Sorted(regions.Contents())
  {
  }

  lemma RegionRecorded(c: seq<Entry>, at: nat, e: Entry)
    requires LargeRegions.Regions(c) && LargeRegions.InArena(e) && at <= |c|
    requires BTreeModel.Sorted(c[..at] + [e] + c[at..])
    requires forall i :: 0 <= i < |c| ==> LargeRegions.Apart(c[i], e.key, e.value)
    ensures LargeRegions.Regions(c[..at] + [e] + c[at..]) && Placed(c, c[..at] + [e] + c[at..], e)
    ensures Live(c[..at] + [e] + c[at..]) == Live(c) + FrameRun(e.key / PAGE, e.value / PAGE)
  {
    LargeRegions.RegionAdded(c, at, e);
    LiveAdded(c, at, e);
  }

  lemma RegionBounds(c: seq<Entry>, at: nat)
    requires LargeRegions.Regions(c) && at < |c|
    ensures var e := c[at];
            && e.key >= 0 && e.value > 0 && e.key % PAGE == 0 && e.value % PAGE == 0
            && FIRST <= e.key / PAGE && (e.key + e.value) / PAGE <= END
            && (forall i :: 0 <= i < |c| ==> LargeRegions.InArena(c[i]))
            && FrameRun(e.key / PAGE, e.value / PAGE) <= Live(c)
  {
    assert LargeRegions.InArena(c[at]);
    forall n | n in FrameRun(c[at].key / PAGE, c[at].value / PAGE)
      ensures n in Live(c)
    {
      LiveIn(c, n);
    }
  }

  lemma SameKeySamePlace(c: seq<Entry>, i: nat, j: nat)
    requires LargeRegions.Regions(c) && i < |c| && j < |c| && c[i] == c[j]
    ensures i == j
  {
    assert LargeRegions.InArena(c[i]);
  }

  // The first n pages of a region have been unmapped, and their frames freed.
  ghost predicate Unmapping(mem0: Memory, mem: Memory, root: nat, free0: set<nat>, free: set<nat>, live: set<nat>,
      first: nat, n: nat) {
    && Tree(mem, root, free) && Covered(mem, root)
    && Mapped(mem, root, free, live - FrameRun(first, n)) && OnlyPages(mem0, mem, root, FrameRun(first, n))
    && LowSame(mem0, mem, root) && Regained(mem0, mem, root, free0, free, FrameRun(first, n))
  }

  // The pages are gone, and exactly their frames have become free.
  ghost predicate Regained(mem: Memory, mem': Memory, root: nat, free: set<nat>, free': set<nat>, ns: set<nat>) {
    && (forall n :: n in ns ==> FrameOf(mem, root, n).Some? && FrameOf(mem', root, n).None?)
    && free' == free + FramesOf(mem, root, ns) && SameTables(mem, mem', root)
  }

  lemma NothingUnmapped(mem: Memory, root: nat, free: set<nat>, live: set<nat>, first: nat)
    requires Tree(mem, root, free) && Covered(mem, root) && Mapped(mem, root, free, live)
    ensures Unmapping(mem, mem, root, free, free, live, first, 0)
  {
    assert live - FrameRun(first, 0) == live;
  }

  lemma NotInWindow(n: nat)
    requires FIRST <= n
    ensures !InWindow(PathOf(n))
  {
  }

  lemma LivePage(mem: Memory, root: nat, free: set<nat>, live: set<nat>, n: nat)
    requires Mapped(mem, root, free, live) && n in live
    ensures FIRST <= n < END && FrameOf(mem, root, n).Some? && NotTable(mem, root, FrameOf(mem, root, n).value)
  {
  }

  lemma {:induction false} OneUnmapped(mem0: Memory, mem: Memory, mem': Memory, root: nat, free0: set<nat>,
      free: set<nat>, live: set<nat>, first: nat, i: nat)
    requires Unmapping(mem0, mem, root, free0, free, live, first, i)
    requires FIRST <= first && first + i < END && first + i in live && FrameOf(mem, root, first + i).Some?
    requires Tree(mem', root, free + {FrameOf(mem, root, first + i).value}) && Covered(mem', root)
    requires OthersKept(mem, mem', root, PathOf(first + i)) && SmallKept(mem, mem', root)
    requires SameTables(mem, mem', root) && OffPage(mem, mem', root, PathOf(first + i))
    requires Walk(mem', root, 0, PathOf(first + i)).None?
    ensures Unmapping(mem0, mem', root, free0, free + {FrameOf(mem, root, first + i).value}, live, first, i + 1)
  {
    var n := first + i;
    RunMore(live, first, i);
    hide FrameRun, Walk, Mapped, Tree, Covered, OnlyPages, PathOf, TableAt, OthersKept, FrameOf, SmallKept, FramesOf;
    hide OffPage, LowSame;
    LowThen(mem0, mem, mem', root, n);
    PageGone(mem, mem', root, free, live - FrameRun(first, i), n);
    SameSoFar(mem0, mem, root, first, i);
    OnlyOneMore(mem0, mem, mem', root, FrameRun(first, i), n);
    NoFrame(mem', root, n);
    FramesPlus(mem0, root, FrameRun(first, i), n);
    RunWithin(first, i);
    forall k | k in FrameRun(first, i)
      ensures FrameOf(mem', root, k) == FrameOf(mem, root, k)
    {
      FrameKept(mem, mem', root, n, k);
    }
  }

  lemma RunWithin(first: nat, i: nat)
    ensures forall k :: k in FrameRun(first, i) <==> first <= k < first + i
  {
  }

  lemma RunMore(live: set<nat>, first: nat, i: nat)
    ensures FrameRun(first, i + 1) == FrameRun(first, i) + {first + i} && first + i !in FrameRun(first, i)
    ensures live + FrameRun(first, i + 1) == (live + FrameRun(first, i)) + {first + i}
    ensures live - FrameRun(first, i + 1) == (live - FrameRun(first, i)) - {first + i}
  {
  }

  lemma NoFrame(mem: Memory, root: nat, n: nat)
    ensures var a := Walk(mem, root, 0, PathOf(n));
            FrameOf(mem, root, n) == if a.Some? then Some(a.value.frame) else None
  {
  }

  lemma FrameKept(mem: Memory, mem': Memory, root: nat, n: nat, k: nat)
    requires OthersKept(mem, mem', root, PathOf(n)) && n < END && k < END && k != n
    ensures FrameOf(mem', root, k) == FrameOf(mem, root, k)
  {
    hide Walk, PathOf;
    if PathOf(k) == PathOf(n) {
      PathsDiffer(k, n);
    }
  }

  // The next page has not changed yet.
  lemma SameSoFar(mem0: Memory, mem: Memory, root: nat, first: nat, i: nat)
    requires OnlyPages(mem0, mem, root, FrameRun(first, i)) && first + i < END
    ensures FrameOf(mem, root, first + i) == FrameOf(mem0, root, first + i)
  {
    hide Walk, PathOf;
    forall m | m in FrameRun(first, i)
      ensures PathOf(first + i) != PathOf(m)
    {
      if PathOf(first + i) == PathOf(m) {
        PathsDiffer(first + i, m);
      }
    }
  }

  lemma MappingParts(mem0: Memory, mem: Memory, root: nat, free0: set<nat>, free: set<nat>, live: set<nat>,
      start: nat, size: nat)
    requires Mapping(mem0, mem, root, free0, free, live, start / PAGE, (size + PAGE - 1) / PAGE)
    ensures Tree(mem, root, free) && Covered(mem, root)
    ensures Rounded(size) / PAGE == (size + PAGE - 1) / PAGE
    ensures Mapped(mem, root, free, live + FrameRun(start / PAGE, Rounded(size) / PAGE))
    ensures Provided(mem0, mem, root, free0, free, start, size)
  {
    hide Mapped, Tree, Covered, OnlyPages, FrameOf, FrameRun, LowSame, Supplied;
  }

  lemma UnmappingParts(mem0: Memory, mem: Memory, root: nat, free0: set<nat>, free: set<nat>, c: seq<Entry>, at: nat)
    requires LargeRegions.Regions(c) && at < |c| && c[at].key >= 0 && c[at].value >= 0
    requires Unmapping(mem0, mem, root, free0, free, Live(c), c[at].key / PAGE, c[at].value / PAGE)
    ensures Tree(mem, root, free) && Covered(mem, root)
    ensures Mapped(mem, root, free, Live(c) - FrameRun(c[at].key / PAGE, c[at].value / PAGE))
    ensures LargeRegions.InArena(c[at])
    ensures Returned(mem0, mem, root, free0, free, c, c[..at] + c[at + 1..], at)
  {
    hide Mapped, Tree, Covered, OnlyPages, FrameOf, FrameRun, Live, LowSame, Regained;
  }

  lemma ArenaIs(bytes: nat)
    ensures LargeRegions.LOW == 116 * TIB && LargeRegions.HIGH == 126 * TIB
    ensures LargeRegions.Start([], LargeRegions.LOW, bytes) == LargeRegions.LOW
  {
  }

  lemma RoundedIs(size: nat)
    ensures Rounded(size) == (size + PAGE - 1) / PAGE * PAGE
  {
  }

  // The size of the pages that hold `size` bytes.
  function Rounded(size: nat): nat {
    (size + PAGE - 1) / PAGE * PAGE
  }

  // One region more, wherever it belongs in the order.
  ghost predicate Placed(c: seq<Entry>, c': seq<Entry>, e: Entry) {
    exists at :: 0 <= at <= |c| && c' == c[..at] + [e] + c[at..]
  }

  // All pages of the region are on frames that were free; no other page has changed.
  ghost predicate Provided(mem: Memory, mem': Memory, root: nat, free: set<nat>, free': set<nat>, start: nat,
      size: nat) {
    var first, pages := start / PAGE, Rounded(size) / PAGE;
    && OnlyPages(mem, mem', root, FrameRun(first, pages)) && LowSame(mem, mem', root)
    && Supplied(mem, mem', root, free, free', FrameRun(first, pages))
  }

  ghost predicate Returned(mem: Memory, mem': Memory, root: nat, free: set<nat>, free': set<nat>, c: seq<Entry>,
      c': seq<Entry>, at: nat)
    requires at < |c| && LargeRegions.InArena(c[at])
  {
    var first, pages := c[at].key / PAGE, c[at].value / PAGE;
    && c' == c[..at] + c[at + 1..]
    && OnlyPages(mem, mem', root, FrameRun(first, pages)) && LowSame(mem, mem', root)
    && Regained(mem, mem', root, free, free', FrameRun(first, pages))
  }

  // Where the search ends, the bytes are nobody's.
  lemma {:induction false} PlaceFound(c: seq<Entry>, bytes: nat)
    requires LargeRegions.Regions(c) && bytes % PAGE == 0 && bytes > 0
    ensures forall i :: 0 <= i < |c| ==> LargeRegions.InArena(c[i])
    ensures var s := LargeRegions.Start(c, LargeRegions.LOW, bytes);
            && LargeRegions.LOW <= s && s % PAGE == 0
            && (forall e :: e in c ==> LargeRegions.Apart(e, s, bytes))
            && (s + bytes <= LargeRegions.HIGH ==>
                  && LargeRegions.InArena(BTreeModel.Entry(s, bytes))
                  && FIRST <= s / PAGE && s / PAGE + bytes / PAGE <= END
                  && forall n :: s / PAGE <= n < s / PAGE + bytes / PAGE ==> n !in Live(c))
  {
    var s := LargeRegions.Start(c, LargeRegions.LOW, bytes);
    LargeRegions.StartIsFree(c, LargeRegions.LOW, bytes);
    LargeRegions.StartIsAccepted(c, LargeRegions.LOW, bytes);
    StartOnPage(c, s);
    hide LargeRegions.Start, LargeRegions.Accepts, Live;
    forall n: nat | s / PAGE <= n < s / PAGE + bytes / PAGE
      ensures n !in Live(c)
    {
      LiveIn(c, n);
      NotWithin(c, s, bytes, n);
    }
  }

  lemma SumOnPage(a: int, b: int)
    requires a % PAGE == 0 && b % PAGE == 0
    ensures (a + b) % PAGE == 0
  {
  }

  lemma StartOnPage(c: seq<Entry>, s: int)
    requires LargeRegions.Regions(c) && (s == LargeRegions.LOW || LargeRegions.Ends(c, s))
    ensures s % PAGE == 0
  {
    if s != LargeRegions.LOW {
      var i :| 0 <= i < |c| && s == c[i].key + c[i].value;
      assert LargeRegions.InArena(c[i]);
      hide *;
      SumOnPage(c[i].key, c[i].value);
    }
  }

  lemma NotWithin(c: seq<Entry>, s: nat, bytes: nat, n: nat)
    requires s % PAGE == 0 && bytes % PAGE == 0 && s / PAGE <= n < s / PAGE + bytes / PAGE
    requires forall i :: 0 <= i < |c| ==> LargeRegions.Apart(c[i], s, bytes)
    ensures !exists i :: 0 <= i < |c| && c[i].key <= n * PAGE < c[i].key + c[i].value
  {
    assert s <= n * PAGE < s + bytes;
    forall i | 0 <= i < |c|
      ensures !(c[i].key <= n * PAGE < c[i].key + c[i].value)
    {
      assert LargeRegions.Apart(c[i], s, bytes);
    }
  }

  lemma NothingMapped(mem: Memory, root: nat, free: set<nat>, live: set<nat>, first: nat)
    requires Tree(mem, root, free) && Covered(mem, root) && Mapped(mem, root, free, live)
    ensures Mapping(mem, mem, root, free, free, live, first, 0)
  {
    assert live + FrameRun(first, 0) == live;
  }

  lemma PageIsSmall(mem: Memory, root: nat, free: set<nat>, live: set<nat>, n: nat)
    requires Mapped(mem, root, free, live) && FIRST <= n < END
    ensures SmallPath(mem, root, PathOf(n))
  {
  }

  lemma {:induction false} OneMapped(mem0: Memory, mem: Memory, mem': Memory, root: nat, free0: set<nat>,
      free: set<nat>, free': set<nat>, live: set<nat>, first: nat, i: nat, g: nat)
    requires Mapping(mem0, mem, root, free0, free, live, first, i) && g in free
    requires FIRST <= first && first + i < END && first + i !in live
    requires Tree(mem', root, free') && Covered(mem', root)
    requires OthersKept(mem, mem', root, PathOf(first + i)) && SmallKept(mem, mem', root)
    requires Accounted(mem, mem', root, free - {g}, free') && OffPage(mem, mem', root, PathOf(first + i))
    requires Walk(mem', root, 0, PathOf(first + i)) == Some(Access(g, true, false, false, false))
    ensures Mapping(mem0, mem', root, free0, free', live, first, i + 1)
  {
    var n := first + i;
    RunMore(live, first, i);
    hide FrameRun, Walk, Mapped, Tree, Covered, OnlyPages, PathOf, TableAt, OthersKept, FrameOf, SmallKept, FramesOf;
    hide OffPage, LowSame, Accounted;
    LowThen(mem0, mem, mem', root, n);
    PageAdded(mem, mem', root, free, free', live + FrameRun(first, i), n, g);
    OnlyOneMore(mem0, mem, mem', root, FrameRun(first, i), n);
    NoFrame(mem', root, n);
    RunWithin(first, i);
    forall k | k in FrameRun(first, i)
      ensures FrameOf(mem', root, k) == FrameOf(mem, root, k)
    {
      FrameKept(mem, mem', root, n, k);
    }
    SuppliedMore(mem0, mem, mem', root, free0, free, free', FrameRun(first, i), n, g);
  }

  lemma SuppliedMore(mem0: Memory, mem: Memory, mem': Memory, root: nat, free0: set<nat>, free: set<nat>,
      free': set<nat>, ns: set<nat>, n: nat, g: nat)
    requires Supplied(mem0, mem, root, free0, free, ns) && g in free && FrameOf(mem', root, n) == Some(g)
    requires forall k :: k in ns ==> FrameOf(mem', root, k) == FrameOf(mem, root, k)
    requires Accounted(mem, mem', root, free - {g}, free')
    ensures Supplied(mem0, mem', root, free0, free', ns + {n})
  {
    FramesSame(mem, mem', root, ns);
    FramesPlus(mem', root, ns, n);
    hide FrameOf, FramesOf;
    var taken := FramesOf(mem, root, ns);
    assert g in free0 - taken by { hide NewTable, TableAt; }
    AccountedThen(mem0, mem, mem', root, free0 - taken, free, {g}, free');
    assert free0 - taken - {g} == free0 - (taken + {g});
    hide Accounted;
  }
}
