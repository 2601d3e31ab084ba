/** The kernel heap: kheap, src/high/memory/heap.cpp:31-63, over its three allocators, which share the page
    tables and the free frames.  What the heap has given out is a set of blocks; every call changes that set
    by the block it is about, and by nothing else. */
module KernelHeap {
  import opened Addresses
  import opened Common
  import opened Neighbours
  import opened PageHeap
  import opened PageTables
  import opened Paging
  import BTreeModel
  import BTreeObject
  import LargeAllocator
  import LargeRegions
  import SlabAllocator
  import SlabPages

  type Reply = SlabAllocator.Reply
  type Region = BTreeModel.Entry

  // ---------------------------------------------------------------- routing

  datatype Allocator = NoAllocator | ByPage | BySlab | ByRegion

  // Where free and get_size send an address.
  function Route(a: int): Allocator {
    if a < 96 * TIB then NoAllocator
    else if a - 96 * TIB < 10 * TIB then ByPage
    else if a - 96 * TIB < 20 * TIB then BySlab
    else ByRegion
  }

  // The route is read off the root index of the address.
  lemma RouteByIndex(a: nat)
    requires a < 128 * TIB
    ensures IsPage(PathOf(a / PAGE))
    ensures var top := PathOf(a / PAGE)[0];
            && (Route(a) == ByPage <==> HEAP_LOW <= top < 212)
            && (Route(a) == BySlab <==> 212 <= top < HEAP_HIGH)
            && (Route(a) == ByRegion <==> HEAP_HIGH <= top)
  {
    PathIsPage(a / PAGE);
  }

  // ---------------------------------------------------------------- blocks

  // Page numbers of the page allocator's arena.
  const FIRST: nat := HEAP_LOW * 0x800_0000
  const END: nat := 212 * 0x800_0000

  // What the heap knows at one moment.
  datatype State = State(
    mem: Memory, root: nat, free: set<nat>, elsewhere: set<nat>, usable: set<nat>,
    slabs: map<nat, SlabPages.Page>, pages: set<nat>, asked: map<(nat, nat), nat>, regions: seq<Region>)

  // A page, block i of slab page p, or a region.
  datatype Block = OfPage(page: nat) | OfSlab(p: nat, i: nat) | OfRegion(region: Region)

  ghost predicate InUse(b: Block, s: State) {
    match b
    case OfPage(page) => FIRST <= page < END && Walk(s.mem, s.root, 0, PathOf(page)).Some?
    case OfSlab(p, i) => SlabAllocator.Live(s.slabs, p, i)
    case OfRegion(region) => region in s.regions
  }

  ghost function Start(b: Block, s: State): int
    requires InUse(b, s)
  {
    match b
    case OfPage(page) => page * PAGE
    case OfSlab(p, i) => p * PAGE + i * SlabPages.SizeOf(SlabPages.Bucket(s.slabs[p]))
    case OfRegion(region) => region.key
  }

  ghost function Length(b: Block, s: State): int
    requires InUse(b, s)
  {
    match b
    case OfPage(_) => PAGE
    case OfSlab(p, _) => SlabPages.SizeOf(SlabPages.Bucket(s.slabs[p]))
    case OfRegion(region) => region.value
  }

  ghost predicate Holds(b: Block, s: State, a: int)
    requires InUse(b, s)
  {
    Start(b, s) <= a < Start(b, s) + Length(b, s)
  }

  function Giver(b: Block): Allocator {
    match b
    case OfPage(_) => ByPage
    case OfSlab(_, _) => BySlab
    case OfRegion(_) => ByRegion
  }

  // What the three allocators keep.
  ghost predicate Whole(s: State) {
    && HeapInv(s.mem, s.root, s.free, s.elsewhere, s.usable) && Indexed(s.mem, s.root)
    && SlabAllocator.Arena(s.mem, s.root, s.pages) && s.slabs.Keys <= s.pages
    && SlabAllocator.AllSlabs(s.slabs) && SlabAllocator.AskedFor(s.slabs, s.asked)
    && LargeRegions.Regions(s.regions)
    && LargeAllocator.Mapped(s.mem, s.root, s.free, LargeAllocator.Live(s.regions))
    && LargeAllocator.FramesOf(s.mem, s.root, LargeAllocator.Live(s.regions)) <= s.elsewhere
  }

  // Every address within a block leads free and get_size to the allocator that gave the block out.
  lemma {:induction false} RoutesToGiver(s: State, b: Block, a: int)
    requires Whole(s) && InUse(b, s) && Holds(b, s, a)
    ensures Route(a) == Giver(b)
  {
    hide HeapInv, IndexedBut, LargeAllocator.Mapped, LargeAllocator.FramesOf, SlabPages.Bits, Walk;
    match b {
      case OfPage(page) =>
      case OfSlab(p, i) =>
        assert p in s.pages;
        SlabPages.BlockEnds(SlabPages.Bucket(s.slabs[p]), i);
      case OfRegion(region) =>
        assert LargeRegions.InArena(region);
    }
  }

  // Two blocks in use have no byte in common.
  lemma {:induction false} BlocksApart(s: State, b: Block, b': Block, a: int)
    requires Whole(s) && InUse(b, s) && InUse(b', s) && Holds(b, s, a) && Holds(b', s, a)
    ensures b == b'
  {
    RoutesToGiver(s, b, a);
    RoutesToGiver(s, b', a);
    hide HeapInv, IndexedBut, LargeAllocator.Mapped, LargeAllocator.FramesOf, SlabPages.Bits, Walk;
    match b {
      case OfPage(page) =>
      case OfSlab(p, i) =>
        SlabAllocator.BlocksApart(s.slabs, p, i, b'.p, b'.i, a);
      case OfRegion(region) =>
        var at :| 0 <= at < |s.regions| && s.regions[at] == region;
        var at' :| 0 <= at' < |s.regions| && s.regions[at'] == b'.region;
    }
  }

  // A page with bytes of the block.
  ghost predicate OnPage(b: Block, n: nat) {
    match b
    case OfPage(page) => n == page
    case OfSlab(p, _) => n == p
    case OfRegion(region) => region.key <= n * PAGE < region.key + region.value
  }

  lemma {:induction false} HoldsOnPage(s: State, b: Block, a: nat)
    requires Whole(s) && InUse(b, s) && Holds(b, s, a)
    ensures OnPage(b, a / PAGE)
  {
    hide HeapInv, IndexedBut, LargeAllocator.Mapped, LargeAllocator.FramesOf, SlabPages.Bits, Walk;
    match b {
      case OfPage(page) =>
      case OfSlab(p, i) =>
        SlabAllocator.BlockOfAddress(s.slabs, p, i, a);
      case OfRegion(region) =>
        assert LargeRegions.InArena(region);
    }
  }

  // A block's pages: in the heap's arenas mapped by a present entry, in the large one live.
  lemma {:induction false} PageOfBlock(s: State, b: Block, n: nat)
    requires Whole(s) && InUse(b, s) && OnPage(b, n)
    ensures IsPage(PathOf(n)) && PageNumber(PathOf(n)) == n
    ensures b.OfRegion? ==> n in LargeAllocator.Live(s.regions)
    ensures !b.OfRegion? ==> InHeap(PathOf(n)) && Slot(s.mem, s.root, PathOf(n)).Some?
  {
    hide LargeAllocator.Mapped, LargeAllocator.FramesOf, LargeAllocator.Live, SlabPages.Bits;
    hide Tree, Conserved, IndexedBut;
    match b {
      case OfPage(page) =>
        PathIsPage(n);
        HeapWalk(s.mem, s.root, PathOf(n));
      case OfSlab(p, i) =>
        assert n in s.pages;
        PathIsPage(n);
        HeapWalk(s.mem, s.root, PathOf(n));
      case OfRegion(region) =>
        assert LargeRegions.InArena(region);
        LargeAllocator.LiveIn(s.regions, n);
        PathIsPage(n);
    }
  }

  // The processor lets the kernel read and write every page of a block in use, on a frame that is not free.
  lemma {:induction false} OnFrame(s: State, b: Block, n: nat)
    requires Whole(s) && InUse(b, s) && OnPage(b, n)
    ensures var a := Walk(s.mem, s.root, 0, PathOf(n));
            a.Some? && a.value.write && !a.value.user && a.value.frame !in s.free
    ensures var f := Walk(s.mem, s.root, 0, PathOf(n)).value.frame;
            if b.OfRegion? then f in s.elsewhere else OwnedAt(s.mem, s.root, PathOf(n)) == Some(f)
  {
    PageOfBlock(s, b, n);
    hide LargeAllocator.Live, SlabPages.Bits, PathOf, InUse, OnPage;
    if b.OfRegion? {
      LargeOnFrame(s.mem, s.root, s.free, LargeAllocator.Live(s.regions), n);
    } else {
      HeapOnFrame(s.mem, s.root, s.free, s.elsewhere, s.usable, PathOf(n));
    }
  }

  lemma LargeOnFrame(mem: Memory, root: nat, free: set<nat>, live: set<nat>, n: nat)
    requires LargeAllocator.Mapped(mem, root, free, live) && n in live
    ensures var a := Walk(mem, root, 0, PathOf(n));
            && a.Some? && a.value.write && !a.value.user && a.value.frame !in free
            && a.value.frame in LargeAllocator.FramesOf(mem, root, live)
  {
    hide Walk, PathOf;
    assert LargeAllocator.OnFrame(mem, root, free, n);
    assert LargeAllocator.FrameOf(mem, root, n).Some?;
  }

  lemma HeapOnFrame(mem: Memory, root: nat, free: set<nat>, elsewhere: set<nat>, usable: set<nat>, page: seq<nat>)
    requires HeapInv(mem, root, free, elsewhere, usable) && IsPage(page) && InHeap(page) && Slot(mem, root, page).Some?
    ensures var a := Walk(mem, root, 0, page);
            && a.Some? && a.value.write && !a.value.user && a.value.frame !in free
            && OwnedAt(mem, root, page) == Some(a.value.frame)
  {
    HeapWalk(mem, root, page);
    hide Tree, Covered, Granted, Walk;
    assert OwnedAt(mem, root, page) == Some(Slot(mem, root, page).value.frame);
  }

  // Different pages of blocks in use lie on different frames ...
  lemma {:induction false} FramesApart(s: State, b: Block, n: nat, b': Block, n': nat)
    requires Whole(s) && InUse(b, s) && OnPage(b, n) && InUse(b', s) && OnPage(b', n')
    requires Frame(s.mem, s.root, PathOf(n)) == Frame(s.mem, s.root, PathOf(n'))
    ensures n == n'
  {
    OnFrame(s, b, n);
    OnFrame(s, b', n');
    PageOfBlock(s, b, n);
    PageOfBlock(s, b', n');
    hide Tree, Covered, Granted, IndexedBut, Slot, Walk, OwnedAt, PathOf;
    if b.OfRegion? && b'.OfRegion? {
      hide Conserved;
      assert LargeAllocator.FrameOf(s.mem, s.root, n) == LargeAllocator.FrameOf(s.mem, s.root, n');
    } else {
      hide LargeAllocator.Mapped;
      assert PathOf(n) == PathOf(n');
    }
  }

  ghost function PhysicalByte(s: State, a: nat): Option<nat> {
    var f := Frame(s.mem, s.root, PathOf(a / PAGE));
    if f.Some? then Some(f.value * PAGE + a % PAGE) else None
  }

  // ... so that no two bytes of blocks in use are the same byte of memory.
  lemma {:induction false} BytesApart(s: State, b: Block, a: nat, b': Block, a': nat)
    requires Whole(s) && InUse(b, s) && Holds(b, s, a) && InUse(b', s) && Holds(b', s, a')
    requires PhysicalByte(s, a) == PhysicalByte(s, a')
    ensures a == a' && b == b'
  {
    HoldsOnPage(s, b, a);
    HoldsOnPage(s, b', a');
    OnFrame(s, b, a / PAGE);
    OnFrame(s, b', a' / PAGE);
    assert PhysicalByte(s, a).Some?;
    SamePlace(s, a, a');
    FramesApart(s, b, a / PAGE, b', a' / PAGE);
    BlocksApart(s, b, b', a);
  }

  lemma SamePlace(s: State, a: nat, a': nat)
    requires PhysicalByte(s, a).Some? && PhysicalByte(s, a) == PhysicalByte(s, a')
    ensures Frame(s.mem, s.root, PathOf(a / PAGE)) == Frame(s.mem, s.root, PathOf(a' / PAGE)) && a % PAGE == a' % PAGE
  {
    hide Frame, PathOf;
  }

  // ---------------------------------------------------------------- steps

  // The blocks `gained` have come into use and the blocks `lost` have gone out of it; all others are in
  // use as before, have their class, and lie on the frames they lay on.
  ghost predicate Changes(s: State, s': State, gained: set<Block>, lost: set<Block>) {
    && SlabAllocator.SamePages(s.slabs, s'.slabs)
    && (forall b :: InUse(b, s') <==> b in gained || (InUse(b, s) && b !in lost))
    && (forall b, n: nat :: InUse(b, s) && b !in lost && OnPage(b, n) ==>
          Walk(s'.mem, s'.root, 0, PathOf(n)) == Walk(s.mem, s.root, 0, PathOf(n)))
  }

  lemma NothingThen(s: State, s': State, s'': State, gained: set<Block>)
    requires Changes(s, s', {}, {}) && Changes(s', s'', gained, {})
    ensures Changes(s, s'', gained, {})
  {
    hide Walk, PathOf, SlabPages.IsSlab, SlabPages.Bucket, SlabPages.BitmapAt, InUse, OnPage;
    forall b, n: nat | InUse(b, s) && OnPage(b, n)
      ensures Walk(s''.mem, s''.root, 0, PathOf(n)) == Walk(s.mem, s.root, 0, PathOf(n))
    {
      assert InUse(b, s');
    }
  }

  // A block that stays in use keeps its place and its length.
  lemma {:induction false} StaysInPlace(s: State, s': State, gained: set<Block>, lost: set<Block>, b: Block)
    requires Whole(s) && Changes(s, s', gained, lost) && InUse(b, s) && b !in lost
    ensures InUse(b, s') && Start(b, s') == Start(b, s) && Length(b, s') == Length(b, s)
  {
    hide Whole, Walk, PathOf;
  }

  lemma {:induction false} SlabStep(s: State, s': State, gained: set<Block>, lost: set<Block>)
    requires Whole(s) && SlabAllocator.Undisturbed(s.mem, s'.mem, s.root, s.slabs.Keys) && s'.root == s.root
    requires s'.regions == s.regions && SlabAllocator.SamePages(s.slabs, s'.slabs)
    requires forall b :: b in gained || b in lost ==> b.OfSlab?
    requires forall p: nat, i: nat :: SlabAllocator.Live(s'.slabs, p, i) <==>
               OfSlab(p, i) in gained || (SlabAllocator.Live(s.slabs, p, i) && OfSlab(p, i) !in lost)
    ensures Changes(s, s', gained, lost)
  {
    hide HeapInv, IndexedBut, Walk, SlabAllocator.Live, SlabAllocator.SamePages, PathOf, PageNumber, OutsideSame;
    hide LargeAllocator.Mapped, LargeAllocator.FramesOf, LargeAllocator.Live;
    hide SlabAllocator.AskedFor, SlabAllocator.AllSlabs;
    forall n: nat | FIRST <= n < END
      ensures Walk(s'.mem, s.root, 0, PathOf(n)) == Walk(s.mem, s.root, 0, PathOf(n))
    {
      PagePath(n);
    }
    forall b, n: nat | InUse(b, s) && b !in lost && OnPage(b, n)
      ensures Walk(s'.mem, s.root, 0, PathOf(n)) == Walk(s.mem, s.root, 0, PathOf(n))
    {
      match b {
        case OfPage(page) =>
        case OfSlab(p, i) =>
          LiveIsSlab(s.slabs, p, i);
          assert n in s.pages;
          PathIsPage(n);
        case OfRegion(region) =>
          RegionPath(s.regions, region, n);
      }
    }
  }

  lemma LiveIsSlab(slabs: map<nat, SlabPages.Page>, p: nat, i: nat)
    requires SlabAllocator.Live(slabs, p, i)
    ensures p in slabs
  {
  }

  lemma PagePath(n: nat)
    requires FIRST <= n < END
    ensures IsPage(PathOf(n)) && HEAP_LOW <= PathOf(n)[0] < 212 && InHeap(PathOf(n)) && PageNumber(PathOf(n)) == n
  {
    PathIsPage(n);
  }

  lemma RegionPath(regions: seq<Region>, e: Region, n: nat)
    requires LargeRegions.Regions(regions) && e in regions && e.key <= n * PAGE < e.key + e.value
    ensures IsPage(PathOf(n)) && PathOf(n)[0] >= 232 && LargeAllocator.FIRST <= n < LargeAllocator.END
  {
    assert LargeRegions.InArena(e);
    PathIsPage(n);
  }

  // Pages other than `page`, if there is one, are where they were.
  lemma {:induction false} PageStep(s: State, s': State, gained: set<Block>, lost: set<Block>)
    requires Whole(s) && s' == s.(mem := s'.mem, free := s'.free)
    requires forall b :: b in gained || b in lost ==> b.OfPage? && FIRST <= b.page < END
    requires forall b :: b in gained ==> Walk(s'.mem, s.root, 0, PathOf(b.page)).Some?
    requires forall b :: b in lost ==> Walk(s'.mem, s.root, 0, PathOf(b.page)).None?
    requires forall q :: IsPage(q) && OfPage(PageNumber(q)) !in gained + lost ==>
               Walk(s'.mem, s.root, 0, q) == Walk(s.mem, s.root, 0, q)
    requires gained !! lost && forall b :: b in gained ==> !InUse(b, s)
    ensures Changes(s, s', gained, lost)
  {
    SlabAllocator.NoPageChanged(s.slabs);
    hide HeapInv, IndexedBut, Walk, SlabAllocator.Live, SlabAllocator.SamePages, PathOf, PageNumber;
    hide LargeAllocator.Mapped, LargeAllocator.FramesOf, LargeAllocator.Live;
    hide SlabAllocator.AskedFor, SlabAllocator.AllSlabs;
    forall n: nat | FIRST <= n < END && OfPage(n) !in gained + lost
      ensures Walk(s'.mem, s.root, 0, PathOf(n)) == Walk(s.mem, s.root, 0, PathOf(n))
    {
      PagePath(n);
    }
    forall b, n: nat | InUse(b, s) && b !in lost && OnPage(b, n)
      ensures Walk(s'.mem, s.root, 0, PathOf(n)) == Walk(s.mem, s.root, 0, PathOf(n))
    {
      match b {
        case OfPage(page) =>
        case OfSlab(p, i) =>
          LiveIsSlab(s.slabs, p, i);
          assert n in s.pages;
          PathIsPage(n);
        case OfRegion(region) =>
          RegionPath(s.regions, region, n);
          PathIsPage(n);
      }
    }
  }

  // Pages outside of `ns`, which are those of the region that is gained or lost, are where they were.
  lemma {:induction false} LargeStep(s: State, s': State, gained: set<Block>, lost: set<Block>, ns: set<nat>)
    requires Whole(s) && s'.root == s.root && s'.slabs == s.slabs
    requires LargeAllocator.OnlyPages(s.mem, s'.mem, s.root, ns)
    requires forall n :: n in ns ==> LargeAllocator.FIRST <= n < LargeAllocator.END
    requires forall b :: b in gained || b in lost ==> b.OfRegion?
    requires forall e :: e in s'.regions <==> OfRegion(e) in gained || (e in s.regions && OfRegion(e) !in lost)
    requires forall e, n: nat :: e in s.regions && OfRegion(e) !in lost && e.key <= n * PAGE < e.key + e.value ==>
               n !in ns
    ensures Changes(s, s', gained, lost)
  {
    hide *;
    SlabAllocator.NoPageChanged(s.slabs);
    LargeIsOutside(s.mem, s'.mem, s.root, ns);
    forall b
      ensures InUse(b, s') <==> b in gained || (InUse(b, s) && b !in lost)
    {
      RegionUse(s, s', gained, lost, b);
    }
    forall b, n: nat | InUse(b, s) && b !in lost && OnPage(b, n)
      ensures Walk(s'.mem, s.root, 0, PathOf(n)) == Walk(s.mem, s.root, 0, PathOf(n))
    {
      BlockWalk(s, s', lost, ns, b, n);
    }
    ChangesAre(s, s', gained, lost);
  }

  lemma ChangesAre(s: State, s': State, gained: set<Block>, lost: set<Block>)
    requires SlabAllocator.SamePages(s.slabs, s'.slabs) && s'.root == s.root
    requires forall b :: InUse(b, s') <==> b in gained || (InUse(b, s) && b !in lost)
    requires forall b, n: nat :: InUse(b, s) && b !in lost && OnPage(b, n) ==>
               Walk(s'.mem, s.root, 0, PathOf(n)) == Walk(s.mem, s.root, 0, PathOf(n))
    ensures Changes(s, s', gained, lost)
  {
    hide SlabAllocator.SamePages, InUse, OnPage, Walk, PathOf;
  }

  lemma RegionUse(s: State, s': State, gained: set<Block>, lost: set<Block>, b: Block)
    requires s'.root == s.root && s'.slabs == s.slabs
    requires forall q :: IsPage(q) && q[0] < 232 ==> Walk(s'.mem, s.root, 0, q) == Walk(s.mem, s.root, 0, q)
    requires forall b :: b in gained || b in lost ==> b.OfRegion?
    requires forall e :: e in s'.regions <==> OfRegion(e) in gained || (e in s.regions && OfRegion(e) !in lost)
    ensures InUse(b, s') <==> b in gained || (InUse(b, s) && b !in lost)
  {
    if b.OfPage? && FIRST <= b.page < END {
      PagePath(b.page);
    }
    hide Walk, PathOf, SlabAllocator.Live;
  }

  lemma {:induction false} BlockWalk(s: State, s': State, lost: set<Block>, ns: set<nat>, b: Block, n: nat)
    requires Whole(s) && InUse(b, s) && b !in lost && OnPage(b, n)
    requires LargeAllocator.OnlyPages(s.mem, s'.mem, s.root, ns)
    requires forall q :: IsPage(q) && q[0] < 232 ==> Walk(s'.mem, s.root, 0, q) == Walk(s.mem, s.root, 0, q)
    requires forall m :: m in ns ==> LargeAllocator.FIRST <= m < LargeAllocator.END
    requires forall e, m: nat :: e in s.regions && OfRegion(e) !in lost && e.key <= m * PAGE < e.key + e.value ==>
               m !in ns
    ensures Walk(s'.mem, s.root, 0, PathOf(n)) == Walk(s.mem, s.root, 0, PathOf(n))
  {
    hide Whole, Walk, PathOf, LargeAllocator.OnlyPages;
    match b {
      case OfPage(page) => PagePath(n);
      case OfSlab(p, i) => SlabWalk(s, s'.mem, p, i);
      case OfRegion(region) => RegionWalk(s, s'.mem, region, ns, n);
    }
  }

  lemma SlabWalk(s: State, mem': Memory, p: nat, i: nat)
    requires Whole(s) && SlabAllocator.Live(s.slabs, p, i)
    requires forall q :: IsPage(q) && q[0] < 232 ==> Walk(mem', s.root, 0, q) == Walk(s.mem, s.root, 0, q)
    ensures Walk(mem', s.root, 0, PathOf(p)) == Walk(s.mem, s.root, 0, PathOf(p))
  {
    LiveIsSlab(s.slabs, p, i);
    assert p in s.pages;
    SlabPath(s.pages, s.mem, s.root, p);
    hide *;
  }

  lemma RegionWalk(s: State, mem': Memory, e: Region, ns: set<nat>, n: nat)
    requires Whole(s) && e in s.regions && e.key <= n * PAGE < e.key + e.value && n !in ns
    requires LargeAllocator.OnlyPages(s.mem, mem', s.root, ns)
    requires forall m :: m in ns ==> LargeAllocator.FIRST <= m < LargeAllocator.END
    ensures Walk(mem', s.root, 0, PathOf(n)) == Walk(s.mem, s.root, 0, PathOf(n))
  {
    RegionPath(s.regions, e, n);
    OtherWalk(s.mem, mem', s.root, ns, n);
  }

  lemma OtherWalk(mem: Memory, mem': Memory, root: nat, ns: set<nat>, n: nat)
    requires LargeAllocator.OnlyPages(mem, mem', root, ns) && n < LargeAllocator.END && n !in ns
    requires forall m :: m in ns ==> LargeAllocator.FIRST <= m < LargeAllocator.END
    ensures Walk(mem', root, 0, PathOf(n)) == Walk(mem, root, 0, PathOf(n))
  {
    hide Walk, PathOf;
    forall m | m in ns
      ensures PathOf(m) != PathOf(n)
    {
      if PathOf(m) == PathOf(n) {
        PathsDiffer(m, n);
      }
    }
  }

  lemma SlabPath(pages: set<nat>, mem: Memory, root: nat, n: nat)
    requires SlabAllocator.Arena(mem, root, pages) && n in pages
    ensures IsPage(PathOf(n)) && PathOf(n)[0] < 232
  {
    PathIsPage(n);
  }

  // ---------------------------------------------------------------- the heap

  // The frames in use elsewhere are those that were booked and those of large regions.
  ghost predicate Separate(frames: set<nat>, elsewhere: set<nat>, booked: set<nat>) {
    frames !! booked && elsewhere == booked + frames
  }

  // No root entry from 96 TiB on is present.
  ghost predicate NothingYet(mem: Memory, root: nat) {
    forall k :: HEAP_LOW <= k < 252 ==> Slot(mem, root, [k]).None?
  }

  lemma {:induction false} NothingAt(mem: Memory, root: nat, p: seq<nat>)
    requires NothingYet(mem, root) && 0 < |p| && HEAP_LOW <= p[0] < 252
    ensures Slot(mem, root, p).None?
  {
    var c := [p[0]];
    assert Slot(mem, root, c).None?;
    if p != c {
      assert c <= p;
      NoneBelow(mem, root, c, p);
    }
  }

  lemma {:induction false} NothingInHeap(mem: Memory, root: nat, free: set<nat>, elsewhere: set<nat>, usable: set<nat>)
    requires HeapInv(mem, root, free, elsewhere, usable) && NothingYet(mem, root)
    ensures forall p :: 0 < |p| <= 4 && InHeap(p) ==> Slot(mem, root, p).None?
    ensures SlabAllocator.Arena(mem, root, {}) && LargeAllocator.Mapped(mem, root, free, {})
    ensures forall n: nat :: FIRST <= n < END ==> Walk(mem, root, 0, PathOf(n)).None?
  {
    forall p | 0 < |p| && HEAP_LOW <= p[0] < 252
      ensures Slot(mem, root, p).None?
    {
      NothingAt(mem, root, p);
    }
    forall page | IsPage(page) && HEAP_LOW <= page[0] < 252
      ensures Walk(mem, root, 0, page).None? && SmallPath(mem, root, page)
    {
      assert page[..2][0] == page[0] && page[..3][0] == page[0] && |page[..2]| == 2 && |page[..3]| == 3;
      NotLarge(mem, root, page[..2]);
      NotLarge(mem, root, page[..3]);
      SmallWalk(mem, root, page);
    }
    hide HeapInv, NothingYet, Slot, Walk, SmallPath;
    forall n: nat | FIRST <= n < LargeAllocator.END
      ensures IsPage(PathOf(n)) && HEAP_LOW <= PathOf(n)[0] < 252
    {
      PathIsPage(n);
    }
  }

  lemma NotLarge(mem: Memory, root: nat, p: seq<nat>)
    requires p != [] && Slot(mem, root, p).None?
    ensures !Large(EntryAt(mem, root, p))
  {
  }

  // A block that was nobody's begins at `address` and has room for `size` bytes; all other blocks stay.
  ghost predicate Gives(s: State, s': State, b: Block, address: nat, size: nat) {
    && !InUse(b, s) && Changes(s, s', {b}, {}) && Start(b, s') == address && size <= Length(b, s')
  }

  // The lengths that slab blocks come in.
  ghost predicate IsClass(n: int) {
    n in {4, 8, 16, 32, 64, 128, 256, 512, 1024, 2047}
  }

  // What a request of `size` bytes is to get: up to 2047 bytes the smallest slab block that is long enough,
  // up to a page's size a page, or else whole pages in the large arena, and nothing but those beyond.
  ghost predicate Suits(b: Block, length: int, size: nat) {
    && size <= length
    && (size <= 2047 ==>
          b.OfSlab? && IsClass(length) && forall n :: IsClass(n) && size <= n ==> length <= n)
    && (size > 2047 ==> b.OfRegion? || (b.OfPage? && size <= 4096 == length))
    && (b.OfRegion? ==> length % 4096 == 0 && length < size + 4096)
  }

  // Every page of the page allocator's arena is given out.
  ghost predicate NoPageLeft(s: State) {
    forall n: nat :: 96 * TIB <= n * 4096 < 106 * TIB ==> InUse(OfPage(n), s)
  }

  lemma SmallSuits(s: State, s': State, size: nat, address: nat, p: nat, i: nat)
    requires size <= 2047 && InUse(OfSlab(p, i), s')
    requires var b := SlabPages.BucketOf(SlabPages.PrefSize(size));
             SlabAllocator.Provided(s.slabs, s'.slabs, s.asked, s'.asked, b, size, address, p, i)
    ensures Suits(OfSlab(p, i), Length(OfSlab(p, i), s'), size)
  {
    hide SlabAllocator.Live, SlabPages.IsSlab, SlabPages.Bucket;
    var b := SlabPages.BucketOf(SlabPages.PrefSize(size));
    assert Length(OfSlab(p, i), s') == SlabPages.SizeOf(b) == SlabPages.PrefSize(size);
    forall n | IsClass(n) && size <= n
      ensures SlabPages.PrefSize(size) <= n
    {
    }
  }

  lemma PageSuits(s: State, b: Block, size: nat)
    requires InUse(b, s) && b.OfPage? && 2047 < size <= 4096
    ensures Suits(b, Length(b, s), size)
  {
  }

  lemma LengthOfRegion(s: State, b: Block)
    requires InUse(b, s) && b.OfRegion?
    ensures Length(b, s) == b.region.value
  {
  }

  lemma RegionSuits(e: Region, size: nat)
    requires 2047 < size && e.value == LargeAllocator.Rounded(size)
    ensures Suits(OfRegion(e), e.value, size)
  {
  }

  // Pages in use stay so while nothing changes.
  lemma {:induction false} ArenaGivenOut(s: State, s': State)
    requires Whole(s') && Changes(s, s', {}, {}) && Exhausted(s'.mem, s'.root, HEAP_LOW, 212)
    ensures NoPageLeft(s)
  {
    hide Changes;
    forall n: nat | 96 * TIB <= n * 4096 < 106 * TIB
      ensures InUse(OfPage(n), s)
    {
      PagePath(n);
      PageIsMapped(s', n);
      NothingChanged(s, s', OfPage(n));
    }
  }

  lemma PageIsMapped(s: State, n: nat)
    requires HeapInv(s.mem, s.root, s.free, s.elsewhere, s.usable) && FIRST <= n < END
    requires IsPage(PathOf(n)) && HEAP_LOW <= PathOf(n)[0] < 212 && Exhausted(s.mem, s.root, HEAP_LOW, 212)
    ensures InUse(OfPage(n), s)
  {
    assert Slot(s.mem, s.root, PathOf(n)).Some?;
    hide Exhausted;
    HeapWalk(s.mem, s.root, PathOf(n));
  }

  lemma NothingChanged(s: State, s': State, b: Block)
    requires Changes(s, s', {}, {}) && InUse(b, s')
    ensures InUse(b, s)
  {
  }

  // A region's first page takes a frame that was free.
  lemma FrameWasFree(mem: Memory, mem': Memory, root: nat, free: set<nat>, free': set<nat>, start: nat, size: nat)
    requires LargeAllocator.Provided(mem, mem', root, free, free', start, size) && size > 0
    ensures free != {}
  {
    hide LargeAllocator.OnlyPages, LargeAllocator.LowSame, Accounted;
    var first, pages := start / PAGE, LargeAllocator.Rounded(size) / PAGE;
    assert pages > 0;
    assert first in FrameRun(first, pages);
    var g := LargeAllocator.FrameOf(mem', root, first).value;
    assert g in LargeAllocator.FramesOf(mem', root, FrameRun(first, pages));
  }

  lemma LargeUndisturbed(mem: Memory, mem': Memory, root: nat, keep: set<nat>)
    requires SlabAllocator.Undisturbed(mem, mem', root, keep)
    ensures LargeSame(mem, mem', root) && OutsideSame(mem, mem', root)
  {
    hide Walk, PathOf, OutsideSame;
    forall n: nat | LargeAllocator.FIRST <= n < LargeAllocator.END
      ensures Walk(mem', root, 0, PathOf(n)) == Walk(mem, root, 0, PathOf(n))
    {
      LargePath(n);
    }
  }

  lemma {:induction false} SlabGives(s: State, s': State, b: nat, size: nat, address: nat, p: nat, i: nat)
    requires Whole(s) && SlabAllocator.Undisturbed(s.mem, s'.mem, s.root, s.slabs.Keys) && s'.root == s.root
    requires s'.regions == s.regions && SlabAllocator.SamePages(s.slabs, s'.slabs) && b < SlabPages.BUCKETS
    requires SlabAllocator.Provided(s.slabs, s'.slabs, s.asked, s'.asked, b, size, address, p, i)
    ensures Gives(s, s', OfSlab(p, i), address, size)
  {
    hide Whole, SlabAllocator.Undisturbed, SlabAllocator.SamePages, SlabAllocator.Live;
    hide SlabPages.IsSlab, SlabPages.Bucket;
    hide SlabPages.SizeOf;
    SlabStep(s, s', {OfSlab(p, i)}, {});
    hide Changes;
    assert InUse(OfSlab(p, i), s');
  }

  // A step at one page of the page allocator's arena.
  ghost predicate AtPage(mem: Memory, mem': Memory, root: nat, page: seq<nat>) {
    && IsPage(page) && HEAP_LOW <= page[0] < 212 && OthersKept(mem, mem', root, page) && OutsideSame(mem, mem', root)
  }

  lemma {:induction false} PageAtPage(mem: Memory, mem': Memory, root: nat, pages: set<nat>, page: seq<nat>)
    requires SlabAllocator.Arena(mem, root, pages) && AtPage(mem, mem', root, page)
    ensures SlabAllocator.Arena(mem', root, pages) && LargeSame(mem, mem', root)
    ensures FIRST <= PageNumber(page) < END && PathOf(PageNumber(page)) == page
    ensures forall q :: IsPage(q) && PageNumber(q) != PageNumber(page) ==>
              Walk(mem', root, 0, q) == Walk(mem, root, 0, q)
  {
    NumberInArena(page);
    NumberIsPath(page);
    hide Walk, PathOf, OutsideSame, PageNumber, SlabAllocator.Arena;
    forall n: nat | LargeAllocator.FIRST <= n < LargeAllocator.END
      ensures Walk(mem', root, 0, PathOf(n)) == Walk(mem, root, 0, PathOf(n))
    {
      LargePath(n);
    }
    ArenaKept(mem, mem', root, pages);
  }

  lemma {:induction false} PageGives(s: State, s': State, page: seq<nat>)
    requires Whole(s) && s' == s.(mem := s'.mem, free := s'.free) && AtPage(s.mem, s'.mem, s.root, page)
    requires Taken(s.mem, s'.mem, s.root, s.free, s'.free, page)
    ensures Gives(s, s', OfPage(PageNumber(page)), PageNumber(page) * PAGE, PAGE)
  {
    HeapWalk(s.mem, s.root, page);
    PageAtPage(s.mem, s'.mem, s.root, s.pages, page);
    hide Whole, Walk, PathOf, PageNumber, OthersKept, OnlyTowards, Grown, OutsideSame, Slot;
    var b := OfPage(PageNumber(page));
    PageStep(s, s', {b}, {});
    hide Changes;
    assert InUse(b, s');
  }

  lemma {:induction false} PageTakes(s: State, s': State, page: seq<nat>)
    requires Whole(s) && s' == s.(mem := s'.mem, free := s'.free) && AtPage(s.mem, s'.mem, s.root, page)
    requires HeapInv(s'.mem, s.root, s'.free, s.elsewhere, s.usable)
    requires Freed(s.mem, s'.mem, s.root, s.free, s'.free, [], page)
    ensures Changes(s, s', {}, {OfPage(PageNumber(page))})
  {
    HeapWalk(s'.mem, s.root, page);
    PageAtPage(s.mem, s'.mem, s.root, s.pages, page);
    hide Whole, Walk, PathOf, PageNumber, OthersKept, OnlyTowards, Grown, OutsideSame, Slot, Freed, HeapInv;
    PageStep(s, s', {}, {OfPage(PageNumber(page))});
  }

  lemma {:induction false} NothingGiven(s: State, s': State)
    requires Whole(s) && s' == s.(mem := s'.mem, free := s'.free) && AllKept(s.mem, s'.mem, s.root)
    ensures Changes(s, s', {}, {}) && SlabAllocator.Arena(s'.mem, s.root, s.pages) && LargeSame(s.mem, s'.mem, s.root)
  {
    hide HeapInv, IndexedBut, Walk, PathOf, PageNumber, LargeAllocator.Mapped, LargeAllocator.FramesOf;
    ArenaKept(s.mem, s'.mem, s.root, s.pages);
    PageStep(s, s', {}, {});
  }

  lemma FourIndices(mem: Memory, mem': Memory, root: nat, free: set<nat>, free': set<nat>, page: seq<nat>)
    requires Taken(mem, mem', root, free, free', page)
    ensures |page| == 4
  {
  }

  lemma NothingMoved(s: State, s': State, size: nat)
    requires Whole(s) && s' == s.(mem := s'.mem, free := s'.free) && OutsideSame(s.mem, s'.mem, s.root)
    requires size > PAGE ==> s'.mem == s.mem
    requires size <= PAGE ==> AllKept(s.mem, s'.mem, s.root)
    ensures Changes(s, s', {}, {}) && SlabAllocator.Arena(s'.mem, s.root, s.pages) && LargeSame(s.mem, s'.mem, s.root)
  {
    hide Whole, Walk;
    NothingGiven(s, s');
  }

  lemma TakenAtPage(mem: Memory, mem': Memory, root: nat, free: set<nat>, free': set<nat>, page: seq<nat>)
    requires Taken(mem, mem', root, free, free', page) && HEAP_LOW <= page[0] < 212 && OutsideSame(mem, mem', root)
    ensures AtPage(mem, mem', root, page)
  {
  }

  lemma {:induction false} PageGiven(s: State, s': State, page: seq<nat>, size: nat)
    requires Whole(s) && s' == s.(mem := s'.mem, free := s'.free) && OutsideSame(s.mem, s'.mem, s.root)
    requires Taken(s.mem, s'.mem, s.root, s.free, s'.free, page) && HEAP_LOW <= page[0] < 212 && size <= PAGE
    ensures Gives(s, s', OfPage(PageNumber(page)), PageNumber(page) * PAGE, size)
    ensures SlabAllocator.Arena(s'.mem, s.root, s.pages) && LargeSame(s.mem, s'.mem, s.root)
  {
    TakenAtPage(s.mem, s'.mem, s.root, s.free, s'.free, page);
    PageAtPage(s.mem, s'.mem, s.root, s.pages, page);
    hide Whole, Taken, OutsideSame, Gives, AtPage, PageNumber;
    PageGives(s, s', page);
    GivesLess(s, s', OfPage(PageNumber(page)), PageNumber(page) * PAGE, size);
  }

  lemma GivesLess(s: State, s': State, b: Block, address: nat, size: nat)
    requires Gives(s, s', b, address, PAGE) && size <= PAGE
    ensures Gives(s, s', b, address, size)
  {
    hide Changes;
    assert Changes(s, s', {b}, {});
  }

  // ---------------------------------------------------------------- regions come and go

  ghost function Run(e: Region): set<nat>
    requires LargeRegions.InArena(e)
  {
    FrameRun(e.key / PAGE, e.value / PAGE)
  }

  lemma OnRun(e: Region, n: nat)
    requires LargeRegions.InArena(e)
    ensures n in Run(e) <==> e.key <= n * PAGE < e.key + e.value
    ensures n in Run(e) ==> LargeAllocator.FIRST <= n < LargeAllocator.END
    ensures e.key / PAGE in Run(e)
  {
    LargeAllocator.RunIsRegion(e, n);
  }

  lemma {:induction false} PlacedRegion(c: seq<Region>, c': seq<Region>, e: Region)
    requires LargeRegions.Regions(c) && LargeRegions.Regions(c') && LargeAllocator.Placed(c, c', e)
    ensures LargeRegions.InArena(e) && LargeAllocator.Live(c') == LargeAllocator.Live(c) + Run(e)
    ensures LargeAllocator.Live(c) !! Run(e) && e !in c
    ensures forall x :: x in c' <==> x in c || x == e
    ensures forall x, n: nat :: x in c && x.key <= n * PAGE < x.key + x.value ==> n !in Run(e)
  {
    var at :| 0 <= at <= |c| && c' == c[..at] + [e] + c[at..];
    WithOne(c, at, e);
    assert LargeRegions.InArena(c'[at]);
    hide LargeAllocator.Live, FrameRun;
    LargeAllocator.LiveRemoved(c', at);
    LargeAllocator.LiveAdded(c, at, e);
    PagesOf(c);
    OnRun(e, e.key / PAGE);
    hide LargeRegions.Regions, Run;
  }

  lemma WithOne(c: seq<Region>, at: nat, e: Region)
    requires at <= |c|
    ensures var c' := c[..at] + [e] + c[at..];
            && c'[at] == e && c'[..at] + c'[at + 1..] == c && forall x :: x in c' <==> x in c || x == e
  {
    var c' := c[..at] + [e] + c[at..];
    assert c'[..at] + c'[at + 1..] == c;
    forall x
      ensures x in c' <==> x in c || x == e
    {
      if x in c {
        var i :| 0 <= i < |c| && c[i] == x;
        assert c'[if i < at then i else i + 1] == x;
      }
      if x in c' {
        var i :| 0 <= i < |c'| && c'[i] == x;
        assert i != at ==> c[if i < at then i else i - 1] == x;
      }
      assert c'[at] == e;
    }
  }

  lemma PagesOf(c: seq<Region>)
    requires LargeRegions.Regions(c)
    ensures forall x, n: nat :: x in c && x.key <= n * PAGE < x.key + x.value ==> n in LargeAllocator.Live(c)
  {
    hide LargeAllocator.Live;
    forall x, n: nat | x in c && x.key <= n * PAGE < x.key + x.value
      ensures n in LargeAllocator.Live(c)
    {
      LargeAllocator.LiveIn(c, n);
    }
  }

  lemma {:induction false} RemovedRegion(c: seq<Region>, at: nat)
    requires LargeRegions.Regions(c) && at < |c|
    ensures LargeRegions.InArena(c[at]) && Run(c[at]) <= LargeAllocator.Live(c)
    ensures var c' := c[..at] + c[at + 1..];
            && LargeRegions.Regions(c') && LargeAllocator.Live(c') == LargeAllocator.Live(c) - Run(c[at])
            && (forall x :: x in c' <==> x in c && x != c[at])
            && forall x, n: nat :: x in c && x != c[at] && x.key <= n * PAGE < x.key + x.value ==> n !in Run(c[at])
  {
    WithoutOne(c, at);
    LargeAllocator.RegionBounds(c, at);
    assert LargeRegions.InArena(c[at]);
    hide LargeAllocator.Live, FrameRun;
    LargeAllocator.LiveRemoved(c, at);
    PagesOf(c[..at] + c[at + 1..]);
    hide LargeRegions.Regions, Run;
  }

  lemma WithoutOne(c: seq<Region>, at: nat)
    requires LargeRegions.Regions(c) && at < |c|
    ensures forall x :: x in c[..at] + c[at + 1..] <==> x in c && x != c[at]
  {
    hide *;
    var c' := c[..at] + c[at + 1..];
    forall x
      ensures x in c' <==> x in c && x != c[at]
    {
      if x in c && x != c[at] {
        var i :| 0 <= i < |c| && c[i] == x;
        assert c'[if i < at then i else i - 1] == x;
      }
      if x in c' {
        var i :| 0 <= i < |c'| && c'[i] == x;
        OtherRegion(c, if i < at then i else i + 1, at);
      }
    }
  }

  lemma OtherRegion(c: seq<Region>, i: nat, j: nat)
    requires LargeRegions.Regions(c) && i < |c| && j < |c| && i != j
    ensures c[i] != c[j]
  {
    assert LargeRegions.InArena(c[i]);
  }

  lemma FramesUnion(mem: Memory, root: nat, a: set<nat>, b: set<nat>)
    ensures LargeAllocator.FramesOf(mem, root, a + b)
         == LargeAllocator.FramesOf(mem, root, a) + LargeAllocator.FramesOf(mem, root, b)
  {
    hide LargeAllocator.FrameOf;
  }

  // Live pages have frames of their own.
  lemma FramesWithout(mem: Memory, root: nat, free: set<nat>, live: set<nat>, ns: set<nat>)
    requires LargeAllocator.Mapped(mem, root, free, live) && ns <= live
    ensures LargeAllocator.FramesOf(mem, root, live - ns)
         == LargeAllocator.FramesOf(mem, root, live) - LargeAllocator.FramesOf(mem, root, ns)
  {
    hide LargeAllocator.FrameOf, LargeAllocator.OnFrame;
    forall n | n in live
      ensures LargeAllocator.FrameOf(mem, root, n).Some?
    {
      LargeOnFrame(mem, root, free, live, n);
      LargeAllocator.NoFrame(mem, root, n);
    }
  }

  // Pages that are not among those that changed have the frames they had.
  lemma FramesOutside(mem: Memory, mem': Memory, root: nat, live: set<nat>, ns: set<nat>)
    requires LargeAllocator.OnlyPages(mem, mem', root, ns) && live !! ns
    requires forall n :: n in live || n in ns ==> LargeAllocator.FIRST <= n < LargeAllocator.END
    ensures LargeAllocator.FramesOf(mem', root, live) == LargeAllocator.FramesOf(mem, root, live)
  {
    hide Walk, PathOf, LargeAllocator.OnlyPages;
    forall n | n in live
      ensures LargeAllocator.FrameOf(mem', root, n) == LargeAllocator.FrameOf(mem, root, n)
    {
      OtherWalk(mem, mem', root, ns, n);
    }
    LargeAllocator.FramesSame(mem, mem', root, live);
  }

  // What the large allocator has done for a request, in one memory with the others.
  ghost predicate RegionProvided(s: State, s': State, e: Region, size: nat)
    requires LargeRegions.InArena(e)
  {
    && s'.root == s.root && s'.slabs == s.slabs && s'.usable == s.usable && s'.pages == s.pages
    && Tree(s'.mem, s.root, s'.free) && Covered(s'.mem, s.root)
    && LargeRegions.Regions(s'.regions) && LargeAllocator.Placed(s.regions, s'.regions, e)
    && LargeAllocator.OnlyPages(s.mem, s'.mem, s.root, Run(e)) && LargeAllocator.LowSame(s.mem, s'.mem, s.root)
    && LargeAllocator.Supplied(s.mem, s'.mem, s.root, s.free, s'.free, Run(e))
    && size <= e.value
  }

  lemma {:induction false} RegionGives(s: State, s': State, e: Region, size: nat)
    requires Whole(s) && LargeRegions.InArena(e) && RegionProvided(s, s', e, size)
    ensures Gives(s, s', OfRegion(e), e.key, size)
    ensures SlabAllocator.Arena(s'.mem, s.root, s.pages)
  {
    hide *;
    SomeParts(s);
    ProvidedParts(s, s', e, size);
    RunInArena(e);
    PlacedRegion(s.regions, s'.regions, e);
    LargeStep(s, s', {OfRegion(e)}, {}, Run(e));
    ArenaKeptByLarge(s.mem, s'.mem, s.root, s.pages, Run(e));
    NewRegionGiven(s, s', e, size);
  }

  lemma ArenaKeptByLarge(mem: Memory, mem': Memory, root: nat, pages: set<nat>, ns: set<nat>)
    requires SlabAllocator.Arena(mem, root, pages) && LargeAllocator.OnlyPages(mem, mem', root, ns)
    requires forall n :: n in ns ==> LargeAllocator.FIRST <= n < LargeAllocator.END
    ensures SlabAllocator.Arena(mem', root, pages)
  {
    LargeIsOutside(mem, mem', root, ns);
    hide Walk, PathOf, PageNumber, LargeAllocator.OnlyPages;
    ArenaKept(mem, mem', root, pages);
  }

  lemma NewRegionGiven(s: State, s': State, e: Region, size: nat)
    requires Changes(s, s', {OfRegion(e)}, {}) && e !in s.regions && 0 <= e.key && size <= e.value
    ensures Gives(s, s', OfRegion(e), e.key, size)
  {
    assert InUse(OfRegion(e), s');
    hide Changes;
  }

  lemma ProvidedParts(s: State, s': State, e: Region, size: nat)
    requires LargeRegions.InArena(e) && RegionProvided(s, s', e, size)
    ensures s'.root == s.root && s'.slabs == s.slabs && s'.usable == s.usable && s'.pages == s.pages
    ensures Tree(s'.mem, s.root, s'.free) && Covered(s'.mem, s.root)
    ensures LargeRegions.Regions(s'.regions) && LargeAllocator.Placed(s.regions, s'.regions, e)
    ensures LargeAllocator.OnlyPages(s.mem, s'.mem, s.root, Run(e)) && LargeAllocator.LowSame(s.mem, s'.mem, s.root)
    ensures LargeAllocator.Supplied(s.mem, s'.mem, s.root, s.free, s'.free, Run(e))
    ensures LargeAllocator.FramesOf(s'.mem, s.root, Run(e)) <= s.free
    ensures 0 <= e.key && size <= e.value
  {
    hide Tree, Covered, LargeRegions.Regions, LargeAllocator.Placed, LargeAllocator.OnlyPages, Run;
    hide LargeAllocator.LowSame, LargeAllocator.FramesOf, Accounted;
  }

  lemma SomeParts(s: State)
    requires Whole(s)
    ensures LargeRegions.Regions(s.regions) && SlabAllocator.Arena(s.mem, s.root, s.pages)
    ensures HeapInv(s.mem, s.root, s.free, s.elsewhere, s.usable) && Indexed(s.mem, s.root) && s.elsewhere !! s.free
    ensures forall i :: 0 <= i < |s.regions| ==> LargeRegions.InArena(s.regions[i])
    ensures LargeAllocator.Mapped(s.mem, s.root, s.free, LargeAllocator.Live(s.regions))
  {
    assert LargeRegions.Regions(s.regions);
    hide Tree, Covered, Granted, IndexedBut, LargeAllocator.Mapped, LargeAllocator.Live;
  }

  lemma RunInArena(e: Region)
    requires LargeRegions.InArena(e)
    ensures forall n :: n in Run(e) ==> LargeAllocator.FIRST <= n < LargeAllocator.END
  {
    forall n: nat
      ensures n in Run(e) ==> LargeAllocator.FIRST <= n < LargeAllocator.END
    {
      OnRun(e, n);
    }
  }

  lemma {:induction false} RegionFrames(s: State, s': State, e: Region, size: nat, booked: set<nat>)
    requires Whole(s) && LargeRegions.InArena(e) && RegionProvided(s, s', e, size)
    requires Separate(LargeAllocator.FramesOf(s.mem, s.root, LargeAllocator.Live(s.regions)), s.elsewhere, booked)
    ensures var elsewhere := s.elsewhere + LargeAllocator.FramesOf(s'.mem, s.root, Run(e));
            && HeapInv(s'.mem, s.root, s'.free, elsewhere, s.usable) && Indexed(s'.mem, s.root)
            && Separate(LargeAllocator.FramesOf(s'.mem, s.root, LargeAllocator.Live(s'.regions)), elsewhere, booked)
  {
    hide *;
    SomeParts(s);
    ProvidedParts(s, s', e, size);
    RunInArena(e);
    PlacedRegion(s.regions, s'.regions, e);
    var live, taken := LargeAllocator.Live(s.regions), LargeAllocator.FramesOf(s'.mem, s.root, Run(e));
    HeapKeptByMapping(s.mem, s'.mem, s.root, s.free, s'.free, s.elsewhere, s.usable, Run(e));
    FramesOutside(s.mem, s'.mem, s.root, live, Run(e));
    FramesUnion(s'.mem, s.root, live, Run(e));
    SeparateMore(LargeAllocator.FramesOf(s.mem, s.root, live), taken, s.elsewhere, s.free, booked);
  }

  lemma SeparateMore(frames: set<nat>, taken: set<nat>, elsewhere: set<nat>, free: set<nat>, booked: set<nat>)
    requires Separate(frames, elsewhere, booked) && taken <= free && elsewhere !! free
    ensures Separate(frames + taken, elsewhere + taken, booked)
  {
  }

  lemma SeparateLess(frames: set<nat>, gone: set<nat>, elsewhere: set<nat>, booked: set<nat>)
    requires Separate(frames, elsewhere, booked) && gone <= frames
    ensures Separate(frames - gone, elsewhere - gone, booked)
  {
  }

  // No gap that the search accepts is left in the large arena.
  ghost predicate NoGap(c: seq<Region>, size: nat) {
    var bytes := LargeAllocator.Rounded(size);
    LargeRegions.Start(c, 116 * TIB, bytes) + bytes > 126 * TIB
  }

  lemma GapMissing(c: seq<Region>, size: nat)
    requires LargeRegions.Start(c, 116 * TIB, LargeAllocator.Rounded(size)) + LargeAllocator.Rounded(size) > 126 * TIB
    ensures NoGap(c, size)
  {
  }

  lemma RegionIsProvided(s: State, s': State, e: Region, size: nat)
    requires s'.root == s.root && s'.slabs == s.slabs && s'.usable == s.usable && s'.pages == s.pages
    requires Tree(s'.mem, s.root, s'.free) && Covered(s'.mem, s.root)
    requires LargeRegions.Regions(s.regions) && LargeRegions.Regions(s'.regions)
    requires e.key >= 0 && e.value == LargeAllocator.Rounded(size)
    requires LargeAllocator.Placed(s.regions, s'.regions, e)
    requires LargeAllocator.Provided(s.mem, s'.mem, s.root, s.free, s'.free, e.key, size)
    ensures LargeRegions.InArena(e) && RegionProvided(s, s', e, size)
  {
    PlacedRegion(s.regions, s'.regions, e);
    hide Tree, Covered, LargeRegions.Regions, LargeAllocator.Placed, LargeAllocator.OnlyPages;
    hide LargeAllocator.LowSame, LargeAllocator.Supplied, FrameRun, LargeAllocator.Live;
  }

  lemma GivenInUse(s: State, s': State, b: Block, address: nat, size: nat)
    requires Gives(s, s', b, address, size)
    ensures InUse(b, s')
  {
    hide Walk, PathOf, OnPage, SlabAllocator.SamePages;
  }

  lemma NothingThenGives(s: State, s': State, s'': State, b: Block, address: nat, size: nat)
    requires Changes(s, s', {}, {}) && Gives(s', s'', b, address, size)
    ensures Gives(s, s'', b, address, size)
  {
    NothingThen(s, s', s'', {b});
    hide Walk, PathOf, InUse, OnPage, SlabAllocator.SamePages;
    assert InUse(b, s) ==> InUse(b, s');
  }

  // ---------------------------------------------------------------- giving a block back

  // Free is told of a block by any address in it, of a region by its start.
  ghost predicate Names(b: Block, s: State, a: int)
    requires InUse(b, s)
  {
    if b.OfRegion? then a == b.region.key else Holds(b, s, a)
  }

  lemma {:induction false} NamesRoute(s: State, b: Block, a: int)
    requires Whole(s) && InUse(b, s) && Names(b, s, a)
    ensures Route(a) == Giver(b) && Holds(b, s, a) && a > 0
  {
    SomeParts(s);
    hide Whole, InUse, HeapInv, IndexedBut, LargeAllocator.Mapped, SlabAllocator.Arena;
    if b.OfRegion? {
      RegionInArena(s.regions, b, s);
    }
    RoutesToGiver(s, b, a);
  }

  lemma RegionInArena(c: seq<Region>, b: Block, s: State)
    requires LargeRegions.Regions(c) && s.regions == c && b.OfRegion? && InUse(b, s)
    ensures LargeRegions.InArena(b.region) && Length(b, s) > 0 && Start(b, s) == b.region.key
  {
    assert LargeRegions.InArena(b.region);
  }

  // A page of the page allocator.
  lemma {:induction false} PageNamed(s: State, b: Block, a: nat)
    requires Whole(s) && b.OfPage? && InUse(b, s) && Holds(b, s, a)
    ensures a / PAGE == b.page && FIRST <= b.page < END && PageNumber(PathOf(a / PAGE)) == b.page
    ensures IsPage(PathOf(a / PAGE)) && InHeap(PathOf(a / PAGE)) && Slot(s.mem, s.root, PathOf(a / PAGE)).Some?
    ensures HEAP_LOW <= PathOf(a / PAGE)[0] < 212
  {
    HoldsOnPage(s, b, a);
    PageOfBlock(s, b, b.page);
    hide Whole;
    PagePath(b.page);
  }

  // A block of the slab allocator.
  lemma {:induction false} SlabNamed(s: State, b: Block, a: nat)
    requires Whole(s) && b.OfSlab? && InUse(b, s) && Holds(b, s, a)
    ensures a > 0 && b.p in s.slabs && SlabPages.IsSlab(s.slabs[b.p]) && SlabAllocator.Live(s.slabs, b.p, b.i)
    ensures a / PAGE == b.p && SlabAllocator.BlockAt(s.slabs, a) == b.i && SlabAllocator.LiveAt(s.slabs, a)
    ensures SlabAllocator.InBlock(s.slabs, b.p, b.i, a)
  {
    HoldsOnPage(s, b, a);
    NotNull(s, b.p);
    hide Whole;
    SlabAllocator.BlockOfAddress(s.slabs, b.p, b.i, a);
  }

  lemma NotNull(s: State, p: nat)
    requires Whole(s) && p in s.slabs
    ensures p > 0
  {
    assert p in s.pages;
    hide HeapInv, IndexedBut, Walk;
  }

  lemma {:induction false} SlabTakes(s: State, s': State, p: nat, i: nat)
    requires Whole(s) && SlabAllocator.Undisturbed(s.mem, s'.mem, s.root, s.slabs.Keys) && s'.root == s.root
    requires s'.regions == s.regions && SlabAllocator.SamePages(s.slabs, s'.slabs)
    requires forall q, j :: SlabAllocator.Live(s'.slabs, q, j) <==>
               SlabAllocator.Live(s.slabs, q, j) && !(q == p && j == i)
    ensures Changes(s, s', {}, {OfSlab(p, i)})
  {
    hide Whole, SlabAllocator.Undisturbed, SlabAllocator.SamePages, SlabAllocator.Live, Changes;
    SlabStep(s, s', {}, {OfSlab(p, i)});
  }

  // What the large allocator has done on a return.
  ghost predicate RegionReturned(s: State, s': State, at: nat)
    requires at < |s.regions| && LargeRegions.InArena(s.regions[at])
  {
    && s'.root == s.root && s'.slabs == s.slabs && s'.usable == s.usable && s'.pages == s.pages
    && Tree(s'.mem, s.root, s'.free) && Covered(s'.mem, s.root)
    && s'.regions == s.regions[..at] + s.regions[at + 1..]
    && LargeAllocator.OnlyPages(s.mem, s'.mem, s.root, Run(s.regions[at]))
    && LargeAllocator.LowSame(s.mem, s'.mem, s.root)
    && LargeAllocator.Regained(s.mem, s'.mem, s.root, s.free, s'.free, Run(s.regions[at]))
  }

  lemma ReturnedParts(s: State, s': State, at: nat)
    requires at < |s.regions| && LargeRegions.InArena(s.regions[at]) && RegionReturned(s, s', at)
    ensures s'.root == s.root && s'.slabs == s.slabs && s'.usable == s.usable && s'.pages == s.pages
    ensures Tree(s'.mem, s.root, s'.free) && Covered(s'.mem, s.root)
    ensures s'.regions == s.regions[..at] + s.regions[at + 1..]
    ensures LargeAllocator.OnlyPages(s.mem, s'.mem, s.root, Run(s.regions[at]))
    ensures LargeAllocator.LowSame(s.mem, s'.mem, s.root)
    ensures LargeAllocator.Regained(s.mem, s'.mem, s.root, s.free, s'.free, Run(s.regions[at]))
  {
    hide Tree, Covered, LargeAllocator.OnlyPages, Run, LargeAllocator.LowSame, LargeAllocator.Regained;
  }

  lemma {:induction false} RegionTakes(s: State, s': State, at: nat)
    requires Whole(s) && at < |s.regions| && LargeRegions.InArena(s.regions[at]) && RegionReturned(s, s', at)
    ensures Changes(s, s', {}, {OfRegion(s.regions[at])}) && SlabAllocator.Arena(s'.mem, s.root, s.pages)
  {
    hide *;
    var e := s.regions[at];
    SomeParts(s);
    ReturnedParts(s, s', at);
    RunInArena(e);
    RemovedRegion(s.regions, at);
    LargeStep(s, s', {}, {OfRegion(e)}, Run(e));
    ArenaKeptByLarge(s.mem, s'.mem, s.root, s.pages, Run(e));
  }

  lemma {:induction false} RegionFramesBack(s: State, s': State, at: nat, booked: set<nat>)
    requires Whole(s) && at < |s.regions| && LargeRegions.InArena(s.regions[at]) && RegionReturned(s, s', at)
    requires Separate(LargeAllocator.FramesOf(s.mem, s.root, LargeAllocator.Live(s.regions)), s.elsewhere, booked)
    ensures forall i :: 0 <= i < |s'.regions| ==> LargeRegions.InArena(s'.regions[i])
    ensures var elsewhere := s.elsewhere - LargeAllocator.FramesOf(s.mem, s.root, Run(s.regions[at]));
            && HeapInv(s'.mem, s.root, s'.free, elsewhere, s.usable) && Indexed(s'.mem, s.root)
            && Separate(LargeAllocator.FramesOf(s'.mem, s.root, LargeAllocator.Live(s'.regions)), elsewhere, booked)
  {
    hide *;
    var e := s.regions[at];
    SomeParts(s);
    ReturnedParts(s, s', at);
    RunInArena(e);
    RemovedRegion(s.regions, at);
    AllInArena(s'.regions);
    var live := LargeAllocator.Live(s.regions);
    LiveBounds(s'.regions);
    FramesWithout(s.mem, s.root, s.free, live, Run(e));
    FramesWithin(s.mem, s.root, live, Run(e), s.elsewhere, booked);
    SeparateLess(LargeAllocator.FramesOf(s.mem, s.root, live), LargeAllocator.FramesOf(s.mem, s.root, Run(e)),
                 s.elsewhere, booked);
    HeapKeptByUnmapping(s.mem, s'.mem, s.root, s.free, s'.free, s.elsewhere, s.usable, Run(e));
    FramesOutside(s.mem, s'.mem, s.root, live - Run(e), Run(e));
  }

  lemma FramesWithin(mem: Memory, root: nat, live: set<nat>, ns: set<nat>, elsewhere: set<nat>, booked: set<nat>)
    requires ns <= live && Separate(LargeAllocator.FramesOf(mem, root, live), elsewhere, booked)
    ensures LargeAllocator.FramesOf(mem, root, ns) <= LargeAllocator.FramesOf(mem, root, live)
    ensures LargeAllocator.FramesOf(mem, root, ns) <= elsewhere
  {
    FramesUnion(mem, root, live - ns, ns);
    assert live - ns + ns == live;
  }

  lemma AllInArena(c: seq<Region>)
    requires LargeRegions.Regions(c)
    ensures forall i :: 0 <= i < |c| ==> LargeRegions.InArena(c[i])
  {
  }

  lemma LiveBounds(c: seq<Region>)
    requires forall i :: 0 <= i < |c| ==> LargeRegions.InArena(c[i])
    ensures forall n :: n in LargeAllocator.Live(c) ==> LargeAllocator.FIRST <= n < LargeAllocator.END
  {
  }

  lemma FreedAtPage(mem: Memory, mem': Memory, root: nat, free: set<nat>, free': set<nat>, page: seq<nat>)
    requires IsPage(page) && HEAP_LOW <= page[0] < 212 && Freed(mem, mem', root, free, free', [], page)
    ensures AtPage(mem, mem', root, page)
  {
    OutsideTowards(mem, mem', root, page);
  }

  lemma {:induction false} PageReturned(s: State, s': State, page: seq<nat>, b: Block)
    requires Whole(s) && s' == s.(mem := s'.mem, free := s'.free)
    requires IsPage(page) && HEAP_LOW <= page[0] < 212 && b == OfPage(PageNumber(page))
    requires Freed(s.mem, s'.mem, s.root, s.free, s'.free, [], page)
    requires HeapInv(s'.mem, s.root, s'.free, s.elsewhere, s.usable)
    ensures Changes(s, s', {}, {b})
    ensures SlabAllocator.Arena(s'.mem, s.root, s.pages)
    ensures LargeSame(s.mem, s'.mem, s.root) && OutsideSame(s.mem, s'.mem, s.root)
  {
    FreedAtPage(s.mem, s'.mem, s.root, s.free, s'.free, page);
    SomeParts(s);
    hide Whole, Freed, HeapInv, PageNumber, IndexedBut, LargeAllocator.Mapped;
    PageAtPage(s.mem, s'.mem, s.root, s.pages, page);
    PageTakes(s, s', page);
  }

  lemma RegionIsReturned(s: State, s': State, at: nat)
    requires s'.root == s.root && s'.slabs == s.slabs && s'.usable == s.usable && s'.pages == s.pages
    requires Tree(s'.mem, s.root, s'.free) && Covered(s'.mem, s.root)
    requires at < |s.regions| && LargeRegions.InArena(s.regions[at])
    requires LargeAllocator.Returned(s.mem, s'.mem, s.root, s.free, s'.free, s.regions, s'.regions, at)
    ensures RegionReturned(s, s', at)
  {
    hide Tree, Covered, LargeAllocator.OnlyPages, FrameRun, LargeAllocator.LowSame, LargeAllocator.Regained;
  }

  lemma HasRegion(c: seq<Region>, e: Region)
    requires e in c
    ensures BTreeModel.Has(c, e.key)
  {
  }

  lemma BlockIs(b: Block)
    ensures b.OfPage? ==> b == OfPage(b.page)
    ensures b.OfRegion? ==> b == OfRegion(b.region)
  {
  }

  lemma RegionIn(s: State, b: Block)
    requires b.OfRegion? && InUse(b, s)
    ensures b.region in s.regions
  {
  }

  lemma GiverIs(b: Block)
    ensures Giver(b) == (if b.OfPage? then ByPage else if b.OfSlab? then BySlab else ByRegion)
  {
  }

  lemma NotLow(a: int)
    requires Route(a) != NoAllocator
    ensures a > 0
  {
  }

  lemma NamesStart(s: State, b: Block, a: int)
    requires b.OfRegion? && InUse(b, s) && Names(b, s, a)
    ensures a == b.region.key
  {
  }

  lemma LengthIs(s: State, b: Block)
    requires Whole(s) && InUse(b, s)
    ensures b.OfPage? ==> Length(b, s) == PAGE
    ensures b.OfSlab? ==>
              && b.p in s.slabs && SlabPages.IsSlab(s.slabs[b.p])
              && Length(b, s) == SlabPages.SizeOf(SlabPages.Bucket(s.slabs[b.p]))
    ensures b.OfRegion? ==> Length(b, s) == b.region.value
  {
    hide Whole;
  }

  // A block of the slab allocator has the class that was chosen for what was asked for.
  lemma AskedOf(s: State, b: Block)
    requires Whole(s) && b.OfSlab? && InUse(b, s)
    ensures (b.p, b.i) in s.asked && Length(b, s) == SlabPages.PrefSize(s.asked[(b.p, b.i)])
  {
    hide HeapInv, IndexedBut, Walk;
  }

  class KernelHeap {
    const pt: PageTable
    const ph: PageHeap
    const slab: SlabAllocator.SlabAllocator
    const large: LargeAllocator.LargeAllocator
    ghost const booked: set<nat>

    ghost predicate Valid()
      reads this, pt, ph, slab, large.regions, large.regions.Nodes()
    {
      && ph.pt == pt && slab.ph == ph && large.pt == pt && slab.Valid() && large.Valid()
      && Separate(LargeAllocator.FramesOf(pt.mem, pt.root, LargeAllocator.Live(large.regions.Contents())),
                  ph.elsewhere, booked)
    }

    ghost function Now(): (s: State)
      reads this, pt, ph, slab, large.regions
      ensures s.mem == pt.mem && s.root == pt.root && s.free == pt.free && s.elsewhere == ph.elsewhere
      ensures s.slabs == slab.slabs && s.asked == slab.asked && s.regions == large.regions.Contents()
      ensures s.usable == ph.usable && s.pages == slab.pages
    {
      State(pt.mem, pt.root, pt.free, ph.elsewhere, ph.usable, slab.slabs, slab.pages, slab.asked,
            large.regions.Contents())
    }

    // init, on tables that have nothing from 96 TiB on.  `booked` is what is in use then.
    constructor (pt: PageTable, ghost booked: set<nat>, ghost usable: set<nat>)
      requires HeapInv(pt.mem, pt.root, pt.free, booked, usable) && NothingYet(pt.mem, pt.root)
      ensures Valid() && this.pt == pt && this.booked == booked && ph.elsewhere == booked && ph.usable == usable
      ensures forall b :: !InUse(b, Now())
    {
      hide *;
      UnfoldInv(pt.mem, pt.root, pt.free, booked, usable);
      NothingInHeap(pt.mem, pt.root, pt.free, booked, usable);
      this.pt, this.booked := pt, booked;
      var pages := new PageHeap(pt, booked, usable);
      this.ph := pages;
      this.slab := new SlabAllocator.SlabAllocator(pages);
      this.large := new LargeAllocator.LargeAllocator(pt);
      new;
      StartsValid();
    }

    lemma StartsValid()
      requires ph.pt == pt && slab.ph == ph && large.pt == pt && slab.Valid() && large.Valid()
      requires ph.elsewhere == booked && slab.slabs == map[] && large.regions.Contents() == []
      requires forall n: nat :: FIRST <= n < END ==> Walk(pt.mem, pt.root, 0, PathOf(n)).None?
      ensures Valid() && forall b :: !InUse(b, Now())
    {
      hide Tree, Covered, Granted, Conserved, IndexedBut, Walk, PathOf, LargeAllocator.Mapped;
      hide BTreeObject.BTree.Valid, BTreeObject.BTree.Contents, BTreeObject.BTree.Nodes;
      hide SlabAllocator.SlabAllocator.Valid, LargeAllocator.LargeAllocator.Valid;
      assert LargeAllocator.FramesOf(pt.mem, pt.root, {}) == {};
    }

    // What Valid says of the values at hand.
    lemma Parts()
      requires Valid()
      ensures ph.pt == pt && slab.ph == ph && large.pt == pt && slab.Valid() && large.Valid() && ph.Valid()
      ensures Whole(Now())
      ensures Separate(LargeAllocator.FramesOf(pt.mem, pt.root, LargeAllocator.Live(large.regions.Contents())),
                       ph.elsewhere, booked)
    {
      SlabAllocator.SlabsArePages(slab.slabs, slab.nodes, slab.pages);
      hide Tree, Covered, Granted, Conserved, IndexedBut, LargeAllocator.Mapped, LargeAllocator.FramesOf;
      hide LargeAllocator.Live, LargeRegions.Regions, BTreeObject.BTree.Valid, BTreeObject.BTree.Contents;
      hide BTreeObject.BTree.Nodes, SlabAllocator.Lists, SlabAllocator.Listed, SlabAllocator.Shared;
      hide SlabAllocator.AllSlabs, SlabAllocator.AskedFor, SlabAllocator.Arena;
    }

    // ... and of what is unchanged while only the tables are.
    lemma AllParts()
      requires Valid()
      ensures ph.pt == pt && slab.ph == ph && large.pt == pt && ph.Valid() && Whole(Now())
      ensures slab.InOrder() && SlabAllocator.Listed(slab.chains, slab.nodes, slab.slabs)
      ensures SlabAllocator.AskedFor(slab.slabs, slab.asked) && large.regions.Valid()
      ensures LargeRegions.Regions(large.regions.Contents())
      ensures LargeAllocator.Mapped(pt.mem, pt.root, pt.free, LargeAllocator.Live(large.regions.Contents()))
      ensures Separate(LargeAllocator.FramesOf(pt.mem, pt.root, LargeAllocator.Live(large.regions.Contents())),
                       ph.elsewhere, booked)
    {
      hide *;
      Parts();
      large.Parts();
      slab.Parts();
    }

    // The other way round.
    lemma Assembled()
      requires ph.pt == pt && slab.ph == ph && large.pt == pt && large.Valid()
      requires HeapInv(pt.mem, pt.root, pt.free, ph.elsewhere, ph.usable) && Indexed(pt.mem, pt.root)
      requires SlabAllocator.Arena(pt.mem, pt.root, slab.pages) && slab.InOrder()
      requires SlabAllocator.Listed(slab.chains, slab.nodes, slab.slabs)
      requires SlabAllocator.AskedFor(slab.slabs, slab.asked)
      requires Separate(LargeAllocator.FramesOf(pt.mem, pt.root, LargeAllocator.Live(large.regions.Contents())),
                        ph.elsewhere, booked)
      ensures Valid()
    {
      hide HeapInv, IndexedBut, SlabAllocator.Arena, SlabAllocator.Listed, SlabAllocator.AskedFor, Separate;
      hide LargeAllocator.LargeAllocator.Valid, SlabAllocator.SlabAllocator.InOrder, LargeAllocator.FramesOf;
      hide LargeAllocator.Live;
    }

    // A change of the tables that is the page heap's.
    lemma {:induction false} Together(mem: Memory, free: set<nat>)
      requires ph.pt == pt && slab.ph == ph && large.pt == pt && slab.Valid() && large.regions.Valid()
      requires LargeRegions.Regions(large.regions.Contents())
      requires var live := LargeAllocator.Live(large.regions.Contents());
               && LargeAllocator.Mapped(mem, pt.root, free, live)
               && Separate(LargeAllocator.FramesOf(mem, pt.root, live), ph.elsewhere, booked)
      requires LargeSame(mem, pt.mem, pt.root) && OutsideSame(mem, pt.mem, pt.root)
      ensures Valid()
    {
      hide BTreeObject.BTree.Valid, BTreeObject.BTree.Contents, BTreeObject.BTree.Nodes;
      hide LargeSame, OutsideSame, LargeAllocator.Mapped, LargeAllocator.FramesOf, LargeAllocator.Live, Tree, Covered;
      hide Granted, Conserved, IndexedBut, SlabAllocator.SlabAllocator.InOrder;
      hide SlabAllocator.Arena, SlabAllocator.Listed, SlabAllocator.AskedFor;
      LargeKept(mem, pt.mem, pt.root, free, pt.free, ph.elsewhere, ph.usable,
                LargeAllocator.Live(large.regions.Contents()));
    }

    // small_allocator::malloc
    method MallocSmall(size: nat) returns (reply: Reply, ghost block: Block)
      requires Valid()
      modifies slab, pt
      ensures reply.Refused? <==> size > 2047
      ensures reply.Refused? ==> unchanged(slab, pt)
      ensures reply.Fault? ==> SlabAllocator.NoPage(pt.mem, pt.root, pt.free)
      ensures reply.Given? ==> Valid() && Gives(old(Now()), Now(), block, reply.address, size)
      ensures reply.Given? ==> block.OfSlab? && InUse(block, Now()) && Suits(block, Length(block, Now()), size)
    {
      hide *;
      ghost var nodes := BTreeModel.Snap(large.regions.Nodes());
      Parts();
      large.Parts();
      ghost var s := Now();
      ghost var p, i;
      SlabPages.ClassFits(size);
      reply, p, i := slab.Malloc(size);
      block := OfSlab(p, i);
      if reply.Given? {
        LargeUndisturbed(s.mem, pt.mem, pt.root, s.slabs.Keys);
        Together(s.mem, s.free);
        SlabGives(s, Now(), SlabPages.BucketOf(SlabPages.PrefSize(size)), size, reply.address, p, i);
        GivenInUse(s, Now(), block, reply.address, size);
        SmallSuits(s, Now(), size, reply.address, p, i);
      }
    }

    // page_allocator::malloc
    method MallocPage(size: nat) returns (address: Option<nat>, ghost block: Block)
      requires Valid()
      modifies pt
      ensures Valid()
      ensures address.None? ==> Changes(old(Now()), Now(), {}, {})
      ensures address.None? && size <= PAGE ==> pt.free == {} || NoPageLeft(old(Now()))
      ensures address.Some? ==> block.OfPage? && size <= 4096
      ensures address.Some? ==> size <= PAGE && Gives(old(Now()), Now(), block, address.value, size)
    {
      hide *;
      PageSize();
      ghost var nodes := BTreeModel.Snap(large.regions.Nodes());
      AllParts();
      ghost var s := Now();
      block := OfPage(0);
      var page := ph.Malloc(size);
      if page.None? {
        NothingMoved(s, Now(), size);
      } else {
        FourIndices(s.mem, pt.mem, pt.root, s.free, pt.free, page.value);
        block := OfPage(PageNumber(page.value));
        PageGiven(s, Now(), page.value, size);
      }
      slab.Together();
      Together(s.mem, s.free);
      if page.None? && size <= PAGE && pt.free != {} {
        Parts();
        ArenaGivenOut(s, Now());
      }
      address := if page.None? then None else Some(PageNumber(page.value) * PAGE);
    }

    // large_allocator::malloc
    method MallocLarge(size: nat) returns (address: Option<nat>, ghost block: Block)
      requires Valid() && size > 0
      modifies pt, ph, large.regions, large.regions.Nodes()
      ensures forall r :: r in large.regions.Nodes() && r !in old(large.regions.Nodes()) ==> fresh(r)
      ensures address.None? ==> pt.free == {} || NoGap(old(large.regions.Contents()), size)
      ensures address.Some? ==> Valid() && Gives(old(Now()), Now(), block, address.value, size)
      ensures address.Some? ==>
                && old(pt.free) != {} && block.OfRegion?
                && block.region == BTreeModel.Entry(address.value, LargeAllocator.Rounded(size))
    {
      hide *;
      ghost var nodes := BTreeModel.Snap(large.regions.Nodes());
      AllParts();
      Parts();
      ghost var s := Now();
      block := OfPage(0);
      address := large.Malloc(size);
      if address.None? {
        if pt.free != {} {
          GapMissing(s.regions, size);
        }
        return;
      }
      large.Parts();
      nodes := BTreeModel.Snap(large.regions.Nodes());
      ghost var e := BTreeModel.Entry(address.value, LargeAllocator.Rounded(size));
      RegionIsProvided(s, Now(), e, size);
      RegionFrames(s, Now(), e, size, booked);
      ph.elsewhere := ph.elsewhere + LargeAllocator.FramesOf(pt.mem, pt.root, Run(e));
      RegionIsProvided(s, Now(), e, size);
      RegionGives(s, Now(), e, size);
      block := OfRegion(e);
      FrameWasFree(s.mem, pt.mem, pt.root, s.free, pt.free, address.value, size);
      large.Together();
      Assembled();
    }

    // malloc.  It fails where the source faults or panics: a small size finds no page, or a larger one
    // neither frames nor a gap.
    method Malloc(size: nat) returns (reply: Reply, ghost block: Block)
      requires Valid()
      modifies slab, pt, ph, large.regions, large.regions.Nodes()
      ensures forall r :: r in large.regions.Nodes() && r !in old(large.regions.Nodes()) ==> fresh(r)
      ensures !reply.Refused?
      ensures reply.Given? ==> Valid() && Gives(old(Now()), Now(), block, reply.address, size)
      ensures reply.Given? ==> InUse(block, Now()) && Suits(block, Length(block, Now()), size)
      ensures reply.Given? && size <= 4096 && block.OfRegion? ==> NoPageLeft(old(Now()))
      ensures reply.Fault? && size <= 2047 ==> SlabAllocator.NoPage(pt.mem, pt.root, pt.free)
      ensures reply.Fault? && size > 2047 ==> pt.free == {} || NoGap(old(large.regions.Contents()), size)
    {
      hide *;
      PageSize();
      ghost var nodes, s := BTreeModel.Snap(large.regions.Nodes()), Now();
      reply, block := MallocSmall(size);
      nodes := BTreeModel.Snap(large.regions.Nodes());
      if !reply.Refused? {
        return;
      }
      var address;
      address, block := MallocPage(size);
      nodes := BTreeModel.Snap(large.regions.Nodes());
      if address.Some? {
        GivenInUse(s, Now(), block, address.value, size);
        PageSuits(Now(), block, size);
        return SlabAllocator.Given(address.value), block;
      }
      ghost var s1 := Now();
      label Searched:
      address, block := MallocLarge(size);
      forall r | r in large.regions.Nodes() && r !in old(large.regions.Nodes())
        ensures fresh(r)
      {
        assert fresh@Searched(r);
      }
      if address.None? {
        return SlabAllocator.Fault, block;
      }
      NothingThenGives(s, s1, Now(), block, address.value, size);
      GivenInUse(s, Now(), block, address.value, size);
      RegionSuits(block.region, size);
      LengthOfRegion(Now(), block);
      reply := SlabAllocator.Given(address.value);
    }

    // page_allocator::free
    method FreePage(a: nat, ghost block: Block)
      requires Valid() && block.OfPage? && InUse(block, Now()) && Holds(block, Now(), a)
      modifies pt
      ensures Valid() && Changes(old(Now()), Now(), {}, {block})
    {
      hide *;
      ghost var nodes, s := BTreeModel.Snap(large.regions.Nodes()), Now();
      AllParts();
      PageSize();
      PageNamed(s, block, a);
      ph.Free(Some(PathOf(a / PAGE)));
      SlabAllocator.HeapOf(ph);
      BlockIs(block);
      PageReturned(s, Now(), PathOf(a / PAGE), block);
      slab.Together();
      Together(s.mem, s.free);
    }

    // small_allocator::free
    method FreeSmall(a: nat, ghost block: Block) returns (ok: bool)
      requires Valid() && block.OfSlab? && InUse(block, Now()) && Holds(block, Now(), a)
      modifies slab, pt
      ensures !ok ==> SlabAllocator.NoPage(pt.mem, pt.root, pt.free)
      ensures ok ==> Valid() && Changes(old(Now()), Now(), {}, {block})
    {
      hide *;
      ghost var nodes, s := BTreeModel.Snap(large.regions.Nodes()), Now();
      Parts();
      AllParts();
      SlabNamed(s, block, a);
      ok := slab.Free(a);
      if ok {
        LargeUndisturbed(s.mem, pt.mem, pt.root, s.slabs.Keys);
        Together(s.mem, s.free);
        SlabTakes(s, Now(), block.p, block.i);
      }
    }

    // large_allocator::free
    method FreeLarge(a: nat, ghost block: Block)
      requires Valid() && block.OfRegion? && InUse(block, Now()) && a == block.region.key && a > 0
      modifies pt, ph, large.regions, large.regions.Nodes()
      ensures large.regions.Nodes() <= old(large.regions.Nodes())
      ensures Valid() && Changes(old(Now()), Now(), {}, {block})
    {
      hide *;
      ghost var nodes, s := BTreeModel.Snap(large.regions.Nodes()), Now();
      Parts();
      AllParts();
      SomeParts(s);
      RegionIn(s, block);
      HasRegion(s.regions, block.region);
      large.Free(a);
      ghost var at :| 0 <= at < |s.regions| && s.regions[at].key == a
                      && LargeAllocator.Returned(s.mem, pt.mem, pt.root, s.free, pt.free, s.regions,
                                                 large.regions.Contents(), at);
      large.Parts();
      nodes := BTreeModel.Snap(large.regions.Nodes());
      LargeRegions.OneRegion(s.regions, block.region, at);
      RegionIsReturned(s, Now(), at);
      RegionFramesBack(s, Now(), at, booked);
      ph.elsewhere := ph.elsewhere - LargeAllocator.FramesOf(s.mem, pt.root, Run(s.regions[at]));
      RegionIsReturned(s, Now(), at);
      RegionTakes(s, Now(), at);
      BlockIs(block);
      large.Together();
      Assembled();
    }

    // free.  It fails where the slab allocator writes through null.
    method Free(a: nat, ghost block: Block) returns (ok: bool)
      requires Valid()
      requires Route(a) != NoAllocator ==> InUse(block, Now()) && Names(block, Now(), a)
      modifies slab, pt, ph, large.regions, large.regions.Nodes()
      ensures large.regions.Nodes() <= old(large.regions.Nodes())
      ensures !ok ==> block.OfSlab? && SlabAllocator.NoPage(pt.mem, pt.root, pt.free)
      ensures Route(a) == NoAllocator ==> ok && Valid() && Now() == old(Now())
      ensures ok && Route(a) != NoAllocator ==> Valid() && Changes(old(Now()), Now(), {}, {block})
    {
      hide *;
      ghost var nodes := BTreeModel.Snap(large.regions.Nodes());
      if Route(a) == NoAllocator {
        return true;
      }
      Parts();
      NamesRoute(Now(), block, a);
      GiverIs(block);
      ok := true;
      match Route(a) {
        case ByPage => FreePage(a, block);
        case BySlab => ok := FreeSmall(a, block);
        case ByRegion =>
          NamesStart(Now(), block, a);
          FreeLarge(a, block);
      }
    }

    // get_size.  In the slab arena the address must lie in a block, whose page is read; everywhere else
    // any address will do.
    method GetSize(a: nat, ghost block: Block) returns (size: Option<nat>)
      requires Valid()
      requires Route(a) == BySlab ==> InUse(block, Now()) && Holds(block, Now(), a)
      ensures Valid() && Now() == old(Now())
      ensures size.None? <==> Route(a) == NoAllocator
      ensures forall b :: InUse(b, Now()) && Names(b, Now(), a) ==> size == Some(Length(b, Now()))
      ensures Route(a) == ByRegion && !BTreeModel.Has(large.regions.Contents(), a) ==> size == Some(0)
    {
      hide *;
      ghost var nodes := BTreeModel.Snap(large.regions.Nodes());
      Parts();
      ghost var s := Now();
      forall b | InUse(b, s) && Names(b, s, a)
        ensures Route(a) == Giver(b)
      {
        NamesRoute(s, b, a);
      }
      match Route(a) {
        case NoAllocator =>
          forall b | InUse(b, s) && Names(b, s, a)
            ensures false
          {
            GiverIs(b);
          }
          return None;
        case ByPage =>
          forall b | InUse(b, s) && Names(b, s, a)
            ensures Length(b, s) == PAGE
          {
            GiverIs(b);
            LengthIs(s, b);
          }
          return Some(PAGE);
        case BySlab =>
          RoutesToGiver(s, block, a);
          GiverIs(block);
          SlabNamed(s, block, a);
          var n := slab.Size(a);
          AskedOf(s, block);
          forall b | InUse(b, s) && Names(b, s, a)
            ensures b == block
          {
            NamesRoute(s, b, a);
            BlocksApart(s, b, block, a);
          }
          return Some(n);
        case ByRegion =>
          NotLow(a);
          var n := large.Size(a);
          forall b | InUse(b, s) && Names(b, s, a)
            ensures Length(b, s) == n
          {
            GiverIs(b);
            LengthIs(s, b);
            NamesStart(s, b, a);
            RegionIn(s, b);
          }
          return Some(n);
      }
    }
  }
}
